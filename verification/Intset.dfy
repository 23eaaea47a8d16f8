/**
  The sorted packed integer set (intset.c): 2-, 4- or 8-byte little-endian elements in one byte
  buffer, widened in place when a value does not fit.
 */
module Intset {
  import opened Basics

  const ENC_INT16: nat := 2
  const ENC_INT32: nat := 4
  const ENC_INT64: nat := 8

  // ---------------------------------------------------------------------
  // Two's complement, little endian

  /** Half the range of a signed integer of the given width in bytes. */
  function Half(width: nat): nat
    requires width > 0
  {
    if width == 1 then 128 else 256 * Half(width - 1)
  }

  predicate Fits(v: int, width: nat)
    requires width > 0
  {
    var h: int := Half(width);
    -h <= v < h
  }

  type Int64 = v: int | -0x8000_0000_0000_0000 <= v < 0x8000_0000_0000_0000

  /** The stored form of v: the low `width` bytes, least significant first. */
  function Bytes(v: int, width: nat): (r: seq<Byte>)
    ensures |r| == width
    decreases width
  {
    if width == 0 then [] else [v % 256] + Bytes(v / 256, width - 1)
  }

  /** The integer a stored form stands for; the last byte holds the sign. */
  function Signed(bs: seq<Byte>): int
    requires |bs| > 0
  {
    if |bs| == 1 then (if bs[0] < 128 then bs[0] else bs[0] - 256) else bs[0] + 256 * Signed(bs[1..])
  }

  lemma {:induction false} SignedBytes(v: int, width: nat)
    requires width > 0 && Fits(v, width)
    ensures Signed(Bytes(v, width)) == v
    decreases width
  {
    if width > 1 {
      SignedBytes(v / 256, width - 1);
      assert Bytes(v, width)[1..] == Bytes(v / 256, width - 1);
    } else {
      assert Bytes(v, 1) == [v % 256];
    }
  }

  lemma {:induction false} SignedFits(bs: seq<Byte>)
    requires |bs| > 0
    ensures Fits(Signed(bs), |bs|)
  {
    if |bs| > 1 { SignedFits(bs[1..]); }
  }

  lemma Halves()
    ensures Half(2) == 0x8000 && Half(4) == 0x8000_0000 && Half(8) == 0x8000_0000_0000_0000
  {
    assert Half(1) == 128;
    assert Half(3) == 256 * Half(2);
    assert Half(5) == 256 * Half(4);
    assert Half(6) == 256 * Half(5);
    assert Half(7) == 256 * Half(6);
  }

  predicate Width(enc: nat) { enc == ENC_INT16 || enc == ENC_INT32 || enc == ENC_INT64 }

  /** _intsetValueEncoding: the least of the three widths the value fits. */
  function ValueEncoding(v: Int64): (enc: nat)
    ensures Width(enc) && forall w :: Width(w) ==> (Fits(v, w) <==> enc <= w)
  {
    Halves();
    if v < -0x8000_0000 || v > 0x7fff_ffff then ENC_INT64
    else if v < -0x8000 || v > 0x7fff then ENC_INT32
    else ENC_INT16
  }

  // ---------------------------------------------------------------------
  // Elements of a byte buffer

  /** Where element `pos` starts. */
  function Off(enc: nat, pos: nat): nat { pos * enc }

  lemma OffOrder(enc: nat, i: nat, j: nat)
    ensures i < j ==> Off(enc, i) + enc <= Off(enc, j)
    ensures i <= j ==> Off(enc, i) <= Off(enc, j)
    ensures Off(enc, i + 1) == Off(enc, i) + enc && Off(enc, 0) == 0
  {
    if i < j {
      Distribute(enc, i, j - i);
      Distribute(enc, 1, j - i - 1);
    }
    Distribute(enc, i, 1);
  }

  lemma Distribute(enc: nat, i: nat, j: nat)
    ensures (i + j) * enc == i * enc + j * enc
  {
  }

  lemma OffSum(enc: nat, i: nat, j: nat)
    ensures Off(enc, i + j) == Off(enc, i) + Off(enc, j)
  {
    Distribute(enc, i, j);
  }

  lemma OffWider(enc: nat, wider: nat, i: nat)
    requires enc <= wider
    ensures Off(enc, i) <= Off(wider, i)
  {
    assert i * wider == i * enc + i * (wider - enc);
  }

  /** _intsetGetEncoded */
  function Read(c: seq<Byte>, enc: nat, pos: nat): int
    requires enc > 0 && Off(enc, pos) + enc <= |c|
  {
    Signed(c[Off(enc, pos)..Off(enc, pos) + enc])
  }

  /** _intsetSet */
  function Write(c: seq<Byte>, enc: nat, pos: nat, v: int): (r: seq<Byte>)
    requires Off(enc, pos) + enc <= |c|
    ensures |r| == |c|
  {
    c[..Off(enc, pos)] + Bytes(v, enc) + c[Off(enc, pos) + enc..]
  }

  /** A write is read back, and reaches no other element. */
  lemma ReadWrite(c: seq<Byte>, enc: nat, pos: nat, v: int, i: nat)
    requires enc > 0 && Fits(v, enc) && Off(enc, pos) + enc <= |c| && Off(enc, i) + enc <= |c|
    ensures Read(Write(c, enc, pos, v), enc, i) == if i == pos then v else Read(c, enc, i)
  {
    hide Off, Fits, Signed, Bytes;
    OffOrder(enc, i, pos);
    OffOrder(enc, pos, i);
    var d, o := Write(c, enc, pos, v), Off(enc, i);
    if i == pos {
      assert d[o..o + enc] == Bytes(v, enc);
      SignedBytes(v, enc);
    } else {
      assert d[o..o + enc] == c[o..o + enc];
    }
  }

  /** What lies before element `pos` stays as it is, at any width. */
  lemma WritePrefix(c: seq<Byte>, enc: nat, pos: nat, v: int, m: nat)
    requires Off(enc, pos) + enc <= |c| && m <= Off(enc, pos)
    ensures Write(c, enc, pos, v)[..m] == c[..m]
  {
    hide Off, Bytes;
  }

  lemma ShorterPrefix(c: seq<Byte>, d: seq<Byte>, m: nat, n: nat)
    requires m <= n <= |c| && n <= |d| && c[..n] == d[..n]
    ensures c[..m] == d[..m]
  {
    assert c[..m] == c[..n][..m];
    assert d[..m] == d[..n][..m];
  }

  lemma ReadPrefix(c: seq<Byte>, d: seq<Byte>, enc: nat, m: nat, i: nat)
    requires enc > 0 && m <= |c| && m <= |d| && c[..m] == d[..m] && Off(enc, i) + enc <= m
    ensures Read(c, enc, i) == Read(d, enc, i)
  {
    hide Off, Signed;
    var o := Off(enc, i);
    assert c[o..o + enc] == c[..m][o..o + enc];
    assert d[o..o + enc] == d[..m][o..o + enc];
  }

  /** The first n elements of a buffer. */
  function Elements(c: seq<Byte>, enc: nat, n: nat): (r: seq<int>)
    requires enc > 0 && Off(enc, n) <= |c|
    ensures |r| == n
  {
    seq(n, i requires 0 <= i < n => OffOrder(enc, i, n); Read(c, enc, i))
  }

  lemma ElementAt(c: seq<Byte>, enc: nat, n: nat, i: nat)
    requires enc > 0 && Off(enc, n) <= |c| && i < n
    ensures Off(enc, i) + enc <= |c| && Elements(c, enc, n)[i] == Read(c, enc, i)
  {
    OffOrder(enc, i, n);
  }

  lemma ElementFits(c: seq<Byte>, enc: nat, n: nat, i: nat)
    requires enc > 0 && Off(enc, n) <= |c| && i < n
    ensures Fits(Elements(c, enc, n)[i], enc)
  {
    hide Off, Signed, Fits;
    ElementAt(c, enc, n, i);
    SignedFits(c[Off(enc, i)..Off(enc, i) + enc]);
  }

  /** memmove of the elements from `from` on to position `to`. */
  function Moved(c: seq<Byte>, enc: nat, n: nat, from: nat, to: nat): (r: seq<Byte>)
    requires from <= n && Off(enc, n) <= |c| && Off(enc, to + (n - from)) <= |c|
    ensures |r| == |c|
  {
    var size := Off(enc, n - from);
    OffSum(enc, from, n - from);
    OffSum(enc, to, n - from);
    c[..Off(enc, to)] + c[Off(enc, from)..Off(enc, from) + size] + c[Off(enc, to) + size..]
  }

  lemma SliceOfSlice(s: seq<Byte>, a: nat, b: nat, r: nat, n: nat)
    requires a <= b <= |s| && r + n <= b - a
    ensures s[a..b][r..r + n] == s[a + r..a + r + n]
  {
    var x, y := s[a..b][r..r + n], s[a + r..a + r + n];
    assert |x| == n && |y| == n;
    forall k | 0 <= k < n ensures x[k] == y[k] {
      assert x[k] == s[a..b][r + k];
    }
  }

  lemma BlockSlice(c: seq<Byte>, d: seq<Byte>, from: nat, to: nat, size: nat, r: nat, n: nat)
    requires from + size <= |c| && to + size <= |d| && d[to..to + size] == c[from..from + size] && r + n <= size
    ensures d[to + r..to + r + n] == c[from + r..from + r + n]
  {
    SliceOfSlice(c, from, from + size, r, n);
    SliceOfSlice(d, to, to + size, r, n);
  }

  lemma MovedElements(c: seq<Byte>, enc: nat, n: nat, from: nat, to: nat, i: nat)
    requires enc > 0 && from <= n && Off(enc, n) <= |c| && Off(enc, to + (n - from)) <= |c|
    requires i < to + (n - from) && (i < to ==> i < n)
    ensures Off(enc, i) + enc <= |c|
    ensures i < to ==> Read(Moved(c, enc, n, from, to), enc, i) == Read(c, enc, i)
    ensures i >= to ==> Holds(c, enc, from + (i - to), Read(Moved(c, enc, n, from, to), enc, i))
  {
    hide Off, Signed;
    var d, o := Moved(c, enc, n, from, to), Off(enc, i);
    OffOrder(enc, i, to + (n - from));
    OffSum(enc, from, n - from);
    OffSum(enc, to, n - from);
    if i < to {
      OffOrder(enc, i, to);
      assert d[o..o + enc] == c[o..o + enc];
    } else {
      OffSum(enc, to, i - to);
      OffSum(enc, from, i - to);
      OffOrder(enc, i - to, n - from);
      var p := Off(enc, from + (i - to));
      BlockSlice(c, d, Off(enc, from), Off(enc, to), Off(enc, n - from), Off(enc, i - to), enc);
      assert d[o..o + enc] == c[p..p + enc];
    }
  }

  // ---------------------------------------------------------------------
  // Sorted sequences

  ghost predicate Sorted(s: seq<int>)
  {
    forall i, j :: 0 <= i < j < |s| ==> s[i] < s[j]
  }

  ghost function Members(s: seq<int>): set<int>
  {
    set x | x in s
  }

  /** The position where v sits or belongs: everything before is smaller, everything after greater. */
  ghost predicate IsPlace(s: seq<int>, v: int, pos: nat, found: bool)
  {
    && pos <= |s| && (found ==> pos < |s| && s[pos] == v)
    && (forall i :: 0 <= i < pos ==> s[i] < v)
    && (forall i :: pos <= i < |s| ==> (if found && i == pos then s[i] == v else v < s[i]))
  }

  lemma PlaceIsUnique(s: seq<int>, v: int, p: nat, f: bool, q: nat, g: bool)
    requires IsPlace(s, v, p, f) && IsPlace(s, v, q, g)
    ensures p == q && f == g && (f <==> v in s)
  {
    var a, b := if p < |s| then s[p] else v, if q < |s| then s[q] else v;
  }

  lemma InsertedAt(s: seq<int>, v: int, pos: nat)
    requires Sorted(s) && IsPlace(s, v, pos, false)
    ensures Sorted(s[..pos] + [v] + s[pos..])
    ensures Members(s[..pos] + [v] + s[pos..]) == Members(s) + {v}
  {
    hide Members;
    var r := s[..pos] + [v] + s[pos..];
    assert forall i :: 0 <= i < |r| ==> r[i] == if i < pos then s[i] else if i == pos then v else s[i - 1];
    assert s == s[..pos] + s[pos..];
    MembersSplit(s[..pos], s[pos..]);
    MembersSplit(s[..pos], [v]);
    MembersSplit(s[..pos] + [v], s[pos..]);
  }

  lemma MembersSplit(s: seq<int>, t: seq<int>)
    ensures Members(s + t) == Members(s) + Members(t)
    ensures |t| == 1 ==> Members(t) == {t[0]}
  {
  }

  lemma RemovedAt(s: seq<int>, v: int, pos: nat)
    requires Sorted(s) && IsPlace(s, v, pos, true)
    ensures Sorted(s[..pos] + s[pos + 1..])
    ensures Members(s[..pos] + s[pos + 1..]) == Members(s) - {v}
  {
    hide Members;
    var r := s[..pos] + s[pos + 1..];
    assert forall i :: 0 <= i < |r| ==> r[i] == if i < pos then s[i] else s[i + 1];
    assert s == s[..pos] + [v] + s[pos + 1..];
    NotMember(r, v);
    MembersSplit(s[..pos], s[pos + 1..]);
    MembersSplit(s[..pos], [v]);
    MembersSplit(s[..pos] + [v], s[pos + 1..]);
  }

  lemma NotMember(s: seq<int>, v: int)
    requires forall i :: 0 <= i < |s| ==> s[i] != v
    ensures v !in Members(s)
  {
  }

  /** The last element is the greatest, and the rest is the set without it. */
  lemma SplitLast(s: seq<int>)
    requires Sorted(s) && s != []
    ensures var front, last := s[..|s| - 1], s[|s| - 1];
            && Sorted(front) && s == front + [last] && Members(front) == Members(s) - {last}
            && last in Members(s) && forall x :: x in Members(s) ==> x <= last
  {
    hide Members;
    var front, last := s[..|s| - 1], s[|s| - 1];
    assert s == front + [last];
    NotMember(front, last);
    MembersSplit(front, [last]);
    forall x | x in Members(s) ensures x <= last {
      var i := IndexOf(s, x);
    }
  }

  lemma IndexOf(s: seq<int>, x: int) returns (i: nat)
    requires x in Members(s)
    ensures i < |s| && s[i] == x
  {
    i :| 0 <= i < |s| && s[i] == x;
  }

  /** A set has one sorted sequence: equal sets are stored as equal elements. */
  lemma {:induction false} SortedIsCanonical(s: seq<int>, t: seq<int>)
    requires Sorted(s) && Sorted(t) && Members(s) == Members(t)
    ensures s == t
  {
    hide Members, Sorted;
    if s != [] { SplitLast(s); }
    if t != [] { SplitLast(t); }
    NoMembers(s);
    NoMembers(t);
    if s != [] && t != [] {
      SortedIsCanonical(s[..|s| - 1], t[..|t| - 1]);
    }
  }

  lemma NoMembers(s: seq<int>)
    ensures s == [] <==> Members(s) == {}
  {
    if s != [] { assert s[0] in Members(s); }
  }

  // ---------------------------------------------------------------------
  // The object

  /** Fresh bytes of a reallocated buffer: nothing is known of them. */
  method Garbage(n: nat) returns (junk: seq<Byte>)
    ensures |junk| == n
  {
    junk := seq(n, _ => 0);
  }

  class IntegerSet {
    var encoding: nat
    var length: nat
    var contents: seq<Byte>

    ghost predicate Layout()
      reads this
    {
      Width(encoding) && |contents| == Off(encoding, length)
    }

    ghost function Items(): (s: seq<int>)
      requires Layout()
      reads this
      ensures |s| == length
    {
      Elements(contents, encoding, length)
    }

    ghost predicate Valid()
      reads this
    {
      Layout() && Sorted(Items()) && forall i :: 0 <= i < length ==> Fits(Items()[i], encoding)
    }

    constructor ()
      ensures Valid() && Items() == [] && encoding == ENC_INT16
    {
      encoding, length, contents := ENC_INT16, 0, [];
    }

    /** _intsetGet */
    method Get(pos: nat) returns (v: int)
      requires Layout() && pos < length
      ensures v == Items()[pos]
    {
      ElementAt(contents, encoding, length, pos);
      v := Read(contents, encoding, pos);
    }

    /** intsetResize: the buffer for `len` elements, cut or padded with unknown bytes. */
    method Resize(len: nat)
      modifies this`contents
      ensures |contents| == Off(encoding, len)
      ensures if |contents| <= |old(contents)| then contents == old(contents)[..|contents|]
              else contents[..|old(contents)|] == old(contents)
    {
      var size := Off(encoding, len);
      if size <= |contents| {
        contents := contents[..size];
      } else {
        var junk := Garbage(size - |contents|);
        contents := contents + junk;
      }
    }

    /** intsetSearch */
    method Search(value: int) returns (found: bool, pos: nat)
      requires Valid()
      ensures IsPlace(Items(), value, pos, found)
    {
      hide Elements, Off, Fits, Read;
      if length == 0 { return false, 0; }
      var greatest := Get(length - 1);
      if value > greatest { return false, length; }
      var least := Get(0);
      if value < least { return false, 0; }
      var min: int, max: int, mid: int, cur: int := 0, length - 1, -1, -1;
      while max >= min
        invariant 0 <= min <= length && min - 1 <= max < length
        invariant forall i :: 0 <= i < min ==> Items()[i] < value
        invariant forall i :: max < i < length ==> value < Items()[i]
        invariant (min == 0 && max == length - 1) || cur != value
        decreases max - min
      {
        mid := (min + max) / 2;
        cur := Get(mid);
        if value > cur { min := mid + 1; }
        else if value < cur { max := mid - 1; }
        else { break; }
      }
      if value == cur { return true, mid; }
      return false, min;
    }

    /** intsetUpgradeAndAdd */
    method UpgradeAndAdd(value: Int64)
      requires Valid() && ValueEncoding(value) > encoding
      modifies this
      ensures Valid() && encoding == ValueEncoding(value)
      ensures Items() == if value < 0 then [value] + old(Items()) else old(Items()) + [value]
    {
      hide Off, Read, Write, Fits, Elements;
      var curenc, newenc := encoding, ValueEncoding(value);
      var i: nat, prepend: nat := length, if value < 0 then 1 else 0;
      ghost var olds, c0 := Items(), contents;
      encoding := newenc;
      OffOrder(newenc, length, length + 1);
      OffWider(curenc, newenc, length);
      Resize(length + 1);
      assert contents[..|c0|] == c0;
      while i > 0
        invariant 0 <= i <= length == old(length) && encoding == newenc && |contents| == Off(newenc, length + 1)
        invariant Off(curenc, i) <= |c0| && Off(curenc, i) <= |contents| && contents[..Off(curenc, i)] == c0[..Off(curenc, i)]
        invariant forall k :: i <= k < length ==> Holds(contents, newenc, k + prepend, olds[k])
      {
        i := i - 1;
        ghost var before := contents;
        OffOrder(curenc, i, i + 1);
        ReadPrefix(contents, c0, curenc, Off(curenc, i + 1), i);
        ElementAt(c0, curenc, length, i);
        OffOrder(newenc, i + prepend, length + 1);
        WidenedFits(olds[i], curenc, newenc);
        contents := Write(contents, newenc, i + prepend, Read(contents, curenc, i));
        OffWider(curenc, newenc, i);
        OffOrder(newenc, i, i + prepend);
        WritePrefix(before, newenc, i + prepend, olds[i], Off(curenc, i));
        ShorterPrefix(before, c0, Off(curenc, i), Off(curenc, i + 1));
        forall k | i <= k < length ensures Holds(contents, newenc, k + prepend, olds[k]) {
          OffOrder(newenc, k + prepend, length + 1);
          ReadWrite(before, newenc, i + prepend, olds[i], k + prepend);
        }
      }
      ghost var before, at: nat := contents, if prepend == 1 then 0 else length;
      OffOrder(newenc, at, length + 1);
      FitsOwnEncoding(value);
      if prepend == 1 { contents := Write(contents, newenc, 0, value); }
      else { contents := Write(contents, newenc, length, value); }
      length := length + 1;
      ghost var news := if value < 0 then [value] + olds else olds + [value];
      forall k | 0 <= k < length ensures Items()[k] == news[k] && Fits(news[k], newenc) {
        ElementAt(contents, newenc, length, k);
        OffOrder(newenc, k, length);
        ReadWrite(before, newenc, at, value, k);
        if k != at {
          assert Holds(before, newenc, (k - prepend) + prepend, olds[k - prepend]);
          WidenedFits(olds[k - prepend], curenc, newenc);
        }
      }
      assert Items() == news;
      OutsideOld(value, curenc, olds);
    }

    /** intsetMoveTail */
    method MoveTail(from: nat, to: nat)
      requires from <= length && Off(encoding, length) <= |contents| && Off(encoding, to + (length - from)) <= |contents|
      modifies this`contents
      ensures contents == Moved(old(contents), encoding, length, from, to)
    {
      contents := Moved(contents, encoding, length, from, to);
    }

    /** intsetAdd */
    method Add(value: Int64) returns (success: bool)
      requires Valid()
      modifies this
      ensures Valid() && success == (value !in old(Members(Items())))
      ensures Members(Items()) == old(Members(Items())) + {value}
      ensures encoding == if ValueEncoding(value) > old(encoding) then ValueEncoding(value) else old(encoding)
      ensures !success ==> contents == old(contents) && length == old(length)
    {
      hide Off, Read, Write, Fits, Elements, Moved, Sorted, IsPlace;
      ghost var olds := Items();
      if ValueEncoding(value) > encoding {
        OutsideOld(value, encoding, olds);
        UpgradeAndAdd(value);
        return true;
      }
      var found, pos := Search(value);
      PlaceIsUnique(olds, value, pos, found, pos, found);
      if found {
        assert Members(olds) == Members(olds) + {value};
        return false;
      }
      PlaceInRange(olds, value, pos, found);
      ghost var c0 := contents;
      OffOrder(encoding, length, length + 1);
      Resize(length + 1);
      ghost var c1 := contents;
      if pos < length { MoveTail(pos, pos + 1); }
      OffOrder(encoding, pos, length + 1);
      ghost var c2 := contents;
      FitsOwnEncoding(value);
      contents := Write(contents, encoding, pos, value);
      length := length + 1;
      ghost var news := olds[..pos] + [value] + olds[pos..];
      forall k | 0 <= k < length ensures Items()[k] == news[k] && Fits(news[k], encoding) {
        InsertStep(c0, c1, encoding, length - 1, pos, value, k);
      }
      assert Items() == news;
      InsertedAt(olds, value, pos);
      return true;
    }

    /** intsetRemove */
    method Remove(value: Int64) returns (success: bool)
      requires Valid()
      modifies this
      ensures Valid() && success == (value in old(Members(Items()))) && encoding == old(encoding)
      ensures Members(Items()) == old(Members(Items())) - {value}
      ensures !success ==> contents == old(contents) && length == old(length)
    {
      hide Off, Read, Write, Fits, Elements, Moved, Sorted, IsPlace;
      ghost var olds := Items();
      var found, pos := false, 0;
      if ValueEncoding(value) <= encoding {
        found, pos := Search(value);
        PlaceIsUnique(olds, value, pos, found, pos, found);
      } else {
        OutsideOld(value, encoding, olds);
      }
      if !found {
        assert Members(olds) == Members(olds) - {value};
        return false;
      }
      PlaceInRange(olds, value, pos, found);
      ghost var c0 := contents;
      var len := length;
      OffOrder(encoding, len - 1, len);
      if pos < len - 1 { MoveTail(pos + 1, pos); }
      ghost var c1 := contents;
      Resize(len - 1);
      length := len - 1;
      ghost var news := olds[..pos] + olds[pos + 1..];
      forall k | 0 <= k < length ensures Items()[k] == news[k] && Fits(news[k], encoding) {
        RemoveStep(c0, c1, contents, encoding, len, pos, k);
      }
      assert Items() == news;
      RemovedAt(olds, value, pos);
      return true;
    }

    /** intsetFind */
    method Find(value: Int64) returns (found: bool)
      requires Valid()
      ensures found == (value in Members(Items()))
    {
      hide Off, Read, Write, Fits, Elements, Sorted, IsPlace;
      found := false;
      if ValueEncoding(value) <= encoding {
        var pos;
        found, pos := Search(value);
        PlaceIsUnique(Items(), value, pos, found, pos, found);
      } else {
        OutsideOld(value, encoding, Items());
      }
    }
  }

  /** Element `pos` of the buffer is v. */
  ghost predicate Holds(c: seq<Byte>, enc: nat, pos: nat, v: int)
  {
    enc > 0 && Off(enc, pos) + enc <= |c| && Read(c, enc, pos) == v
  }

  lemma {:induction false} HalfGrows(a: nat, b: nat)
    requires 0 < a <= b
    ensures Half(a) <= Half(b)
    decreases b
  {
    if a < b { HalfGrows(a, b - 1); }
  }

  lemma WidenedFits(v: int, enc: nat, wider: nat)
    requires 0 < enc <= wider && Fits(v, enc)
    ensures Fits(v, wider)
  {
    HalfGrows(enc, wider);
  }

  lemma FitsOwnEncoding(v: Int64)
    ensures forall w :: Width(w) && ValueEncoding(v) <= w ==> Fits(v, w)
  {
  }

  /** A value that needs a wider encoding lies on its own side of all stored values. */
  lemma OutsideOld(v: Int64, enc: nat, s: seq<int>)
    requires Width(enc) && ValueEncoding(v) > enc && Sorted(s) && forall i :: 0 <= i < |s| ==> Fits(s[i], enc)
    ensures v !in s
    ensures v < 0 ==> Sorted([v] + s) && Members([v] + s) == Members(s) + {v}
    ensures v >= 0 ==> Sorted(s + [v]) && Members(s + [v]) == Members(s) + {v}
  {
    hide ValueEncoding;
    assert !Fits(v, enc);
    assert v < 0 ==> forall i :: 0 <= i < |s| ==> v < s[i];
    assert v >= 0 ==> forall i :: 0 <= i < |s| ==> s[i] < v;
  }

  lemma PlaceInRange(s: seq<int>, v: int, pos: nat, found: bool)
    requires IsPlace(s, v, pos, found)
    ensures pos <= |s| && (found ==> pos < |s|)
  {
  }

  /** Element k after growing the buffer, moving the tail up by one and writing v. */
  lemma InsertStep(c0: seq<Byte>, c1: seq<Byte>, enc: nat, n: nat, pos: nat, v: int, k: nat)
    requires enc > 0 && |c0| == Off(enc, n) && |c1| == Off(enc, n + 1) && |c0| <= |c1| && c1[..|c0|] == c0
    requires pos <= n && k <= n && Fits(v, enc) && Off(enc, pos) + enc <= |c1|
    requires pos < n ==> Off(enc, pos + 1 + (n - pos)) <= |c1|
    ensures var c2 := if pos < n then Moved(c1, enc, n, pos, pos + 1) else c1;
            var s := Elements(c0, enc, n);
            && Elements(Write(c2, enc, pos, v), enc, n + 1)[k] == (s[..pos] + [v] + s[pos..])[k]
            && Fits((s[..pos] + [v] + s[pos..])[k], enc)
  {
    hide Off, Read, Write, Elements, Moved, Fits;
    var c2 := if pos < n then Moved(c1, enc, n, pos, pos + 1) else c1;
    ElementAt(Write(c2, enc, pos, v), enc, n + 1, k);
    ReadWrite(c2, enc, pos, v, k);
    if k != pos {
      var j := if k < pos then k else k - 1;
      if pos < n { MovedElements(c1, enc, n, pos, pos + 1, k); }
      ElementAt(c0, enc, n, j);
      ReadPrefix(c0, c1, enc, |c0|, j);
      ElementFits(c0, enc, n, j);
    }
  }

  lemma RemoveStep(c0: seq<Byte>, c1: seq<Byte>, c2: seq<Byte>, enc: nat, n: nat, pos: nat, k: nat)
    requires enc > 0 && pos < n && |c0| == Off(enc, n) && Off(enc, n - 1) <= |c0| && k < n - 1
    requires pos < n - 1 ==> Off(enc, pos + (n - (pos + 1))) <= |c0| && c1 == Moved(c0, enc, n, pos + 1, pos)
    requires pos == n - 1 ==> c1 == c0
    requires |c2| == Off(enc, n - 1) && c2 == c1[..|c2|]
    ensures var s := Elements(c0, enc, n);
            && Elements(c2, enc, n - 1)[k] == (s[..pos] + s[pos + 1..])[k]
            && Fits((s[..pos] + s[pos + 1..])[k], enc)
  {
    hide Off, Read, Write, Elements, Moved, Fits;
    var j := if k < pos then k else k + 1;
    ElementAt(c2, enc, n - 1, k);
    ReadPrefix(c2, c1, enc, |c2|, k);
    if pos < n - 1 { MovedElements(c0, enc, n, pos + 1, pos, k); }
    ElementAt(c0, enc, n, j);
    ElementFits(c0, enc, n, j);
  }

  // ---------------------------------------------------------------------
  // Whole runs

  datatype Op = Insert(value: Int64) | Drop(value: Int64) | Query(value: Int64)

  /** What one operation does to a plain set, and what it answers. */
  ghost function Apply(op: Op, s: set<int>): set<int>
  {
    match op
    case Insert(v) => s + {v}
    case Drop(v) => s - {v}
    case Query(_) => s
  }

  ghost function Answer(op: Op, s: set<int>): bool
  {
    if op.Insert? then op.value !in s else op.value in s
  }

  /** The plain set after a run. */
  ghost function SetAfter(ops: seq<Op>, s: set<int>): set<int>
  {
    if ops == [] then s else Apply(ops[|ops| - 1], SetAfter(ops[..|ops| - 1], s))
  }

  method Perform(obj: IntegerSet, op: Op) returns (reply: bool)
    requires obj.Valid()
    modifies obj
    ensures obj.Valid() && Members(obj.Items()) == Apply(op, old(Members(obj.Items())))
    ensures reply == Answer(op, old(Members(obj.Items())))
  {
    hide Members, Sorted, Fits, Elements;
    match op {
      case Insert(v) => reply := obj.Add(v);
      case Drop(v) => reply := obj.Remove(v);
      case Query(v) => reply := obj.Find(v);
    }
  }

  /** Every run of additions, removals and queries behaves as on a mathematical set. */
  method Run(obj: IntegerSet, ops: seq<Op>) returns (replies: seq<bool>)
    requires obj.Valid()
    modifies obj
    ensures obj.Valid() && Members(obj.Items()) == SetAfter(ops, old(Members(obj.Items())))
    ensures |replies| == |ops|
    ensures forall i :: 0 <= i < |ops| ==> replies[i] == Answer(ops[i], SetAfter(ops[..i], old(Members(obj.Items()))))
  {
    hide Members, Sorted, Fits, Elements, Apply, Answer;
    replies := [];
    ghost var s0 := Members(obj.Items());
    var k := 0;
    assert ops[..0] == [];
    while k < |ops|
      invariant k <= |ops| && |replies| == k && obj.Valid()
      invariant Members(obj.Items()) == SetAfter(ops[..k], s0)
      invariant forall i :: 0 <= i < k ==> replies[i] == Answer(ops[i], SetAfter(ops[..i], s0))
    {
      var reply := Perform(obj, ops[k]);
      assert ops[..k + 1][..k] == ops[..k] && ops[..k + 1][k] == ops[k];
      replies := replies + [reply];
      k := k + 1;
    }
    assert ops[..k] == ops;
  }
}
