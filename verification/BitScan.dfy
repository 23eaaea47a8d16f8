/**
  redisBitpos (bitops.c): the first set or clear bit, looked for a word at a time. `size` is
  sizeof(unsigned long), of which nothing is assumed but that it is positive.
 */
module BitScan {
  import opened Basics
  import opened Words
  import opened BitStrings

  // ---------------------------------------------------------------------
  // Bytes to words

  /** The number written by a row of bytes, the first one most significant. */
  function Word(bs: seq<Byte>): nat
  {
    if bs == [] then 0 else var last: nat := bs[|bs| - 1]; 256 * Word(bs[..|bs| - 1]) + last
  }

  lemma {:induction false} HiLoSplit(x: nat, k: nat)
    ensures x == Pow2(k) * Hi(x, k) + Lo(x, k)
    decreases k
  {
    if k > 0 {
      HiLoSplit(x / 2, k - 1);
      var product := Pow2(k - 1) * Hi(x / 2, k - 1);
      Twice(Pow2(k - 1), Hi(x / 2, k - 1));
      assert Pow2(k) * Hi(x, k) == 2 * product;
      assert x == 2 * (x / 2) + x % 2;
    } else {
      assert Pow2(0) * Hi(x, 0) == x;
    }
  }

  lemma Twice(p: nat, h: nat)
    ensures (2 * p) * h == 2 * (p * h)
  {
  }

  /** Taking the last byte off a number. */
  lemma LastByte(x: nat, y: nat, b: nat)
    requires x == 256 * y + b && b < 256
    ensures Hi(x, 8) == y && Lo(x, 8) == b
  {
    hide Hi, Lo, Pow2;
    HiLoSplit(x, 8);
    Pow2Plus8(0);
    Pow2Zero();
  }

  lemma Pow2Zero()
    ensures Pow2(0) == 1 && Pow2(1) == 2
  {
  }

  lemma BitOfPair(x: nat, y: nat, b: nat, j: nat)
    requires x == 256 * y + b && b < 256
    ensures Bit(x, j) == if j < 8 then Bit(b, j) else Bit(y, j - 8)
  {
    hide Hi, Lo, Bit;
    LastByte(x, y, b);
    if j < 8 { BitLo(8, x, j); } else { BitHi(x, 8, j - 8); }
  }

  lemma {:induction false} WordBound(bs: seq<Byte>)
    ensures Word(bs) < Pow2(8 * |bs|)
  {
    hide Pow2;
    if bs == [] {
      Pow2Zero();
    } else {
      WordBound(bs[..|bs| - 1]);
      Pow2Plus8(8 * (|bs| - 1));
    }
  }

  /** Bit i of the word from the left is bit i of the bytes. */
  lemma {:induction false} WordBit(bs: seq<Byte>, i: nat)
    requires i < 8 * |bs|
    ensures Bit(Word(bs), 8 * |bs| - 1 - i) == Bit(bs[i / 8], 7 - i % 8)
  {
    hide Bit;
    var n: nat := |bs| - 1;
    var last: nat := bs[n];
    BitOfPair(Word(bs), Word(bs[..n]), last, 8 * |bs| - 1 - i);
    if i < 8 * n {
      WordBit(bs[..n], i);
      assert i / 8 < n && bs[..n][i / 8] == bs[i / 8];
    } else {
      assert i / 8 == n && i % 8 == i - 8 * n;
    }
  }

  /** A number with all bits equal is zero or all ones. */
  lemma {:induction false} AllBits(x: nat, w: nat, v: nat)
    requires x < Pow2(w) && forall k :: 0 <= k < w ==> Bit(x, k) == v
    ensures v == 0 ==> x == 0
    ensures v == 1 ==> x == Pow2(w) - 1
    decreases w
  {
    if w > 0 {
      forall k | 0 <= k < w - 1 ensures Bit(x / 2, k) == v {
        assert Bit(x, k + 1) == v;
      }
      assert Bit(x, 0) == v;
      AllBits(x / 2, w - 1, v);
    }
  }

  lemma {:induction false} AndPow2(w: nat, k: nat, x: nat)
    requires k < w
    ensures And(w, Pow2(k), x) != 0 <==> Bit(x, k) == 1
    decreases k
  {
    if k > 0 {
      AndPow2(w - 1, k - 1, x / 2);
    } else {
      AndZero(w - 1, x / 2);
    }
  }

  /** ~(ULONG_MAX >> 1) has the most significant bit only. */
  lemma TopBit(w: nat)
    requires w > 0
    ensures (Pow2(w) - 1) / 2 == Pow2(w - 1) - 1 && Not(w, Pow2(w - 1) - 1) == Pow2(w - 1)
  {
    hide Hi, Lo, Not;
    var x := Not(w, Pow2(w - 1) - 1);
    NotMask(w, w - 1);
    HiLoSplit(x, w - 1);
    assert Hi(x, w - 1) == 1;
  }

  // ---------------------------------------------------------------------
  // Loading with zero padding

  function Padded(s: seq<Byte>, c: nat, n: nat): (r: seq<Byte>)
    ensures |r| == n
  {
    seq(n, k requires 0 <= k < n => if c + k < |s| then s[c + k] else 0)
  }

  /** word = (word << 8) | byte */
  lemma ShiftIn(y: nat, b: nat, w: nat)
    requires w >= 8 && b < 256 && y < Pow2(w - 8)
    ensures Or(w, Shl(w, y, 8), b) == 256 * y + b && Shl(w, y, 8) == 256 * y
  {
    hide Or, Hi, Lo, Pow2, Shl;
    ShiftEight(y, w);
    var x: nat := 256 * y;
    LastByte(x, y, 0);
    LastByte(b, 0, b);
    OrSplit(w, x, b, 8);
    assert Lo(Or(w, x, b), 8) == b by { LowOr(x, b); }
    assert Hi(Or(w, x, b), 8) == y by { HighOr(y, w - 8); }
    FromHiLo(Or(w, x, b));
  }

  lemma LowOr(x: nat, b: nat)
    requires Lo(x, 8) == 0 && Lo(b, 8) == b
    ensures Or(8, x, b) == b
  {
    hide Or, Lo;
    ReadsLow(8, x, b);
    Units(8, b);
  }

  lemma HighOr(y: nat, w: nat)
    requires y < Pow2(w)
    ensures Or(w, y, 0) == y
  {
    hide Or, Lo, Pow2;
    Units(w, y);
    LoId(y, w);
  }

  lemma FromHiLo(x: nat)
    ensures x == 256 * Hi(x, 8) + Lo(x, 8)
  {
    hide Hi, Lo, Pow2;
    HiLoSplit(x, 8);
    Pow2Plus8(0);
    Pow2Zero();
  }

  lemma ShiftEight(y: nat, w: nat)
    requires w >= 8 && y < Pow2(w - 8)
    ensures Shl(w, y, 8) == 256 * y
  {
    hide Lo, Pow2;
    assert Shl(w, y, 8) == Shl(w, 2 * y, 7) == Shl(w, 2 * (2 * y), 6);
    assert Shl(w, 4 * y, 6) == Shl(w, 8 * y, 5) == Shl(w, 16 * y, 4);
    assert Shl(w, 16 * y, 4) == Shl(w, 32 * y, 3) == Shl(w, 64 * y, 2);
    assert Shl(w, 64 * y, 2) == Shl(w, 128 * y, 1) == Shl(w, 256 * y, 0);
    LoId(256 * y, w);
    Pow2Plus8(w - 8);
  }

  lemma Pow2Plus8(k: nat)
    ensures Pow2(k + 8) == 256 * Pow2(k)
  {
    assert Pow2(k + 2) == 2 * Pow2(k + 1) == 4 * Pow2(k);
    assert Pow2(k + 4) == 2 * Pow2(k + 3) == 4 * Pow2(k + 2);
    assert Pow2(k + 6) == 2 * Pow2(k + 5) == 4 * Pow2(k + 4);
    assert Pow2(k + 8) == 2 * Pow2(k + 7) == 4 * Pow2(k + 6);
  }

  /** The loading loop. */
  method LoadWord(s: seq<Byte>, start: nat, size: nat) returns (word: nat)
    requires start <= |s|
    ensures word == Word(Padded(s, start, size)) < Pow2(8 * size)
  {
    hide Or, Shl, Pow2;
    word := 0;
    var c := start;
    var j := 0;
    Pow2Zero();
    while j < size
      invariant j <= size && c == (if start + j < |s| then start + j else |s|)
      invariant word == Word(Padded(s, start, j)) < Pow2(8 * j)
    {
      var before := Padded(s, start, j);
      var after := Padded(s, start, j + 1);
      assert after[..j] == before;
      Pow2Mono(8 * j, 8 * size - 8);
      ShiftIn(word, 0, 8 * size);
      WordBound(after);
      word := Shl(8 * size, word, 8);
      if c < |s| {
        ShiftIn(Word(before), s[c], 8 * size);
        word := Or(8 * size, word, s[c]);
        c := c + 1;
      }
      j := j + 1;
    }
  }

  // ---------------------------------------------------------------------
  // Searching

  /** No bit before p has the value looked for. */
  ghost predicate NoneBefore(s: seq<Byte>, bit: bool, p: nat)
  {
    forall q: nat :: q < p ==> BitOf(s, q) != bit
  }

  /** The position is that of the first such bit, or -1 when there is none. */
  ghost predicate IsFirst(s: seq<Byte>, bit: bool, pos: int)
  {
    if pos >= 0 then BitOf(s, pos) == bit && NoneBefore(s, bit, pos)
    else pos == -1 && forall q: nat :: BitOf(s, q) != bit
  }

  lemma {:induction false} ByteOfEqualBits(v: nat, b: nat, i: nat)
    requires (v == 0 && b == 0) || (v == 1 && b == 255)
    requires i < 8
    ensures Bit(b, i) == v
  {
    if v == 0 { ZeroBits(i); } else { BitOnes(8, i); Pow2Plus8(0); Pow2Zero(); }
  }

  lemma {:induction false} ZeroBits(i: nat)
    ensures Bit(0, i) == 0
  {
    if i > 0 { ZeroBits(i - 1); }
  }

  /** A byte of skipped bits moves the search on by eight. */
  lemma SkipByte(s: seq<Byte>, bit: bool, c: nat)
    requires c < |s| && s[c] == (if bit then 0 else 255) && NoneBefore(s, bit, 8 * c)
    ensures NoneBefore(s, bit, 8 * (c + 1))
  {
    hide Bit;
    forall q: nat | q < 8 * (c + 1) ensures BitOf(s, q) != bit {
      if q >= 8 * c {
        assert q / 8 == c;
        ByteOfEqualBits(if bit then 0 else 1, s[c], 7 - q % 8);
      }
    }
  }

  /** A word of skipped bits moves the search on by its width. */
  lemma SkipWord(s: seq<Byte>, bit: bool, c: nat, size: nat)
    requires c + size <= |s| && NoneBefore(s, bit, 8 * c)
    requires Word(s[c..c + size]) == if bit then 0 else Pow2(8 * size) - 1
    ensures NoneBefore(s, bit, 8 * (c + size))
  {
    hide Bit, Word, Pow2;
    forall q: nat | q < 8 * (c + size) ensures BitOf(s, q) != bit {
      if q >= 8 * c {
        var i: nat := q - 8 * c;
        WordBit(s[c..c + size], i);
        assert q / 8 == c + i / 8 && q % 8 == i % 8;
        assert s[c..c + size][i / 8] == s[q / 8];
        ZeroBits(8 * size - 1 - i);
        BitOnes(8 * size, 8 * size - 1 - i);
      }
    }
  }

  /** A word that is not skipped holds the bit looked for. */
  lemma NotSkipped(word: nat, bit: bool, w: nat)
    requires word < Pow2(w) && word != if bit then 0 else Pow2(w) - 1
    ensures exists k :: 0 <= k < w && (Bit(word, k) == 1) == bit
  {
    hide Bit, Pow2;
    if forall k :: 0 <= k < w ==> (Bit(word, k) == 1) != bit {
      AllBits(word, w, if bit then 0 else 1);
    }
  }

  lemma PaddedBit(s: seq<Byte>, c: nat, size: nat, i: nat)
    requires i < 8 * size
    ensures Bit(Word(Padded(s, c, size)), 8 * size - 1 - i) == 1 <==> BitOf(s, 8 * c + i)
  {
    hide Bit, Word;
    WordBit(Padded(s, c, size), i);
    assert (8 * c + i) / 8 == c + i / 8 && (8 * c + i) % 8 == i % 8;
    ZeroBits(7 - i % 8);
  }

  /** What is left after the skipping loops cannot be all skipped bits, unless no bit is set. */
  lemma LeftOver(s: seq<Byte>, bit: bool, c: nat, size: nat, word: nat)
    requires c <= |s| && size > 0 && word == Word(Padded(s, c, size)) < Pow2(8 * size)
    requires |s| - c >= size ==> Word(s[c..c + size]) != if bit then 0 else Pow2(8 * size) - 1
    ensures word == (if bit then 0 else Pow2(8 * size) - 1) ==> bit && |s| - c < size
  {
    hide Bit, Word, Pow2;
    if |s| - c >= size {
      assert Padded(s, c, size) == s[c..c + size];
    } else {
      PaddedBit(s, c, size, 8 * (size - 1));
      BitOnes(8 * size, 7);
      assert !BitOf(s, 8 * c + 8 * (size - 1));
    }
  }

  /** redisBitpos; `address` is where the string lies in memory. */
  method BitPos(s: seq<Byte>, bit: bool, address: nat, size: nat) returns (pos: int)
    requires size > 0
    ensures IsFirst(s, bit, pos)
    ensures !bit ==> 0 <= pos <= 8 * |s|
    ensures pos < 8 * |s| || !bit
  {
    hide Bit, BitOf, Word, Pow2, Padded, NoneBefore, And, Not;
    var c := 0;
    NoneAtStart(s, bit);
    while (address + c) % size != 0 && c < |s|
      invariant c <= |s| && NoneBefore(s, bit, 8 * c)
      decreases |s| - c
    {
      if s[c] != (if bit then 0 else 255) { break; }
      SkipByte(s, bit, c);
      c := c + 1;
    }
    var skipval := if bit then 0 else Pow2(8 * size) - 1;
    while |s| - c >= size
      invariant c <= |s| && NoneBefore(s, bit, 8 * c)
      decreases |s| - c
    {
      if Word(s[c..c + size]) != skipval { break; }
      SkipWord(s, bit, c, size);
      c := c + size;
    }
    pos := 8 * c;
    var word := LoadWord(s, c, size);
    LeftOver(s, bit, c, size, word);
    if bit && word == 0 {
      NoneSet(s, c, size);
      return -1;
    }
    pos := ScanWord(s, bit, c, size, word);
    FirstIsInRange(s, bit, pos);
  }

  /** The bit loop over the last word. */
  method ScanWord(s: seq<Byte>, bit: bool, c: nat, size: nat, word: nat) returns (pos: int)
    requires size > 0 && word == Word(Padded(s, c, size)) < Pow2(8 * size)
    requires word != (if bit then 0 else Pow2(8 * size) - 1) && NoneBefore(s, bit, 8 * c)
    ensures pos >= 0 && IsFirst(s, bit, pos)
  {
    hide Bit, BitOf, Word, Pow2, Padded, NoneBefore, And, Not;
    var w := 8 * size;
    pos := 8 * c;
    TopBit(w);
    var one := Pow2(w) - 1;
    one := one / 2;
    one := Not(w, one);
    ghost var i := 0;
    while one != 0
      invariant 0 <= i <= w && pos == 8 * c + i
      invariant one == if i < w then Pow2(w - 1 - i) else 0
      invariant NoneBefore(s, bit, pos)
      invariant forall k :: w - i <= k < w ==> (Bit(word, k) == 1) != bit
      decreases w - i
    {
      AndPow2(w, w - 1 - i, word);
      PaddedBit(s, c, size, i);
      if (And(w, one, word) != 0) == bit { return; }
      NoneYet(s, bit, pos);
      HalvePow2(w - 1 - i);
      pos := pos + 1;
      one := one / 2;
      i := i + 1;
    }
    Pow2Zero();
    NotSkipped(word, bit, w);
    assert false;  // the panic at the end of the function
  }

  lemma NoneAtStart(s: seq<Byte>, bit: bool)
    ensures NoneBefore(s, bit, 0)
  {
  }

  lemma NoneYet(s: seq<Byte>, bit: bool, pos: nat)
    requires NoneBefore(s, bit, pos) && BitOf(s, pos) != bit
    ensures NoneBefore(s, bit, pos + 1)
  {
    hide BitOf;
  }

  lemma HalvePow2(k: nat)
    ensures Pow2(k) / 2 == if k == 0 then 0 else Pow2(k - 1)
  {
  }

  /** A zero word at the end of the string, after skipped zeros: no bit is set. */
  lemma NoneSet(s: seq<Byte>, c: nat, size: nat)
    requires size > 0 && |s| - c < size && Word(Padded(s, c, size)) == 0 && NoneBefore(s, true, 8 * c)
    ensures forall q: nat :: !BitOf(s, q)
  {
    hide Bit, Word, Padded;
    forall q: nat ensures !BitOf(s, q) {
      if 8 * c <= q < 8 * (c + size) {
        PaddedBit(s, c, size, q - 8 * c);
        ZeroBits(8 * size - 1 - (q - 8 * c));
      }
    }
  }

  lemma FirstIsInRange(s: seq<Byte>, bit: bool, pos: nat)
    requires BitOf(s, pos) == bit && NoneBefore(s, bit, pos)
    ensures if bit then pos < 8 * |s| else pos <= 8 * |s|
  {
    hide Bit;
    assert !BitOf(s, 8 * |s|);
  }
}
