/**
  BITOP (bitops.c): the bitwise AND, OR, XOR or NOT of strings of any lengths, four machine words
  at a time as long as all of them have data. `size` is sizeof(unsigned long).
 */
module BitCombine {
  import opened Basics
  import opened Words
  import opened BitStrings
  import opened BitScan

  datatype Op = AND | OR | XOR | NOT

  // ---------------------------------------------------------------------
  // The definition: byte by byte over zero-extended strings

  /** `a op b` on words of w bits; NOT only looks at a. */
  function Combine(op: Op, w: nat, a: nat, b: nat): (r: nat)
    ensures r < Pow2(w)
  {
    match op
    case AND => And(w, a, b)
    case OR => Or(w, a, b)
    case XOR => Xor(w, a, b)
    case NOT => Not(w, a)
  }

  function CombineBytes(op: Op, a: Byte, b: Byte): Byte
  {
    Pow2Plus8(0);
    Pow2Zero();
    Combine(op, 8, a, b)
  }

  function Pad(s: seq<Byte>, j: nat): Byte { if j < |s| then s[j] else 0 }

  /** Byte j of the first n strings folded together. */
  function Fold(op: Op, srcs: seq<seq<Byte>>, j: nat, n: nat): Byte
    requires 0 < n <= |srcs|
  {
    if n == 1 then Pad(srcs[0], j) else CombineBytes(op, Fold(op, srcs, j, n - 1), Pad(srcs[n - 1], j))
  }

  function ResultByte(op: Op, srcs: seq<seq<Byte>>, j: nat): Byte
    requires |srcs| > 0
  {
    if op == NOT then CombineBytes(NOT, Pad(srcs[0], j), 0) else Fold(op, srcs, j, |srcs|)
  }

  function MaxLen(srcs: seq<seq<Byte>>): nat
  {
    if srcs == [] then 0
    else
      var m, l := MaxLen(srcs[..|srcs| - 1]), |srcs[|srcs| - 1]|;
      if l > m then l else m
  }

  // ---------------------------------------------------------------------
  // Words of bytes

  /** The bytes of a word, most significant first. */
  function Unload(w: nat, n: nat): (r: seq<Byte>)
    ensures |r| == n
    decreases n
  {
    if n == 0 then [] else Unload(w / 256, n - 1) + [w % 256]
  }

  /** The operators split at a byte boundary. */
  lemma CombineSplit(op: Op, w: nat, x: nat, y: nat, a: nat, b: nat)
    requires a < 256 && b < 256
    ensures Combine(op, w + 8, 256 * x + a, 256 * y + b) == 256 * Combine(op, w, x, y) + Combine(op, 8, a, b)
  {
    hide And, Or, Xor, Not, Hi, Lo, Pow2, Combine;
    var p, q := 256 * x + a, 256 * y + b;
    LastByte(p, x, a);
    LastByte(q, y, b);
    LastByte(a, 0, a);
    LastByte(b, 0, b);
    var r := Combine(op, w + 8, p, q);
    FromHiLo(r);
    CombineHiLo(op, w, p, q);
    CombineLow(op, p, q);
  }

  lemma CombineHiLo(op: Op, w: nat, p: nat, q: nat)
    ensures var r := Combine(op, w + 8, p, q);
            Lo(r, 8) == Combine(op, 8, p, q) && Hi(r, 8) == Combine(op, w, Hi(p, 8), Hi(q, 8))
  {
    hide And, Or, Xor, Not, Hi, Lo, Pow2;
    match op
    case AND => AndSplit(w + 8, p, q, 8);
    case OR => OrSplit(w + 8, p, q, 8);
    case XOR => XorSplit(w + 8, p, q, 8);
    case NOT => NotSplit(w + 8, p, 8);
  }

  lemma CombineLow(op: Op, p: nat, q: nat)
    ensures Combine(op, 8, p, q) == Combine(op, 8, Lo(p, 8), Lo(q, 8))
  {
    hide And, Or, Xor, Not, Lo, Pow2;
    ReadsLow(8, p, q);
    XorReadsLow(8, p, q);
  }

  lemma {:induction false} XorReadsLow(w: nat, a: nat, b: nat)
    ensures Xor(w, Lo(a, w), Lo(b, w)) == Xor(w, a, b)
    decreases w
  {
    hide Xor, Lo;
    if w == 0 {
      NoBits(a, b);
      NoBits(Lo(a, 0), Lo(b, 0));
    } else {
      HiLoStep(a, w);
      HiLoStep(b, w);
      Halve(Lo(a, w), Lo(a / 2, w - 1), a % 2);
      Halve(Lo(b, w), Lo(b / 2, w - 1), b % 2);
      XorHalf(w, a, b);
      XorHalf(w, Lo(a, w), Lo(b, w));
      XorReadsLow(w - 1, a / 2, b / 2);
    }
  }

  /** A word operation is the operation on each of its bytes. */
  lemma {:induction false} WordIsBytes(op: Op, xs: seq<Byte>, ys: seq<Byte>, k: nat)
    requires |xs| == |ys| && k < |xs|
    ensures Unload(Combine(op, 8 * |xs|, Word(xs), Word(ys)), |xs|)[k] == CombineBytes(op, xs[k], ys[k])
  {
    hide Combine, Pow2;
    var n: nat := |xs| - 1;
    var a: nat, b: nat := xs[n], ys[n];
    CombineSplit(op, 8 * n, Word(xs[..n]), Word(ys[..n]), a, b);
    ByteRange(op, a, b);
    if k < n { WordIsBytes(op, xs[..n], ys[..n], k); }
  }

  lemma ByteRange(op: Op, a: nat, b: nat)
    ensures Combine(op, 8, a, b) < 256
  {
    hide Combine, Pow2;
    Pow2Plus8(0);
    Pow2Zero();
  }

  // ---------------------------------------------------------------------
  // The command

  /** What a key holds. */
  datatype Key = Missing | Str(value: seq<Byte>) | WrongType

  datatype Reply = Failed | Emptied | Stored(value: seq<Byte>)

  function Source(k: Key): seq<Byte> { if k.Str? then k.value else [] }

  function Sources(keys: seq<Key>): (r: seq<seq<Byte>>)
    ensures |r| == |keys|
  {
    seq(|keys|, i requires 0 <= i < |keys| => Source(keys[i]))
  }

  /** One word of the result combined in place with a word of a source (lres[i] op= lp[i]). */
  method CombineWord(op: Op, res: array<Byte>, off: nat, src: seq<Byte>, size: nat)
    requires off + size <= res.Length && off + size <= |src|
    modifies res
    ensures forall k :: 0 <= k < res.Length ==>
              res[k] == if off <= k < off + size then CombineBytes(op, old(res[k]), src[k]) else old(res[k])
  {
    hide CombineBytes, Combine, Unload, Word;
    var x, y := res[off..off + size], src[off..off + size];
    var out := Unload(Combine(op, 8 * size, Word(x), Word(y)), size);
    forall k | 0 <= k < size ensures out[k] == CombineBytes(op, res[off + k], src[off + k]) {
      WordIsBytes(op, x, y, k);
    }
    var i := 0;
    while i < size
      invariant i <= size
      invariant forall k :: 0 <= k < res.Length ==>
                  res[k] == if off <= k < off + i then out[k - off] else old(res[k])
    {
      res[off + i] := out[i];
      i := i + 1;
    }
  }

  /** Four words. */
  method CombineFour(op: Op, res: array<Byte>, off: nat, src: seq<Byte>, size: nat)
    requires off + 4 * size <= res.Length && off + 4 * size <= |src|
    modifies res
    ensures forall k :: 0 <= k < res.Length ==>
              res[k] == if off <= k < off + 4 * size then CombineBytes(op, old(res[k]), src[k]) else old(res[k])
  {
    hide CombineBytes;
    CombineWord(op, res, off, src, size);
    CombineWord(op, res, off + size, src, size);
    CombineWord(op, res, off + 2 * size, src, size);
    CombineWord(op, res, off + 3 * size, src, size);
  }

  ghost predicate AllAtLeast(srcs: seq<seq<Byte>>, m: nat)
  {
    forall i :: 0 <= i < |srcs| ==> |srcs[i]| >= m
  }

  /** The fast path: whole blocks of four words while all sources have data. */
  method FastPath(op: Op, srcs: seq<seq<Byte>>, res: array<Byte>, minlen: nat, size: nat) returns (j: nat)
    requires size > 0 && |srcs| > 0 && minlen <= res.Length && AllAtLeast(srcs, minlen)
    requires op == NOT ==> |srcs| == 1
    modifies res
    ensures j <= minlen && forall k :: 0 <= k < j ==> res[k] == ResultByte(op, srcs, k)
  {
    hide CombineBytes, Fold, ResultByte;
    j := 0;
    while j < minlen
      invariant 0 <= j <= minlen && forall k :: 0 <= k < j ==> res[k] == srcs[0][k]
    {
      res[j] := srcs[0][j];
      j := j + 1;
    }
    j := 0;
    while minlen - j >= 4 * size
      invariant 0 <= j <= minlen
      invariant forall k :: 0 <= k < j ==> res[k] == ResultByte(op, srcs, k)
      invariant forall k :: j <= k < minlen ==> res[k] == srcs[0][k]
    {
      if op == NOT {
        CombineFour(NOT, res, j, srcs[0], size);
        forall k | j <= k < j + 4 * size ensures res[k] == ResultByte(op, srcs, k) {
          NotByte(srcs, k, srcs[0][k]);
        }
      } else {
        var i := 1;
        forall k | j <= k < minlen ensures srcs[0][k] == Fold(op, srcs, k, 1) { FoldOne(op, srcs, k); }
        while i < |srcs|
          invariant 1 <= i <= |srcs|
          invariant forall k :: 0 <= k < j ==> res[k] == ResultByte(op, srcs, k)
          invariant forall k :: j <= k < j + 4 * size ==> res[k] == Fold(op, srcs, k, i)
          invariant forall k :: j + 4 * size <= k < minlen ==> res[k] == srcs[0][k]
        {
          CombineFour(op, res, j, srcs[i], size);
          forall k | j <= k < j + 4 * size
            ensures Fold(op, srcs, k, i + 1) == CombineBytes(op, Fold(op, srcs, k, i), srcs[i][k])
          {
            FoldMore(op, srcs, k, i);
          }
          i := i + 1;
        }
        forall k | j <= k < j + 4 * size ensures res[k] == ResultByte(op, srcs, k) { FoldAll(op, srcs, k); }
      }
      j := j + 4 * size;
    }
  }

  lemma FoldOne(op: Op, srcs: seq<seq<Byte>>, k: nat)
    requires |srcs| > 0
    ensures Fold(op, srcs, k, 1) == Pad(srcs[0], k)
  {
  }

  lemma FoldMore(op: Op, srcs: seq<seq<Byte>>, k: nat, i: nat)
    requires 0 < i < |srcs|
    ensures Fold(op, srcs, k, i + 1) == CombineBytes(op, Fold(op, srcs, k, i), Pad(srcs[i], k))
  {
  }

  lemma FoldAll(op: Op, srcs: seq<seq<Byte>>, k: nat)
    requires |srcs| > 0
    ensures ResultByte(op, srcs, k) == if op == NOT then CombineBytes(NOT, Pad(srcs[0], k), 0) else Fold(op, srcs, k, |srcs|)
  {
  }

  lemma NotByte(srcs: seq<seq<Byte>>, k: nat, b: Byte)
    requires |srcs| > 0 && k < |srcs[0]|
    ensures ResultByte(NOT, srcs, k) == CombineBytes(NOT, srcs[0][k], b)
  {
  }

  /** The byte loop for what the fast path left. */
  method SlowPath(op: Op, srcs: seq<seq<Byte>>, res: array<Byte>, from: nat)
    requires |srcs| > 0 && from <= res.Length && (op == NOT ==> |srcs| == 1)
    requires forall k :: 0 <= k < from ==> res[k] == ResultByte(op, srcs, k)
    modifies res
    ensures forall k :: 0 <= k < res.Length ==> res[k] == ResultByte(op, srcs, k)
  {
    hide CombineBytes, Fold, ResultByte;
    var j := from;
    while j < res.Length
      invariant from <= j <= res.Length && forall k :: 0 <= k < j ==> res[k] == ResultByte(op, srcs, k)
    {
      var output := if |srcs[0]| <= j then 0 else srcs[0][j];
      FoldOne(op, srcs, j);
      FoldAll(op, srcs, j);
      if op == NOT { output := CombineBytes(NOT, output, 0); }
      var i := 1;
      while i < |srcs|
        invariant 1 <= i <= |srcs| && forall k :: 0 <= k < j ==> res[k] == ResultByte(op, srcs, k)
        invariant output == if op == NOT then CombineBytes(NOT, Pad(srcs[0], j), 0) else Fold(op, srcs, j, i)
      {
        var byte := if |srcs[i]| <= j then 0 else srcs[i][j];
        FoldMore(op, srcs, j, i);
        output := CombineBytes(op, output, byte);
        i := i + 1;
      }
      assert output == ResultByte(op, srcs, j);
      res[j] := output;
      j := j + 1;
    }
  }

  /** The lookup loop: the strings, and their greatest and least lengths. */
  method LookUp(keys: seq<Key>) returns (failed: bool, srcs: seq<seq<Byte>>, maxlen: nat, minlen: nat)
    ensures failed <==> WrongType in keys
    ensures !failed ==> srcs == Sources(keys) && maxlen == MaxLen(srcs) && minlen <= maxlen && AllAtLeast(srcs, minlen)
  {
    hide MaxLen, AllAtLeast;
    failed, srcs, maxlen, minlen := false, [], 0, 0;
    NoStrings();
    var j := 0;
    while j < |keys|
      invariant j <= |keys| && |srcs| == j && WrongType !in keys[..j] && !failed
      invariant forall i :: 0 <= i < j ==> srcs[i] == Source(keys[i])
      invariant maxlen == MaxLen(srcs) && minlen <= maxlen && AllAtLeast(srcs, minlen)
    {
      assert keys[..j + 1] == keys[..j] + [keys[j]];
      var k := keys[j];
      if k.WrongType? {
        failed := true;
        return;
      }
      MoreStrings(srcs, Source(k), minlen);
      srcs := srcs + [Source(k)];
      if k.Missing? {
        minlen := 0;
      } else {
        var len := |k.value|;
        if len > maxlen { maxlen := len; }
        if j == 0 || len < minlen { minlen := len; }
      }
      j := j + 1;
    }
    assert keys[..j] == keys;
    assert srcs == Sources(keys);
  }

  lemma NoStrings()
    ensures MaxLen([]) == 0 && AllAtLeast([], 0)
  {
  }

  lemma MoreStrings(srcs: seq<seq<Byte>>, s: seq<Byte>, m: nat)
    requires AllAtLeast(srcs, m)
    ensures MaxLen(srcs + [s]) == if |s| > MaxLen(srcs) then |s| else MaxLen(srcs)
    ensures AllAtLeast(srcs + [s], 0) && AllAtLeast(srcs + [s], if |s| < m then |s| else m)
    ensures srcs == [] ==> AllAtLeast(srcs + [s], |s|)
  {
    assert (srcs + [s])[..|srcs|] == srcs;
  }

  /** bitopCommand from the operation on. */
  method Bitop(op: Op, keys: seq<Key>, size: nat) returns (reply: Reply)
    requires size > 0 && |keys| > 0
    ensures reply.Failed? <==> (op == NOT && |keys| != 1) || WrongType in keys
    ensures reply.Emptied? ==> MaxLen(Sources(keys)) == 0
    ensures reply.Stored? ==> MaxLen(Sources(keys)) == |reply.value| > 0
                              && forall j :: 0 <= j < |reply.value| ==> reply.value[j] == ResultByte(op, Sources(keys), j)
  {
    hide ResultByte;
    if op == NOT && |keys| != 1 { return Failed; }
    var failed, srcs, maxlen, minlen := LookUp(keys);
    if failed { return Failed; }
    if maxlen == 0 { return Emptied; }
    var res := new Byte[maxlen](_ => 0);
    var done := 0;
    if minlen >= 4 * size && |srcs| <= 16 {
      done := FastPath(op, srcs, res, minlen, size);
    }
    SlowPath(op, srcs, res, done);
    return Stored(res[..]);
  }

  // ---------------------------------------------------------------------
  // What the result means, bit by bit

  lemma BitOfCombine(op: Op, w: nat, a: nat, b: nat, i: nat)
    requires i < w
    ensures Bit(Combine(op, w, a, b), i) == 1 <==>
            match op
            case AND => Bit(a, i) == 1 && Bit(b, i) == 1
            case OR => Bit(a, i) == 1 || Bit(b, i) == 1
            case XOR => Bit(a, i) != Bit(b, i)
            case NOT => Bit(a, i) == 0
  {
    hide Bit, And, Or, Xor, Not;
    BitOps(w, a, b, i);
  }

  /** How many of the first n strings have bit p set. */
  ghost function HowMany(srcs: seq<seq<Byte>>, p: nat, n: nat): nat
    requires n <= |srcs|
  {
    if n == 0 then 0 else HowMany(srcs, p, n - 1) + B2N(BitOf(srcs[n - 1], p))
  }

  lemma PadBit(s: seq<Byte>, p: nat)
    ensures Bit(Pad(s, p / 8), 7 - p % 8) == 1 <==> BitOf(s, p)
  {
    hide Bit;
    ZeroBits(7 - p % 8);
  }

  lemma {:induction false} FoldBit(op: Op, srcs: seq<seq<Byte>>, p: nat, n: nat)
    requires 0 < n <= |srcs| && op != NOT
    ensures Bit(Fold(op, srcs, p / 8, n), 7 - p % 8) == 1 <==>
            match op
            case AND => HowMany(srcs, p, n) == n
            case OR => HowMany(srcs, p, n) > 0
            case XOR => HowMany(srcs, p, n) % 2 == 1
            case NOT => true
  {
    hide Bit, BitOf, Combine;
    AtMost(srcs, p, n - 1);
    PadBit(srcs[n - 1], p);
    if n == 1 {
      assert HowMany(srcs, p, 1) == HowMany(srcs, p, 0) + B2N(BitOf(srcs[0], p));
    } else {
      FoldBit(op, srcs, p, n - 1);
      BitOfCombine(op, 8, Fold(op, srcs, p / 8, n - 1), Pad(srcs[n - 1], p / 8), 7 - p % 8);
    }
  }

  lemma {:induction false} AtMost(srcs: seq<seq<Byte>>, p: nat, n: nat)
    requires n <= |srcs|
    ensures HowMany(srcs, p, n) <= n
  {
    hide BitOf;
    if n > 0 { AtMost(srcs, p, n - 1); }
  }

  /**
    Every bit of the stored string: set in all strings, in some, in an odd number of them, or not
    set in the only one, each string being zero padded to the longest.
   */
  lemma ResultBits(op: Op, srcs: seq<seq<Byte>>, r: seq<Byte>, p: nat)
    requires |srcs| > 0 && (op == NOT ==> |srcs| == 1) && p < 8 * |r|
    requires forall j :: 0 <= j < |r| ==> r[j] == ResultByte(op, srcs, j)
    ensures BitOf(r, p) <==>
            match op
            case AND => HowMany(srcs, p, |srcs|) == |srcs|
            case OR => HowMany(srcs, p, |srcs|) > 0
            case XOR => HowMany(srcs, p, |srcs|) % 2 == 1
            case NOT => !BitOf(srcs[0], p)
  {
    hide Bit, Combine, Fold, HowMany;
    if op == NOT {
      PadBit(srcs[0], p);
      BitOfCombine(NOT, 8, Pad(srcs[0], p / 8), 0, 7 - p % 8);
    } else {
      FoldBit(op, srcs, p, |srcs|);
    }
  }
}
