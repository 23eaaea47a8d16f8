/**
  The reversed-bit cursor of dictScan: the rev() loop, the cursor arithmetic,
  and the order on reversed words in which the cursor sweeps the hash space.
 */
module DictCursor {
  import opened Words

  // ---------------------------------------------------------------------
  // rev(): parallel bit reversal

  lemma {:induction false} BitShl(w: nat, x: nat, s: nat, i: nat)
    requires i < w
    ensures Bit(Shl(w, x, s), i) == if i < s then 0 else Bit(x, i - s)
    decreases s
  {
    if s == 0 {
      BitLo(w, x, i);
    } else {
      BitShl(w, 2 * x, s - 1, i);
      if s <= i { assert Bit(2 * x, i - (s - 1)) == Bit(2 * x / 2, i - s); }
    }
  }

  lemma {:induction false} BitExt(w: nat, x: nat, y: nat)
    requires x < Pow2(w) && y < Pow2(w)
    requires forall i :: 0 <= i < w ==> Bit(x, i) == Bit(y, i)
    ensures x == y
    decreases w
  {
    if w != 0 {
      assert Bit(x, 0) == Bit(y, 0);
      forall i | 0 <= i < w - 1 ensures Bit(x / 2, i) == Bit(y / 2, i) {
        assert Bit(x, i + 1) == Bit(y, i + 1);
      }
      BitExt(w - 1, x / 2, y / 2);
    }
  }

  lemma {:induction false} BitRev(w: nat, x: nat, i: nat)
    requires i < w
    ensures Bit(Rev(w, x), i) == Bit(x, w - 1 - i)
    decreases i
  {
    hide Rev, Bit;
    RevLast(w - 1, x);
    Halve(Rev(w, x), Rev(w - 1, x), Bit(x, w - 1));
    BitStep(Rev(w, x), i);
    if i != 0 { BitRev(w - 1, x, i - 1); }
  }

  lemma {:induction false} BitBound(w: nat, x: nat, i: nat)
    requires x < Pow2(w) && w <= i
    ensures Bit(x, i) == 0
    decreases i
  {
    if i != 0 {
      if w == 0 { BitBound(0, x / 2, i - 1); } else { BitBound(w - 1, x / 2, i - 1); }
    }
  }

  /** Where bit `i` comes from once blocks of `s` bits have been put in opposite order. */
  function Mirror(w: nat, s: nat, i: nat): int
    requires s > 0
  {
    w - s - i + 2 * (i % s)
  }

  /** The state of rev()'s loop after the round with shift `s`. */
  ghost predicate RevState(w: nat, s: nat, mask: nat, v: nat, v0: nat)
    requires s > 0
  {
    && mask < Pow2(w) && v < Pow2(w)
    && (forall i :: 0 <= i < w ==> (Bit(mask, i) == 1 <==> i % (2 * s) < s))
    && (forall i :: 0 <= i < w ==>
          0 <= Mirror(w, s, i) < w && Bit(v, i) == Bit(v0, Mirror(w, s, i)))
  }

  /** Euclidean division facts about blocks of d within blocks of 2d. */
  lemma ModHalf(i: nat, d: nat)
    requires d > 0
    ensures i % d == if i % (2 * d) < d then i % (2 * d) else i % (2 * d) - d
  {
    var q, r := i / (2 * d), i % (2 * d);
    assert i == q * (2 * d) + r;
    assert q * (2 * d) == (2 * q) * d;
    if r < d {
      ModIs(i, d, 2 * q, r);
    } else {
      assert (2 * q + 1) * d == (2 * q) * d + d;
      ModIs(i, d, 2 * q + 1, r - d);
    }
  }

  lemma ModIs(x: int, d: nat, q: int, r: nat)
    requires r < d && x == q * d + r
    ensures x % d == r
  {
    RemainderUnique(d, q, r, x / d, x % d);
  }

  lemma RemainderUnique(d: nat, q: int, r: nat, q': int, r': nat)
    requires r < d && r' < d && q * d + r == q' * d + r'
    ensures q == q' && r == r'
  {
    if q < q' {
      MulStep(q, q', d);
    } else if q' < q {
      MulStep(q', q, d);
    }
  }

  lemma MulStep(a: int, b: int, d: nat)
    requires a < b
    ensures a * d + d <= b * d
  {
    assert b * d == a * d + (b - a) * d;
    assert (b - a) * d == (b - a - 1) * d + d;
  }

  lemma ModShift(i: nat, d: nat, t: int)
    requires d > 0 && 0 <= i % d + t < d
    ensures (i + t) % d == i % d + t
  {
    assert i == (i / d) * d + i % d;
    ModIs(i + t, d, i / d, i % d + t);
  }

  lemma ModWrap(i: nat, d: nat, t: int)
    requires d > 0 && 0 <= i % d + t + d < d
    ensures (i + t) % d == i % d + t + d
  {
    assert i == (i / d) * d + i % d;
    assert (i / d - 1) * d == (i / d) * d - d;
    ModIs(i + t, d, i / d - 1, i % d + t + d);
  }

  /** A block that starts inside a word made of whole blocks ends inside it. */
  lemma BlockFits(i: nat, w: nat, d: nat)
    requires d > 0 && w % d == 0 && i < w
    ensures i - i % d + d <= w
  {
    var q, n := i / d, w / d;
    assert i == q * d + i % d && w == n * d;
    if q < n { MulStep(q, n, d); } else if n < q { MulStep(n, q, d); }
  }

  /** mask ^= mask << s halves the period of the mask. */
  lemma MaskStep(w: nat, s: nat, mask: nat, i: nat)
    requires s > 0 && i < w
    requires forall j :: 0 <= j < w ==> (Bit(mask, j) == 1 <==> j % (4 * s) < 2 * s)
    ensures Bit(Xor(w, mask, Shl(w, mask, s)), i) == 1 <==> i % (2 * s) < s
  {
    BitOps(w, mask, Shl(w, mask, s), i);
    BitShl(w, mask, s, i);
    ModHalf(i, 2 * s);
    var m := i % (4 * s);
    if i >= s {
      if m >= s { ModShift(i, 4 * s, 0 - s); } else { ModWrap(i, 4 * s, 0 - s); }
    } else {
      ModIs(i, 4 * s, 0, i);
    }
  }

  /** v = ((v >> s) & mask) | ((v << s) & ~mask), bit by bit */
  lemma SwapBits(w: nat, s: nat, mask: nat, v: nat, i: nat)
    requires i < w
    ensures Bit(Or(w, And(w, Hi(v, s), mask), And(w, Shl(w, v, s), Not(w, mask))), i)
         == if Bit(mask, i) == 1 then Bit(v, i + s) else if i < s then 0 else Bit(v, i - s)
  {
    hide Rev, Hi, Lo, Pow2, And, Or, Not, Xor, Shl, Bit;
    var a, b := And(w, Hi(v, s), mask), And(w, Shl(w, v, s), Not(w, mask));
    BitOps(w, a, b, i);
    BitOps(w, Hi(v, s), mask, i);
    BitOps(w, Shl(w, v, s), Not(w, mask), i);
    BitOps(w, mask, 0, i);
    BitHi(v, s, i);
    BitShl(w, v, s, i);
  }

  /** Swapping adjacent blocks of s bits within blocks of 2s bits. */
  lemma MirrorStep(w: nat, s: nat, i: nat)
    requires s > 0 && i < w && w % (2 * s) == 0
    ensures if i % (2 * s) < s
            then i + s < w && Mirror(w, 2 * s, i + s) == Mirror(w, s, i)
            else i >= s && Mirror(w, 2 * s, i - s) == Mirror(w, s, i)
  {
    ModHalf(i, s);
    BlockFits(i, w, 2 * s);
    if i % (2 * s) < s {
      ModShift(i, 2 * s, s);
    } else {
      ModLe(i, 2 * s);
      ModShift(i, 2 * s, 0 - s);
    }
  }

  lemma ModLe(i: nat, d: nat)
    requires d > 0
    ensures i % d <= i
  {
    assert i == (i / d) * d + i % d;
  }

  lemma {:induction false} PowerDivides(e: nat, n: nat)
    requires e <= n
    ensures Pow2(n) % Pow2(e) == 0
    decreases n
  {
    if e == n {
      ModIs(Pow2(n), Pow2(n), 1, 0);
    } else {
      PowerDivides(e, n - 1);
      var q := Pow2(n - 1) / Pow2(e);
      assert Pow2(n - 1) == q * Pow2(e);
      assert (2 * q) * Pow2(e) == 2 * (q * Pow2(e));
      ModIs(Pow2(n), Pow2(e), 2 * q, 0);
    }
  }

  lemma RevRound(w: nat, s: nat, mask: nat, v: nat, v0: nat, mask': nat, v': nat)
    requires s > 0 && w % (2 * s) == 0
    requires RevState(w, 2 * s, mask, v, v0)
    requires mask' == Xor(w, mask, Shl(w, mask, s))
    requires v' == Or(w, And(w, Hi(v, s), mask'), And(w, Shl(w, v, s), Not(w, mask')))
    ensures RevState(w, s, mask', v', v0)
  {
    hide Rev, Hi, Pow2, And, Or, Not, Xor, Shl, Bit;
    forall i | 0 <= i < w ensures Bit(mask', i) == 1 <==> i % (2 * s) < s {
      MaskStep(w, s, mask, i);
    }
    forall i | 0 <= i < w
      ensures 0 <= Mirror(w, s, i) < w && Bit(v', i) == Bit(v0, Mirror(w, s, i))
    {
      SwapBits(w, s, mask', v, i);
      MirrorStep(w, s, i);
    }
  }

  lemma RevStart(w: nat, v: nat)
    requires w > 0 && v < Pow2(w)
    ensures RevState(w, w, Not(w, 0), v, v)
  {
    hide Rev, Hi, Pow2, And, Or, Not, Xor, Shl, Bit;
    Units(w, 0);
    forall i | 0 <= i < w
      ensures Bit(Not(w, 0), i) == 1 && i % (2 * w) < w && Mirror(w, w, i) == i
    {
      BitOnes(w, i);
      SmallMod(i, 2 * w);
      SmallMod(i, w);
    }
  }

  lemma SmallMod(i: nat, d: nat)
    requires i < d
    ensures i % d == i
  {
    ModIs(i, d, 0, i);
  }

  lemma RevEnd(w: nat, mask: nat, v: nat, v0: nat)
    requires w > 0 && RevState(w, 1, mask, v, v0)
    ensures v == Rev(w, v0)
  {
    hide Rev, Hi, Pow2, And, Or, Not, Xor, Shl, Bit;
    forall i | 0 <= i < w ensures Bit(v, i) == Bit(Rev(w, v0), i) {
      BitRev(w, v0, i);
      assert Mirror(w, 1, i) == w - 1 - i;
    }
    BitExt(w, v, Rev(w, v0));
  }

  /** rev() on words whose width is a power of two, 2^n bits. */
  method ReverseWord(n: nat, v0: nat) returns (v: nat)
    requires v0 < Pow2(Pow2(n))
    ensures v == Rev(Pow2(n), v0)
  {
    hide Rev, Hi, And, Or, Not, Xor, Shl, Bit, RevState;
    var w := Pow2(n);
    var s := w;
    ghost var e: nat := n;
    v := v0;
    var mask := Not(w, 0);
    RevStart(w, v);
    while s / 2 > 0
      invariant e <= n && s == Pow2(e)
      invariant RevState(w, s, mask, v, v0)
      decreases s
    {
      PowerDivides(e, n);
      s := s / 2;
      e := e - 1;
      ghost var oldMask, oldV := mask, v;
      mask := Xor(w, mask, Shl(w, mask, s));
      v := Or(w, And(w, Hi(v, s), mask), And(w, Shl(w, v, s), Not(w, mask)));
      RevRound(w, s, oldMask, oldV, v0, mask, v);
    }
    RevEnd(w, mask, v, v0);
  }

  // ---------------------------------------------------------------------
  // Cursor arithmetic. m0 = 2^k0 - 1 is the mask of the smaller table.

  /** v |= ~m0; v = rev(v); v++; v = rev(v) */
  function Advance(w: nat, m0: nat, v: nat): (v': nat)
    ensures v' < Pow2(w)
  {
    Rev(w, Inc(w, Rev(w, Or(w, v, Not(w, m0)))))
  }

  /** v = (((v | m0) + 1) & ~m0) | (v & m0) */
  function NextExpansion(w: nat, m0: nat, v: nat): (v': nat)
    ensures v' < Pow2(w)
  {
    Or(w, And(w, Inc(w, Or(w, v, m0)), Not(w, m0)), And(w, v, m0))
  }

  /** Everything at or after `v` and before `v'` in reversed order; a cursor of 0 ends the sweep. */
  predicate Swept(w: nat, v: nat, v': nat, h: nat)
  {
    Rev(w, v) <= Rev(w, h) && (v' == 0 || Rev(w, h) < Rev(w, v'))
  }

  /** The word handed to rev(): the cursor's k low bits, ones above. */
  lemma FilledCursor(w: nat, k: nat, v: nat)
    requires k <= w
    ensures Lo(Or(w, v, Not(w, Pow2(k) - 1)), k) == Lo(v, k)
    ensures Hi(Or(w, v, Not(w, Pow2(k) - 1)), k) == Pow2(w - k) - 1
  {
    hide Rev, Hi, Lo, Pow2, And, Or, Not, Xor, Shl, Bit;
    var m := Not(w, Pow2(k) - 1);
    OrSplit(w, v, m, k);
    NotMask(w, k);
    ReadsLow(k, v, m);
    LoId(Lo(v, k), k);
    Units(k, Lo(v, k));
    Units(w - k, Hi(v, k));
  }

  /**
    In reversed order the step goes from the block of cursor v (all words that
    share its k low bits) to the start of the next block, or to 0 after the last.
   */
  lemma AdvanceBlocks(w: nat, k: nat, v: nat)
    requires k <= w
    ensures var v' := Advance(w, Pow2(k) - 1, v);
            if Rev(k, v) + 1 == Pow2(k) then v' == 0
            else Hi(Rev(w, v'), w - k) == Rev(k, v) + 1 && Lo(Rev(w, v'), w - k) == 0
  {
    hide Rev, Hi, Lo, Pow2, And, Or, Not, Xor, Shl, Bit;
    var m := Pow2(k) - 1;
    var filled := Or(w, v, Not(w, m));
    var r := Rev(w, filled);
    var n := w - k;
    FilledCursor(w, k, v);
    RevHi(w, filled, n);
    RevConstants(n);
    assert Lo(r, n) == Pow2(n) - 1;
    RevEq(k, filled, v);
    assert Hi(r, n) == Rev(k, v);
    CarryOut(r, n);
    var r' := Inc(w, r);
    RevInvolution(w, r');
    LoId(r', w);
    LastBlock(r, n, k);
    assert k + n == w;
    RevConstants(w);
  }

  lemma {:induction false} LastBlock(r: nat, n: nat, k: nat)
    requires Lo(r, n) == Pow2(n) - 1
    ensures r + 1 == Pow2(n + k) <==> Hi(r, n) + 1 == Pow2(k)
    decreases n
  {
    if n != 0 { LastBlock(r / 2, n - 1, k); }
  }

  /** Every hash swept over by one step shares the cursor's k low bits. */
  lemma SweptSharesBucket(w: nat, k: nat, v: nat, h: nat)
    requires k <= w && Swept(w, v, Advance(w, Pow2(k) - 1, v), h)
    ensures Lo(h, k) == Lo(v, k)
  {
    hide Rev, Hi, Lo, Pow2, And, Or, Not, Xor, Shl, Bit;
    var v' := Advance(w, Pow2(k) - 1, v);
    var n := w - k;
    AdvanceBlocks(w, k, v);
    RevHi(w, v, n);
    RevHi(w, h, n);
    HiMono(Rev(w, v), Rev(w, h), n);
    if Rev(k, v) + 1 != Pow2(k) {
      RevEq(w, 0, v');
      RevConstants(w);
      HiZero(n);
      HiMono(Rev(w, h), Rev(w, v'), n);
      if Hi(Rev(w, h), n) == Rev(k, v) + 1 {
        HiLoExt(Rev(w, h), Rev(w, v'), n);
      }
    }
    RevEq(k, h, v);
  }

  /** The cursor moves strictly forward in reversed order until it returns to 0. */
  lemma AdvanceForward(w: nat, k: nat, v: nat)
    requires k <= w && Advance(w, Pow2(k) - 1, v) != 0
    ensures Rev(w, v) < Rev(w, Advance(w, Pow2(k) - 1, v))
  {
    hide Rev, Hi, Lo, Pow2, And, Or, Not, Xor, Shl, Bit;
    var v' := Advance(w, Pow2(k) - 1, v);
    AdvanceBlocks(w, k, v);
    RevHi(w, v, w - k);
    if Rev(w, v') <= Rev(w, v) { HiMono(Rev(w, v'), Rev(w, v), w - k); }
  }

  /** A returned cursor has no bits above the smaller mask. */
  lemma AdvanceLow(w: nat, k: nat, v: nat)
    requires k <= w
    ensures Advance(w, Pow2(k) - 1, v) < Pow2(k)
  {
    hide Rev, Hi, Lo, Pow2, And, Or, Not, Xor, Shl, Bit;
    var v' := Advance(w, Pow2(k) - 1, v);
    AdvanceBlocks(w, k, v);
    if v' != 0 {
      RevHi(w, v', w - k);
      RevConstants(w - k);
      RevEq(w - k, Hi(v', k), 0);
      HiBound(v', k, w - k);
      LoId(Hi(v', k), w - k);
      HiZero(w - k);
      LoId(v', k);
    }
  }

  /** One round of the expansion loop adds one to the bits above k0. */
  lemma NextExpansionAdds(w: nat, k0: nat, v: nat)
    requires k0 <= w && v < Pow2(w)
    ensures var v' := NextExpansion(w, Pow2(k0) - 1, v);
            && Lo(v', k0) == Lo(v, k0)
            && Hi(v', k0) == (if Hi(v, k0) + 1 == Pow2(w - k0) then 0 else Hi(v, k0) + 1)
  {
    hide Rev, Hi, Lo, Pow2, And, Or, Not, Xor, Shl, Bit;
    var m := Pow2(k0) - 1;
    var n := w - k0;
    var a := Or(w, v, m);
    OrSplit(w, v, m, k0);
    LoOnes(k0);
    Units(k0, v);
    Units(n, Hi(v, k0));
    HiBound(v, k0, n);
    LoId(Hi(v, k0), n);
    assert Lo(a, k0) == m && Hi(a, k0) == Hi(v, k0);
    CarryOut(a, k0);
    LastBlock(a, k0, n);
    var b := Inc(w, a);
    HiZero(k0);
    assert Lo(b, k0) == 0;
    var c := And(w, b, Not(w, m));
    AndSplit(w, b, Not(w, m), k0);
    NotMask(w, k0);
    ReadsLow(k0, b, Not(w, m));
    Units(k0, 0);
    assert Lo(c, k0) == 0;
    Units(n, Hi(b, k0));
    HiBound(b, k0, n);
    LoId(Hi(b, k0), n);
    assert Hi(c, k0) == Hi(b, k0);
    var d := And(w, v, m);
    AndMask(w, v, k0);
    OrSplit(w, c, d, k0);
    LoId(d, k0);
    ReadsLow(k0, c, d);
    Units(k0, d);
    Units(n, Hi(c, k0));
  }

  /** The loop test: are there bits of v between the two masks? */
  lemma BetweenMasks(w: nat, k0: nat, k1: nat, v: nat)
    requires k0 <= k1 <= w && v < Pow2(w)
    ensures And(w, v, Xor(w, Pow2(k0) - 1, Pow2(k1) - 1)) == 0
       <==> Lo(Hi(v, k0), k1 - k0) == 0
  {
    hide Rev, Hi, Lo, Pow2, And, Or, Not, Xor, Shl, Bit;
    var x := Xor(w, Pow2(k0) - 1, Pow2(k1) - 1);
    var r := And(w, v, x);
    AndSplit(w, v, x, k0);
    XorMasks(w, k0, k1, Pow2(k0) - 1, Pow2(k1) - 1);
    assert Lo(r, k0) == 0 by { AndZeros(k0, v, x); }
    assert Hi(r, k0) == Lo(Hi(v, k0), k1 - k0) by { AndMask(w - k0, Hi(v, k0), k1 - k0); }
    ZeroParts(r, k0);
  }

  lemma AndZeros(k: nat, v: nat, x: nat)
    requires Lo(x, k) == 0
    ensures And(k, v, x) == 0
  {
    hide Lo, And;
    ReadsLow(k, v, x);
    Units(k, Lo(v, k));
  }

  lemma ZeroParts(r: nat, k: nat)
    ensures r == 0 <==> Lo(r, k) == 0 && Hi(r, k) == 0
  {
    hide Lo, Hi;
    HiZero(k);
    if Lo(r, k) == 0 && Hi(r, k) == 0 { HiLoExt(r, 0, k); }
  }

  // ---------------------------------------------------------------------
  // Which buckets of the larger table are reached during a rehash

  /** 0, 1, 11, 111, ... in binary */
  predicate AllOnes(c: nat)
  {
    c == 0 || (c % 2 == 1 && AllOnes(c / 2))
  }

  /** AllOnes is the C test (c & (c + 1)) == 0. */
  lemma {:induction false} AllOnesBitTest(w: nat, c: nat)
    requires c < Pow2(w)
    ensures AllOnes(c) <==> And(w + 1, c, c + 1) == 0
    decreases w
  {
    if c % 2 == 1 {
      AllOnesBitTest(w - 1, c / 2);
    } else if c != 0 {
      AndSelfPositive(w, c / 2);
    } else {
      AndZero(w + 1, 1);
    }
  }

  lemma {:induction false} AndSelfPositive(w: nat, c: nat)
    requires 0 < c < Pow2(w)
    ensures And(w, c, c) > 0
    decreases w
  {
    if c / 2 > 0 { AndSelfPositive(w - 1, c / 2); }
  }

  /** Counting up from c meets every m that is not before c in reversed order. */
  lemma {:induction false} UpwardCovers(j: nat, c: nat, m: nat)
    requires AllOnes(c) && Rev(j, c) <= Rev(j, m) && c < Pow2(j) && m < Pow2(j)
    ensures c <= m
    decreases j
  {
    if c != 0 { UpwardCovers(j - 1, c / 2, m / 2); }
  }

  /** When c is not all ones, some m strictly after c in reversed order is below c. */
  lemma {:induction false} UpwardMisses(j: nat, c: nat) returns (m: nat)
    requires !AllOnes(c) && c < Pow2(j)
    ensures m < c && Rev(j, c) < Rev(j, m)
    decreases j
  {
    if c % 2 == 1 {
      var m' := UpwardMisses(j - 1, c / 2);
      m := 2 * m' + 1;
    } else {
      m := 1;
    }
  }

  /** Bits of the cursor between the two masks. */
  function Middle(k0: nat, k1: nat, v: nat): (c: nat)
    requires k0 <= k1
    ensures c < Pow2(k1 - k0)
  {
    Lo(Hi(v, k0), k1 - k0)
  }

  /** The large-table buckets the loop visits: those of v's small bucket, from v's own upward. */
  predicate Visited(k0: nat, k1: nat, v: nat, h: nat)
    requires k0 <= k1
  {
    Lo(h, k0) == Lo(v, k0) && Middle(k0, k1, v) <= Middle(k0, k1, h)
  }

  lemma MiddleOrder(w: nat, k0: nat, k1: nat, v: nat, h: nat)
    requires k0 <= k1 <= w && Lo(h, k0) == Lo(v, k0)
    ensures Rev(w, v) <= Rev(w, h) ==> Rev(k1 - k0, Middle(k0, k1, v)) <= Rev(k1 - k0, Middle(k0, k1, h))
  {
    hide Rev, Hi, Lo, Pow2, Advance, AllOnes;
    var n := w - k0;
    RevHi(w, v, n);
    RevHi(w, h, n);
    RevEq(k0, v, h);
    if Rev(w, v) <= Rev(w, h) {
      HiMono(Rev(w, v), Rev(w, h), n);
      RevHi(n, Hi(v, k0), w - k1);
      RevHi(n, Hi(h, k0), w - k1);
      HiMono(Rev(n, Hi(v, k0)), Rev(n, Hi(h, k0)), w - k1);
      ReadsLow(k1 - k0, Hi(v, k0), 0);
      ReadsLow(k1 - k0, Hi(h, k0), 0);
    }
  }

  /** If the bits between the masks are all ones (or none), everything swept over is visited. */
  lemma SweptIsVisited(w: nat, k0: nat, k1: nat, v: nat, h: nat)
    requires k0 <= k1 <= w && AllOnes(Middle(k0, k1, v))
    requires Swept(w, v, Advance(w, Pow2(k0) - 1, v), h)
    ensures Visited(k0, k1, v, h)
  {
    hide Rev, Hi, Lo, Pow2, Advance, AllOnes;
    SweptSharesBucket(w, k0, v, h);
    MiddleOrder(w, k0, k1, v, h);
    UpwardCovers(k1 - k0, Middle(k0, k1, v), Middle(k0, k1, h));
  }

  /** Otherwise some hash is swept over and never visited. */
  lemma SweptIsMissed(w: nat, k0: nat, k1: nat, v: nat) returns (h: nat)
    requires k0 <= k1 <= w && !AllOnes(Middle(k0, k1, v))
    ensures h < Pow2(k1)
    ensures Swept(w, v, Advance(w, Pow2(k0) - 1, v), h) && !Visited(k0, k1, v, h)
  {
    hide Rev, Hi, Lo, Pow2, Advance, AllOnes;
    var j := k1 - k0;
    var c := Middle(k0, k1, v);
    var m := UpwardMisses(j, c);
    h := Join(k0, Lo(v, k0), m);
    JoinParts(k0, Lo(v, k0), m, j);
    LoId(m, j);
    assert Middle(k0, k1, h) == m;
    if Rev(w, h) <= Rev(w, v) { MiddleOrder(w, k0, k1, h, v); }
    var v' := Advance(w, Pow2(k0) - 1, v);
    AdvanceBlocks(w, k0, v);
    RevHi(w, h, w - k0);
    RevEq(k0, v, h);
    if v' != 0 && Rev(w, v') <= Rev(w, h) { HiMono(Rev(w, v'), Rev(w, h), w - k0); }
  }

  /** The word with low bits `lo` (k of them) and high bits `hi`. */
  function Join(k: nat, lo: nat, hi: nat): nat
    decreases k
  {
    if k == 0 then hi else 2 * Join(k - 1, lo / 2, hi) + lo % 2
  }

  lemma {:induction false} JoinParts(k: nat, lo: nat, hi: nat, j: nat)
    requires lo < Pow2(k) && hi < Pow2(j)
    ensures Lo(Join(k, lo, hi), k) == lo && Hi(Join(k, lo, hi), k) == hi
    ensures Join(k, lo, hi) < Pow2(k + j)
    decreases k
  {
    if k != 0 {
      var x := Join(k, lo, hi);
      assert x / 2 == Join(k - 1, lo / 2, hi) && x % 2 == lo % 2;
      JoinParts(k - 1, lo / 2, hi, j);
    }
  }

  /**
    The exact condition. One dictScan call made while the table is rehashed
    between sizes 2^k0 and 2^k1 visits every key it sweeps over if and only if
    the cursor's bits between the masks are all ones: c & (c + 1) == 0.
   */
  lemma ScanStepExact(w: nat, k0: nat, k1: nat, v: nat)
    requires k0 <= k1 <= w
    ensures (forall h: nat :: h < Pow2(k1) && Swept(w, v, Advance(w, Pow2(k0) - 1, v), h) ==> Visited(k0, k1, v, h))
       <==> AllOnes(Middle(k0, k1, v))
  {
    hide Rev, Hi, Lo, Pow2, Advance, AllOnes;
    if AllOnes(Middle(k0, k1, v)) {
      forall h: nat | h < Pow2(k1) && Swept(w, v, Advance(w, Pow2(k0) - 1, v), h)
        ensures Visited(k0, k1, v, h)
      {
        SweptIsVisited(w, k0, k1, v, h);
      }
    } else {
      var h := SweptIsMissed(w, k0, k1, v);
    }
  }

  /** Resizing by a factor of two, in either direction, always satisfies the condition. */
  lemma DoublingIsSafe(k0: nat, k1: nat, v: nat)
    requires k0 <= k1 <= k0 + 1
    ensures AllOnes(Middle(k0, k1, v))
  {
    var c := Middle(k0, k1, v);
    assert Pow2(1) == 2 && Pow2(0) == 1;
    assert c == 0 || c == 1;
  }

  /** So does a cursor with no bits above the smaller mask, as growing tables leave it. */
  lemma LowCursorIsSafe(k0: nat, k1: nat, v: nat)
    requires k0 <= k1 && v < Pow2(k0)
    ensures AllOnes(Middle(k0, k1, v))
  {
    LoId(v, k0);
    HiZero(k1 - k0);
  }
}
