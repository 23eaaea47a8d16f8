/**
  The macros of hyperloglog.c with C's own operators: what HllDense and HllSparse
  state in terms of quotients and remainders is what the shifts and masks compute.
 */
module HllMacros {
  import opened Basics
  import opened Words
  import opened HllDense
  import opened HllSparse
  import BitScan

  const LONG: nat := 64

  /** ((b0 >> fb) | (b1 << (8 - fb))) & HLL_REGISTER_MAX */
  function GetMacro(b0: nat, b1: nat, fb: nat): nat
    requires fb <= 8
  {
    And(LONG, Or(LONG, Hi(b0, fb), Shl(LONG, b1, 8 - fb)), HLL_REGISTER_MAX)
  }

  /** b &= ~(HLL_REGISTER_MAX << fb); b |= v << fb; each result is stored in a byte. */
  function SetLowMacro(b: nat, fb: nat, v: nat): nat
  {
    var cleared := Lo(And(LONG, b, Not(LONG, Shl(LONG, HLL_REGISTER_MAX, fb))), 8);
    Lo(Or(LONG, cleared, Shl(LONG, v, fb)), 8)
  }

  /** b &= ~(HLL_REGISTER_MAX >> (8 - fb)); b |= v >> (8 - fb) */
  function SetHighMacro(b: nat, fb: nat, v: nat): nat
    requires fb <= 8
  {
    var cleared := Lo(And(LONG, b, Not(LONG, Hi(HLL_REGISTER_MAX, 8 - fb))), 8);
    Lo(Or(LONG, cleared, Hi(v, 8 - fb)), 8)
  }

  // ---------------------------------------------------------------------
  // Shifts and masks as arithmetic

  /** Quotient and remainder, named. */
  lemma Parts(x: nat, k: nat, q: nat, r: nat)
    requires x == Pow2(k) * q + r && r < Pow2(k)
    ensures Hi(x, k) == q && Lo(x, k) == r
  {
    hide Hi, Lo, Pow2;
    BitScan.HiLoSplit(x, k);
    SameQuotient(Pow2(k), Hi(x, k), Lo(x, k), q, r);
  }

  lemma SameQuotient(p: nat, q: nat, r: nat, q': nat, r': nat)
    requires r < p && r' < p && p * q + r == p * q' + r'
    ensures q == q' && r == r'
  {
    if q < q' { Step(p, q, q'); }
    if q' < q { Step(p, q', q); }
  }

  lemma Step(p: nat, a: nat, b: nat)
    requires a < b
    ensures p * a + p <= p * b
  {
    var d: nat := b - a - 1;
    assert b == a + 1 + d;
    assert p * b == p * a + p + p * d;
  }

  lemma Powers()
    ensures Pow2(0) == 1 && Pow2(2) == 4 && Pow2(4) == 16 && Pow2(6) == 64 && Pow2(8) == 256
    ensures Pow2(LONG) >= 0x10000
  {
    assert Pow2(1) == 2;
    assert Pow2(3) == 8;
    assert Pow2(5) == 32;
    assert Pow2(7) == 128;
    BitScan.Pow2Plus8(8);
    Pow2Mono(16, LONG);
  }

  lemma {:induction false} ShlSmall(w: nat, x: nat, s: nat, y: nat)
    requires y == x * Pow2(s) && y < Pow2(w)
    ensures Shl(w, x, s) == y
    decreases s
  {
    hide Lo;
    if s == 0 {
      LoId(x, w);
    } else {
      BitScan.Twice(x, Pow2(s - 1));
      assert (2 * x) * Pow2(s - 1) == x * (2 * Pow2(s - 1));
      ShlSmall(w, 2 * x, s - 1, y);
    }
  }

  /** Or of words whose bits do not overlap is their sum. */
  lemma {:induction false} OrJoin(w: nat, k: nat, hi: nat, lo: nat)
    requires k <= w && lo < Pow2(k) && Lo(hi, k) == 0
    ensures Or(w, hi, lo) == Lo(hi, w) + lo && Or(w, lo, hi) == Lo(hi, w) + lo
    decreases k
  {
    if k == 0 {
      Units(w, hi);
    } else {
      OrJoin(w - 1, k - 1, hi / 2, lo / 2);
    }
  }

  // ---------------------------------------------------------------------
  // Reading

  lemma GetIs(b0: nat, b1: nat, fb: nat, q: nat, p: nat)
    requires b0 < 256 && b1 < 256 && Fb(fb) && p == Pow2(8 - fb) <= 256 && q < p && Hi(b0, fb) == q
    ensures GetMacro(b0, b1, fb) == (q + b1 * p) % 64
  {
    hide And, Or, Hi, Lo, Shl, Pow2;
    Powers();
    var y := b1 * p;
    assert y <= 255 * 256 by { Step(1, 0, 1); MulBound(b1, p); }
    ShlSmall(LONG, b1, 8 - fb, y);
    Parts(y, 8 - fb, b1, 0);
    OrJoin(LONG, 8 - fb, y, q);
    LoId(y, LONG);
    var x := q + y;
    AndMask(LONG, x, 6);
    Parts(x, 6, x / 64, x % 64);
  }

  lemma MulBound(a: nat, p: nat)
    requires a <= 255 && p <= 256
    ensures a * p <= 255 * 256
  {
    assert a * p <= 255 * p by { assert (255 - a) * p >= 0; }
  }

  /** HLL_DENSE_GET_REGISTER */
  lemma GetIsMacro(b0: nat, b1: nat, fb: nat)
    requires b0 < 256 && b1 < 256 && Fb(fb)
    ensures GetFrom(b0, b1, fb) == GetMacro(b0, b1, fb)
  {
    hide GetMacro, Hi, Lo, Pow2;
    Powers();
    var p := if fb == 0 then 1 else if fb == 2 then 4 else if fb == 4 then 16 else 64;
    Quotient(b0, p);
    Parts(b0, fb, b0 / p, b0 % p);
    GetIs(b0, b1, fb, b0 / p, 256 / p);
  }

  /** p is 1, 4, 16 or 64. */
  lemma Quotient(b: nat, p: nat)
    requires b < 256 && (p == 1 || p == 4 || p == 16 || p == 64)
    ensures b == p * (b / p) + b % p && b % p < p && b / p < 256 / p
  {
  }

  // ---------------------------------------------------------------------
  // Writing

  /** On the bits that are stored only the low byte of the mask matters. */
  lemma ClearIs(b: nat, mask: nat, low: nat)
    requires Lo(mask, 8) == low < 256
    ensures Lo(And(LONG, b, Not(LONG, mask)), 8) == And(8, b, Not(8, low))
  {
    hide And, Not, Lo, Pow2;
    AndSplit(LONG, b, Not(LONG, mask), 8);
    NotSplit(LONG, mask, 8);
    ReadsLow(8, mask, 0);
    ReadsLow(8, b, Not(LONG, mask));
    ReadsLow(8, b, Not(8, low));
    NotIsByte(low);
  }

  lemma NotIsByte(x: nat)
    ensures Lo(Not(8, x), 8) == Not(8, x)
  {
    LoId(Not(8, x), 8);
  }

  lemma StoreIs(cleared: nat, y: nat)
    ensures Lo(Or(LONG, cleared, y), 8) == Or(8, cleared, y)
  {
    hide Or, Lo;
    OrSplit(LONG, cleared, y, 8);
  }

  /** ~ on eight bits is 255 minus the byte. */
  lemma {:induction false} Complement(w: nat, a: nat)
    requires a < Pow2(w)
    ensures Not(w, a) == Pow2(w) - 1 - a
    decreases w
  {
    if w > 0 { Complement(w - 1, a / 2); }
  }

  /** And with a run of ones from bit k on clears the bits below. */
  lemma AndHigh(w: nat, b: nat, k: nat, mask: nat)
    requires k <= w && b < Pow2(w) && Lo(mask, k) == 0 && Hi(mask, k) == Pow2(w - k) - 1
    ensures And(w, b, mask) == b - Lo(b, k)
  {
    hide And, Lo, Hi, Pow2;
    var r := And(w, b, mask);
    AndSplit(w, b, mask, k);
    assert Lo(r, k) == 0 by { LowCleared(k, b, mask); }
    assert Hi(r, k) == Hi(b, k) by { HighKept(w, k, b, mask); }
    BitScan.HiLoSplit(r, k);
    BitScan.HiLoSplit(b, k);
  }

  lemma LowCleared(k: nat, b: nat, mask: nat)
    requires Lo(mask, k) == 0
    ensures And(k, b, mask) == 0
  {
    hide And, Lo;
    ReadsLow(k, b, mask);
    Units(k, Lo(b, k));
  }

  lemma HighKept(w: nat, k: nat, b: nat, mask: nat)
    requires k <= w && b < Pow2(w) && Hi(mask, k) == Pow2(w - k) - 1
    ensures And(w - k, Hi(b, k), Hi(mask, k)) == Hi(b, k)
  {
    hide And, Lo, Hi, Pow2;
    AndMask(w - k, Hi(b, k), w - k);
    HiBound(b, k, w - k);
    LoId(Hi(b, k), w - k);
  }

  /** The byte with the low field of the register written. */
  lemma SetLowIs(b: nat, fb: nat, v: nat, p: nat)
    requires b < 256 && v <= HLL_REGISTER_MAX && 0 < fb && Fb(fb) && p == Pow2(fb) <= 64
    ensures SetLowMacro(b, fb, v) == b % p + v * p % 256
  {
    hide And, Or, Not, Hi, Lo, Shl, Pow2;
    Powers();
    assert p == 4 || p == 16 || p == 64;
    assert 63 * p < 0x10000 && v * p < 0x10000;
    ShlSmall(LONG, 63, fb, 63 * p);
    var low := 63 * p % 256;
    Parts(63 * p, 8, 63 * p / 256, low);
    ClearIs(b, 63 * p, low);
    Complement(8, low);
    assert 255 - low == p - 1;
    AndMask(8, b, fb);
    Quotient(b, p);
    Parts(b, fb, b / p, b % p);
    ShlSmall(LONG, v, fb, v * p);
    StoreIs(b % p, v * p);
    Parts(v * p, fb, v, 0);
    OrJoin(8, fb, v * p, b % p);
    Parts(v * p, 8, v * p / 256, v * p % 256);
  }

  lemma SetLowIs0(b: nat, v: nat)
    requires b < 256 && v <= HLL_REGISTER_MAX
    ensures SetLowMacro(b, 0, v) == b - b % 64 + v
  {
    hide And, Or, Not, Hi, Lo, Shl, Pow2;
    Powers();
    ShlSmall(LONG, 63, 0, 63);
    Parts(63, 8, 0, 63);
    ClearIs(b, 63, 63);
    Complement(8, 63);
    Parts(192, 6, 3, 0);
    AndHigh(8, b, 6, 192);
    Parts(b, 6, b / 64, b % 64);
    var c: nat := b - b % 64;
    ShlSmall(LONG, v, 0, v);
    StoreIs(c, v);
    Parts(c, 6, b / 64, 0);
    OrJoin(8, 6, c, v);
    Parts(c, 8, 0, c);
  }

  lemma SetHighIs(b: nat, fb: nat, v: nat, k: nat, p: nat)
    requires b < 256 && v <= HLL_REGISTER_MAX && ((fb == 4 && k == 2 && p == 4) || (fb == 6 && k == 4 && p == 16))
    ensures SetHighMacro(b, fb, v) == b - b % p + v / (64 / p)
  {
    hide And, Or, Not, Hi, Lo, Shl, Pow2;
    Powers();
    var d := 64 / p;
    Parts(63, 8 - fb, p - 1, d - 1);
    Parts(p - 1, 8, 0, p - 1);
    ClearIs(b, p - 1, p - 1);
    Complement(8, p - 1);
    Parts(256 - p, k, 256 / p - 1, 0);
    AndHigh(8, b, k, 256 - p);
    Quotient(b, p);
    Parts(b, k, b / p, b % p);
    var c: nat := b - b % p;
    Quotient(v, d);
    Parts(v, 8 - fb, v / d, v % d);
    StoreIs(c, v / d);
    Parts(c, k, b / p, 0);
    OrJoin(8, k, c, v / d);
    Parts(c, 8, 0, c);
  }

  lemma SetHighIs0(b: nat, fb: nat, v: nat)
    requires b < 256 && v <= HLL_REGISTER_MAX && (fb == 0 || fb == 2)
    ensures SetHighMacro(b, fb, v) == b
  {
    hide And, Or, Not, Hi, Lo, Shl, Pow2;
    Powers();
    Parts(63, 8 - fb, 0, 63);
    Parts(v, 8 - fb, 0, v);
    Parts(0, 8, 0, 0);
    ClearIs(b, 0, 0);
    Complement(8, 0);
    Units(8, b);
    Parts(b, 8, 0, b);
    StoreIs(b, 0);
  }

  /** HLL_DENSE_SET_REGISTER */
  lemma SetIsMacro(b0: nat, b1: nat, fb: nat, v: nat)
    requires b0 < 256 && b1 < 256 && v <= HLL_REGISTER_MAX && Fb(fb)
    ensures SetLow(b0, fb, v) == SetLowMacro(b0, fb, v) && SetHigh(b1, fb, v) == SetHighMacro(b1, fb, v)
  {
    hide *;
    Fields4(fb);
    if fb == 0 { SetIs0(b0, b1, v); } else if fb == 2 { SetIs2(b0, b1, v); }
    else if fb == 4 { SetIs4(b0, b1, v); } else { SetIs6(b0, b1, v); }
  }

  lemma Fields4(fb: nat)
    ensures Fb(fb) <==> fb == 0 || fb == 2 || fb == 4 || fb == 6
  {
  }

  lemma SetIs0(b0: nat, b1: nat, v: nat)
    requires b0 < 256 && b1 < 256 && v <= HLL_REGISTER_MAX
    ensures SetLow(b0, 0, v) == SetLowMacro(b0, 0, v) && SetHigh(b1, 0, v) == SetHighMacro(b1, 0, v)
  {
    hide SetLowMacro, SetHighMacro, SetLow, SetHigh;
    SetFields0(b0, b1, v);
    SetLowIs0(b0, v);
    SetHighIs0(b1, 0, v);
    Whole(b0, 64);
  }

  lemma SetIs2(b0: nat, b1: nat, v: nat)
    requires b0 < 256 && b1 < 256 && v <= HLL_REGISTER_MAX
    ensures SetLow(b0, 2, v) == SetLowMacro(b0, 2, v) && SetHigh(b1, 2, v) == SetHighMacro(b1, 2, v)
  {
    hide SetLowMacro, SetHighMacro, SetLow, SetHigh, Pow2;
    Powers();
    SetFields2(b0, b1, v);
    SetLowIs(b0, 2, v, 4);
    SetHighIs0(b1, 2, v);
  }

  lemma SetIs4(b0: nat, b1: nat, v: nat)
    requires b0 < 256 && b1 < 256 && v <= HLL_REGISTER_MAX
    ensures SetLow(b0, 4, v) == SetLowMacro(b0, 4, v) && SetHigh(b1, 4, v) == SetHighMacro(b1, 4, v)
  {
    hide SetLowMacro, SetHighMacro, SetLow, SetHigh, Pow2;
    Powers();
    SetFields4(b0, b1, v);
    SetLowIs(b0, 4, v, 16);
    SetHighIs(b1, 4, v, 2, 4);
    Carried(v, 16);
    Whole(b1, 4);
  }

  lemma SetIs6(b0: nat, b1: nat, v: nat)
    requires b0 < 256 && b1 < 256 && v <= HLL_REGISTER_MAX
    ensures SetLow(b0, 6, v) == SetLowMacro(b0, 6, v) && SetHigh(b1, 6, v) == SetHighMacro(b1, 6, v)
  {
    hide SetLowMacro, SetHighMacro, SetLow, SetHigh, Pow2;
    Powers();
    SetFields6(b0, b1, v);
    SetLowIs(b0, 6, v, 64);
    SetHighIs(b1, 6, v, 4, 16);
    Carried(v, 64);
    Whole(b1, 16);
  }

  lemma Whole(b: nat, p: nat)
    requires p == 4 || p == 16 || p == 64
    ensures b / p * p == b - b % p
  {
  }

  lemma Carried(v: nat, p: nat)
    requires p == 16 || p == 64
    ensures v * p % 256 == v % (256 / p) * p
  {
    if p == 16 { Mod256(v * 16, v / 16, v % 16 * 16); } else { Mod256(v * 64, v / 4, v % 4 * 64); }
  }

  // ---------------------------------------------------------------------
  // The opcodes of the sparse representation

  lemma OpcodePowers()
    ensures Pow2(2) == 4 && Pow2(5) == 32 && Pow2(6) == 64 && Pow2(7) == 128 && Pow2(8) == 256 && Pow2(1) == 2
  {
    Powers();
    assert Pow2(1) == 2;
  }

  /** The macros that read an opcode of one byte, or of the bytes b and c. */
  lemma ReadOpcode(b: Byte, c: Byte)
    ensures IsZero(b) <==> And(8, b, 0xc0) == 0
    ensures IsXZero(b) <==> And(8, b, 0xc0) == 0x40
    ensures IsVal(b) <==> And(8, b, 0x80) != 0
    ensures ZeroLen(b) == And(8, b, 0x3f) + 1
    ensures XZeroLen(b, c) == Or(16, Shl(16, And(8, b, 0x3f), 8), c) + 1
    ensures ValValue(b) == And(8, Hi(b, 2), 0x1f) + 1
    ensures ValLen(b) == And(8, b, 3) + 1
  {
    hide And, Or, Hi, Lo, Shl, Pow2;
    OpcodePowers();
    var x: nat := b;
    ReadHigh(x);
    ReadLow(x);
    ReadXZero(x % 64, c);
  }

  lemma ReadHigh(x: nat)
    requires x < 256
    ensures And(8, x, 0xc0) == x / 64 * 64 && And(8, x, 0x80) == x / 128 * 128
  {
    hide And, Hi, Lo, Pow2;
    OpcodePowers();
    Parts(192, 6, 3, 0);
    AndHigh(8, x, 6, 192);
    Parts(x, 6, x / 64, x % 64);
    Parts(128, 7, 1, 0);
    AndHigh(8, x, 7, 128);
    Parts(x, 7, x / 128, x % 128);
  }

  lemma ReadLow(x: nat)
    requires x < 256
    ensures And(8, x, 0x3f) == x % 64 && And(8, x, 3) == x % 4 && And(8, Hi(x, 2), 0x1f) == x / 4 % 32
  {
    hide And, Hi, Lo, Pow2;
    OpcodePowers();
    AndMask(8, x, 6);
    Parts(x, 6, x / 64, x % 64);
    AndMask(8, x, 2);
    Parts(x, 2, x / 4, x % 4);
    var h := Hi(x, 2);
    AndMask(8, h, 5);
    Parts(h, 5, h / 32, h % 32);
  }

  lemma ReadXZero(x: nat, c: nat)
    requires x < 64 && c < 256
    ensures Or(16, Shl(16, x, 8), c) == x * 256 + c
  {
    hide Or, Hi, Lo, Shl, Pow2;
    Powers();
    BitScan.Pow2Plus8(8);
    ShlSmall(16, x, 8, x * 256);
    Parts(x * 256, 8, x, 0);
    OrJoin(16, 8, x * 256, c);
    LoId(x * 256, 16);
  }

  /** The macros that write one. */
  lemma WriteOpcode(val: nat, len: nat)
    requires 1 <= val <= VAL_MAX_VALUE
    ensures 1 <= len <= VAL_MAX_LEN ==> ValSet(val, len) == Or(8, Or(8, Shl(8, val - 1, 2), len - 1), 0x80)
    ensures 1 <= len <= XZERO_MAX_LEN ==> XZeroSet(len) == [Or(8, Hi(len - 1, 8), 0x40), And(16, len - 1, 0xff)]
  {
    hide And, Or, Hi, Lo, Shl, Pow2;
    OpcodePowers();
    if 1 <= len <= VAL_MAX_LEN { WriteVal(val - 1, len - 1); }
    if 1 <= len <= XZERO_MAX_LEN { WriteXZero(len - 1); }
  }

  lemma WriteVal(v: nat, l: nat)
    requires v < 32 && l < 4
    ensures Or(8, Or(8, Shl(8, v, 2), l), 0x80) == v * 4 + l + 128
  {
    hide Or, Hi, Lo, Shl, Pow2;
    OpcodePowers();
    ShlSmall(8, v, 2, v * 4);
    Parts(v * 4, 2, v, 0);
    OrJoin(8, 2, v * 4, l);
    LoId(v * 4, 8);
    Parts(128, 7, 1, 0);
    OrJoin(8, 7, 128, v * 4 + l);
    LoId(128, 8);
  }

  lemma WriteXZero(l: nat)
    requires l < XZERO_MAX_LEN
    ensures Or(8, Hi(l, 8), 0x40) == l / 256 + 64 && And(16, l, 0xff) == l % 256
  {
    hide And, Or, Hi, Lo, Pow2;
    OpcodePowers();
    Parts(l, 8, l / 256, l % 256);
    Parts(64, 6, 1, 0);
    assert l / 256 < 64;
    OrJoin(8, 6, 64, l / 256);
    LoId(64, 8);
    AndMask(16, l, 8);
  }
}
