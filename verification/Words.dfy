/**
  Fixed-width unsigned machine words as natural numbers, with C's bitwise
  operators defined bit by bit.

  A word is taken apart with Lo(x, k), its k lowest bits (x & (2^k - 1)), and
  Hi(x, k), the bits above them (x >> k).
 */
module Words {

  function Pow2(n: nat): (p: nat)
    ensures p >= 1
  {
    if n == 0 then 1 else 2 * Pow2(n - 1)
  }

  /** Bit `i` of `x`, bit 0 being the least significant one. */
  function Bit(x: nat, i: nat): (b: nat)
    ensures b < 2
    decreases i
  {
    if i == 0 then x % 2 else Bit(x / 2, i - 1)
  }

  /** x >> k */
  function Hi(x: nat, k: nat): nat
    decreases k
  {
    if k == 0 then x else Hi(x / 2, k - 1)
  }

  /** The k lowest bits of x. */
  function Lo(x: nat, k: nat): (r: nat)
    ensures r < Pow2(k)
    decreases k
  {
    if k == 0 then 0 else 2 * Lo(x / 2, k - 1) + x % 2
  }

  function B2N(b: bool): (n: nat)
  {
    if b then 1 else 0
  }

  // The C operators on words of `w` bits.

  function And(w: nat, a: nat, b: nat): (r: nat)
    ensures r < Pow2(w)
    decreases w
  {
    if w == 0 then 0
    else 2 * And(w - 1, a / 2, b / 2) + B2N(a % 2 == 1 && b % 2 == 1)
  }

  function Or(w: nat, a: nat, b: nat): (r: nat)
    ensures r < Pow2(w)
    decreases w
  {
    if w == 0 then 0
    else 2 * Or(w - 1, a / 2, b / 2) + B2N(a % 2 == 1 || b % 2 == 1)
  }

  function Xor(w: nat, a: nat, b: nat): (r: nat)
    ensures r < Pow2(w)
    decreases w
  {
    if w == 0 then 0
    else 2 * Xor(w - 1, a / 2, b / 2) + B2N(a % 2 != b % 2)
  }

  function Not(w: nat, a: nat): (r: nat)
    ensures r < Pow2(w)
    decreases w
  {
    if w == 0 then 0 else 2 * Not(w - 1, a / 2) + B2N(a % 2 == 0)
  }

  /** x + 1, wrapping around at 2^w. */
  function Inc(w: nat, x: nat): (r: nat)
    requires x < Pow2(w)
    ensures r < Pow2(w)
  {
    if x + 1 == Pow2(w) then 0 else x + 1
  }

  /** x << s on w bits. */
  function Shl(w: nat, x: nat, s: nat): (r: nat)
    ensures r < Pow2(w)
    decreases s
  {
    if s == 0 then Lo(x, w) else Shl(w, 2 * x, s - 1)
  }

  /** The lowest `w` bits of `x` in the opposite order. */
  function Rev(w: nat, x: nat): (r: nat)
    ensures r < Pow2(w)
    decreases w
  {
    if w == 0 then 0 else (if x % 2 == 1 then Pow2(w - 1) else 0) + Rev(w - 1, x / 2)
  }

  // ---------------------------------------------------------------------
  // Taking words apart

  lemma {:induction false} Pow2Mono(a: nat, b: nat)
    requires a <= b
    ensures Pow2(a) <= Pow2(b)
    ensures a < b ==> 2 * Pow2(a) <= Pow2(b)
    decreases b
  {
    if a < b {
      Pow2Mono(a, b - 1);
    }
  }

  lemma {:induction false} HiLoExt(x: nat, y: nat, k: nat)
    requires Hi(x, k) == Hi(y, k) && Lo(x, k) == Lo(y, k)
    ensures x == y
    decreases k
  {
    if k != 0 { HiLoExt(x / 2, y / 2, k - 1); }
  }

  lemma {:induction false} HiMono(x: nat, y: nat, k: nat)
    requires x <= y
    ensures Hi(x, k) <= Hi(y, k)
    ensures Hi(x, k) == Hi(y, k) ==> Lo(x, k) <= Lo(y, k)
    decreases k
  {
    if k != 0 {
      HiMono(x / 2, y / 2, k - 1);
      if Hi(x, k) == Hi(y, k) && Lo(x / 2, k - 1) == Lo(y / 2, k - 1) {
        HiLoExt(x / 2, y / 2, k - 1);
      }
    }
  }

  lemma {:induction false} HiBound(x: nat, a: nat, b: nat)
    requires x < Pow2(a + b)
    ensures Hi(x, a) < Pow2(b)
    decreases a
  {
    if a != 0 { HiBound(x / 2, a - 1, b); }
  }

  lemma {:induction false} LoId(x: nat, k: nat)
    ensures x < Pow2(k) <==> Hi(x, k) == 0
    ensures x < Pow2(k) ==> Lo(x, k) == x
    decreases k
  {
    if k != 0 { LoId(x / 2, k - 1); }
  }

  lemma {:induction false} HiZero(k: nat)
    ensures Hi(0, k) == 0 && Lo(0, k) == 0
  {
    if k != 0 { HiZero(k - 1); }
  }

  lemma {:induction false} HiHi(x: nat, a: nat, b: nat)
    ensures Hi(Hi(x, a), b) == Hi(x, a + b)
    ensures Lo(Lo(x, a + b), a) == Lo(x, a)
    ensures Hi(Lo(x, a + b), a) == Lo(Hi(x, a), b)
    decreases a
  {
    if a != 0 { HiHi(x / 2, a - 1, b); }
  }

  /** Lo one bit further: the top bit is bit k. */
  lemma {:induction false} LoTop(x: nat, k: nat)
    ensures Lo(x, k + 1) == Lo(x, k) + (if Bit(x, k) == 1 then Pow2(k) else 0)
    ensures Hi(x, k) == 2 * Hi(x, k + 1) + Bit(x, k)
    decreases k
  {
    if k != 0 { LoTop(x / 2, k - 1); }
  }

  lemma {:induction false} LoOnes(k: nat)
    ensures Lo(Pow2(k) - 1, k) == Pow2(k) - 1 && Hi(Pow2(k) - 1, k) == 0
  {
    LoId(Pow2(k) - 1, k);
  }

  /** Adding one to a word whose k lowest bits are ones carries into bit k. */
  lemma {:induction false} CarryOut(x: nat, k: nat)
    requires Lo(x, k) == Pow2(k) - 1
    ensures Hi(x + 1, k) == Hi(x, k) + 1 && Lo(x + 1, k) == 0
    decreases k
  {
    if k != 0 { CarryOut(x / 2, k - 1); }
  }

  // ---------------------------------------------------------------------
  // The operators act on Lo and Hi separately

  /** A number by its lowest bit and the rest. */
  lemma Halve(x: nat, q: nat, r: nat)
    requires x == 2 * q + r && r < 2
    ensures x / 2 == q && x % 2 == r
  {
  }

  lemma HiLoStep(x: nat, k: nat)
    requires k > 0
    ensures Hi(x, k) == Hi(x / 2, k - 1) && Lo(x, k) == 2 * Lo(x / 2, k - 1) + x % 2
  {
  }

  lemma BitStep(x: nat, i: nat)
    ensures Bit(x, i) == if i == 0 then x % 2 else Bit(x / 2, i - 1)
  {
  }

  lemma AndHalf(w: nat, a: nat, b: nat)
    requires w > 0
    ensures And(w, a, b) / 2 == And(w - 1, a / 2, b / 2) && And(w, a, b) % 2 == B2N(a % 2 == 1 && b % 2 == 1)
    ensures And(w, a, b) == 2 * And(w - 1, a / 2, b / 2) + B2N(a % 2 == 1 && b % 2 == 1)
  {
    Halve(And(w, a, b), And(w - 1, a / 2, b / 2), B2N(a % 2 == 1 && b % 2 == 1));
  }

  lemma OrHalf(w: nat, a: nat, b: nat)
    requires w > 0
    ensures Or(w, a, b) / 2 == Or(w - 1, a / 2, b / 2) && Or(w, a, b) % 2 == B2N(a % 2 == 1 || b % 2 == 1)
    ensures Or(w, a, b) == 2 * Or(w - 1, a / 2, b / 2) + B2N(a % 2 == 1 || b % 2 == 1)
  {
    Halve(Or(w, a, b), Or(w - 1, a / 2, b / 2), B2N(a % 2 == 1 || b % 2 == 1));
  }

  lemma XorHalf(w: nat, a: nat, b: nat)
    requires w > 0
    ensures Xor(w, a, b) / 2 == Xor(w - 1, a / 2, b / 2) && Xor(w, a, b) % 2 == B2N(a % 2 != b % 2)
    ensures Xor(w, a, b) == 2 * Xor(w - 1, a / 2, b / 2) + B2N(a % 2 != b % 2)
  {
    Halve(Xor(w, a, b), Xor(w - 1, a / 2, b / 2), B2N(a % 2 != b % 2));
  }

  lemma NotHalf(w: nat, a: nat)
    requires w > 0
    ensures Not(w, a) / 2 == Not(w - 1, a / 2) && Not(w, a) % 2 == B2N(a % 2 == 0)
    ensures Not(w, a) == 2 * Not(w - 1, a / 2) + B2N(a % 2 == 0)
  {
    Halve(Not(w, a), Not(w - 1, a / 2), B2N(a % 2 == 0));
  }

  lemma NoBits(a: nat, b: nat)
    ensures And(0, a, b) == Or(0, a, b) == Xor(0, a, b) == Not(0, a) == 0
    ensures Lo(a, 0) == 0 && Hi(a, 0) == a
  {
  }

  lemma {:induction false} AndSplit(w: nat, a: nat, b: nat, k: nat)
    requires k <= w
    ensures Lo(And(w, a, b), k) == And(k, a, b)
    ensures Hi(And(w, a, b), k) == And(w - k, Hi(a, k), Hi(b, k))
    decreases k
  {
    hide And, Lo, Hi;
    if k == 0 {
      NoBits(a, b);
      NoBits(And(w, a, b), 0);
      NoBits(b, 0);
    } else {
      AndHalf(w, a, b);
      AndHalf(k, a, b);
      HiLoStep(And(w, a, b), k);
      HiLoStep(a, k);
      HiLoStep(b, k);
      AndSplit(w - 1, a / 2, b / 2, k - 1);
    }
  }

  lemma {:induction false} OrSplit(w: nat, a: nat, b: nat, k: nat)
    requires k <= w
    ensures Lo(Or(w, a, b), k) == Or(k, a, b)
    ensures Hi(Or(w, a, b), k) == Or(w - k, Hi(a, k), Hi(b, k))
    decreases k
  {
    hide Or, Lo, Hi;
    if k == 0 {
      NoBits(a, b);
      NoBits(Or(w, a, b), 0);
      NoBits(b, 0);
    } else {
      OrHalf(w, a, b);
      OrHalf(k, a, b);
      HiLoStep(Or(w, a, b), k);
      HiLoStep(a, k);
      HiLoStep(b, k);
      OrSplit(w - 1, a / 2, b / 2, k - 1);
    }
  }

  lemma {:induction false} XorSplit(w: nat, a: nat, b: nat, k: nat)
    requires k <= w
    ensures Lo(Xor(w, a, b), k) == Xor(k, a, b)
    ensures Hi(Xor(w, a, b), k) == Xor(w - k, Hi(a, k), Hi(b, k))
    decreases k
  {
    hide Xor, Lo, Hi;
    if k == 0 {
      NoBits(a, b);
      NoBits(Xor(w, a, b), 0);
      NoBits(b, 0);
    } else {
      XorHalf(w, a, b);
      XorHalf(k, a, b);
      HiLoStep(Xor(w, a, b), k);
      HiLoStep(a, k);
      HiLoStep(b, k);
      XorSplit(w - 1, a / 2, b / 2, k - 1);
    }
  }

  lemma {:induction false} NotSplit(w: nat, a: nat, k: nat)
    requires k <= w
    ensures Lo(Not(w, a), k) == Not(k, a)
    ensures Hi(Not(w, a), k) == Not(w - k, Hi(a, k))
    decreases k
  {
    hide Not, Lo, Hi;
    if k == 0 {
      NoBits(a, 0);
      NoBits(Not(w, a), 0);
    } else {
      NotHalf(w, a);
      NotHalf(k, a);
      HiLoStep(Not(w, a), k);
      HiLoStep(a, k);
      NotSplit(w - 1, a / 2, k - 1);
    }
  }

  /** & | ^ ~ against all zeros and all ones. */
  lemma {:induction false} Units(w: nat, x: nat)
    ensures And(w, x, 0) == 0 && And(w, x, Pow2(w) - 1) == Lo(x, w)
    ensures Or(w, x, 0) == Lo(x, w) && Or(w, 0, x) == Lo(x, w)
    ensures Or(w, x, Pow2(w) - 1) == Pow2(w) - 1
    ensures Xor(w, 0, x) == Lo(x, w) && Xor(w, x, x) == 0
    ensures Not(w, 0) == Pow2(w) - 1 && Not(w, Pow2(w) - 1) == 0
    decreases w
  {
    hide And, Or, Xor, Not, Lo;
    if w == 0 {
      NoBits(x, 0); NoBits(0, x); NoBits(x, Pow2(0) - 1); NoBits(x, x); NoBits(Pow2(0) - 1, 0);
    } else {
      var m := Pow2(w) - 1;
      Halve(m, Pow2(w - 1) - 1, 1);
      AndHalf(w, x, 0); AndHalf(w, x, m);
      OrHalf(w, x, 0); OrHalf(w, 0, x); OrHalf(w, x, m);
      XorHalf(w, 0, x); XorHalf(w, x, x);
      NotHalf(w, 0); NotHalf(w, m);
      HiLoStep(x, w);
      Units(w - 1, x / 2);
    }
  }

  /** The operators read only the low w bits of their operands. */
  lemma {:induction false} ReadsLow(w: nat, a: nat, b: nat)
    ensures And(w, Lo(a, w), Lo(b, w)) == And(w, a, b)
    ensures Or(w, Lo(a, w), Lo(b, w)) == Or(w, a, b)
    ensures Not(w, Lo(a, w)) == Not(w, a)
    ensures Rev(w, Lo(a, w)) == Rev(w, a)
    decreases w
  {
    if w != 0 {
      assert Lo(a, w) / 2 == Lo(a / 2, w - 1) && Lo(a, w) % 2 == a % 2;
      assert Lo(b, w) / 2 == Lo(b / 2, w - 1) && Lo(b, w) % 2 == b % 2;
      ReadsLow(w - 1, a / 2, b / 2);
    }
  }

  /** x & (2^k - 1) keeps the k lowest bits. */
  lemma AndMask(w: nat, x: nat, k: nat)
    requires k <= w
    ensures And(w, x, Pow2(k) - 1) == Lo(x, k)
  {
    var m := Pow2(k) - 1;
    AndSplit(w, x, m, k);
    LoOnes(k);
    Units(k, x);
    Units(w - k, Hi(x, k));
    LoId(Lo(x, k), k);
    HiLoExt(And(w, x, m), Lo(x, k), k);
  }

  /** ~(2^k - 1) has zeros below bit k and ones from there on. */
  lemma NotMask(w: nat, k: nat)
    requires k <= w
    ensures Lo(Not(w, Pow2(k) - 1), k) == 0
    ensures Hi(Not(w, Pow2(k) - 1), k) == Pow2(w - k) - 1
  {
    NotSplit(w, Pow2(k) - 1, k);
    LoOnes(k);
    Units(k, 0);
    Units(w - k, 0);
  }

  lemma HalfMask(k: nat)
    requires k >= 1
    ensures (Pow2(k) - 1) / 2 == Pow2(k - 1) - 1 && (Pow2(k) - 1) % 2 == 1
  {
  }

  /** (2^k0 - 1) ^ (2^k1 - 1) has ones from bit k0 up to bit k1. */
  lemma {:induction false} XorMasks(w: nat, k0: nat, k1: nat, a: nat, b: nat)
    requires k0 <= k1 <= w && a == Pow2(k0) - 1 && b == Pow2(k1) - 1
    ensures Lo(Xor(w, a, b), k0) == 0
    ensures Hi(Xor(w, a, b), k0) == Pow2(k1 - k0) - 1
    decreases w
  {
    hide Xor, Lo, Hi;
    if k0 == 0 {
      Pow2Mono(k1, w);
      Units(w, b);
      LoId(b, w);
      LoHi0(Xor(w, a, b));
    } else {
      HalfMask(k0);
      HalfMask(k1);
      XorMasks(w - 1, k0 - 1, k1 - 1, a / 2, b / 2);
      XorDouble(w, k0, a, b);
    }
  }

  lemma LoHi0(x: nat)
    ensures Lo(x, 0) == 0 && Hi(x, 0) == x
  {
  }

  lemma XorDouble(w: nat, k: nat, a: nat, b: nat)
    requires w >= 1 && k >= 1 && a % 2 == b % 2
    ensures Lo(Xor(w, a, b), k) == 2 * Lo(Xor(w - 1, a / 2, b / 2), k - 1)
    ensures Hi(Xor(w, a, b), k) == Hi(Xor(w - 1, a / 2, b / 2), k - 1)
  {
  }

  lemma {:induction false} MaskSplit(k0: nat, k1: nat)
    requires k0 <= k1
    ensures Lo(Pow2(k1) - 1, k0) == Pow2(k0) - 1
    ensures Hi(Pow2(k1) - 1, k0) == Pow2(k1 - k0) - 1
    decreases k0
  {
    if k0 != 0 {
      assert (Pow2(k1) - 1) / 2 == Pow2(k1 - 1) - 1 && (Pow2(k1) - 1) % 2 == 1;
      MaskSplit(k0 - 1, k1 - 1);
    }
  }

  // ---------------------------------------------------------------------
  // Bit reversal

  /** Reversing one bit more appends that bit at the bottom. */
  lemma {:induction false} RevLast(w: nat, x: nat)
    ensures Rev(w + 1, x) == 2 * Rev(w, x) + Bit(x, w)
    decreases w
  {
    if w == 0 {
      assert Rev(1, x) == (if x % 2 == 1 then Pow2(0) else 0) + Rev(0, x / 2);
    } else {
      RevLast(w - 1, x / 2);
    }
  }

  lemma HalfWord(x: nat, y: nat, b: nat, n: nat)
    requires x == 2 * y + b && b < 2 && n >= 1
    ensures Hi(x, n) == Hi(y, n - 1) && Lo(x, n) == 2 * Lo(y, n - 1) + b
  {
    assert x / 2 == y && x % 2 == b;
  }

  lemma Rev0(x: nat)
    ensures Rev(0, x) == 0
  {
  }

  /** The high bits of a reversal are the reversal of the low bits. */
  lemma {:induction false} RevHi(w: nat, x: nat, n: nat)
    requires n <= w
    ensures Hi(Rev(w, x), n) == Rev(w - n, x)
    ensures Lo(Rev(w, x), n) == Rev(n, Hi(x, w - n))
    decreases n
  {
    hide *;
    if n == 0 {
      LoHi0(Rev(w, x));
      Rev0(Hi(x, w));
    } else {
      RevLast(w - 1, x);
      RevHi(w - 1, x, n - 1);
      RevLast(n - 1, Hi(x, w - n));
      BitHi(x, w - n, n - 1);
      HalfWord(Rev(w, x), Rev(w - 1, x), Bit(x, w - 1), n);
    }
  }

  lemma {:induction false} BitHi(x: nat, a: nat, i: nat)
    ensures Bit(Hi(x, a), i) == Bit(x, a + i)
    decreases a
  {
    if a != 0 { BitHi(x / 2, a - 1, i); }
  }

  lemma RevStep(w: nat, x: nat)
    requires w > 0
    ensures Rev(w, x) == (if x % 2 == 1 then Pow2(w - 1) else 0) + Rev(w - 1, x / 2)
  {
  }

  lemma {:induction false} RevInvolution(w: nat, x: nat)
    ensures Rev(w, Rev(w, x)) == Lo(x, w)
    decreases w
  {
    hide Bit;
    if w != 0 {
      RevLast(w - 1, x);
      Halve(Rev(w, x), Rev(w - 1, x), Bit(x, w - 1));
      RevStep(w, Rev(w, x));
      RevInvolution(w - 1, x);
      LoTop(x, w - 1);
    }
  }

  lemma {:induction false} RevEq(w: nat, x: nat, y: nat)
    ensures Rev(w, x) == Rev(w, y) <==> Lo(x, w) == Lo(y, w)
    decreases w
  {
    if w != 0 { RevEq(w - 1, x / 2, y / 2); }
  }

  lemma {:induction false} RevConstants(w: nat)
    ensures Rev(w, 0) == 0 && Rev(w, Pow2(w) - 1) == Pow2(w) - 1
  {
    if w != 0 {
      assert (Pow2(w) - 1) / 2 == Pow2(w - 1) - 1;
      RevConstants(w - 1);
    }
  }

  lemma {:induction false} BitOps(w: nat, a: nat, b: nat, i: nat)
    requires i < w
    ensures Bit(And(w, a, b), i) == 1 <==> Bit(a, i) == 1 && Bit(b, i) == 1
    ensures Bit(Or(w, a, b), i) == 1 <==> Bit(a, i) == 1 || Bit(b, i) == 1
    ensures Bit(Xor(w, a, b), i) == 1 <==> Bit(a, i) != Bit(b, i)
    ensures Bit(Not(w, a), i) == 1 <==> Bit(a, i) == 0
    decreases i
  {
    hide And, Or, Xor, Not, Bit;
    AndHalf(w, a, b);
    OrHalf(w, a, b);
    XorHalf(w, a, b);
    NotHalf(w, a);
    BitStep(And(w, a, b), i);
    BitStep(Or(w, a, b), i);
    BitStep(Xor(w, a, b), i);
    BitStep(Not(w, a), i);
    BitStep(a, i);
    BitStep(b, i);
    if i != 0 { BitOps(w - 1, a / 2, b / 2, i - 1); }
  }

  lemma {:induction false} BitLo(w: nat, x: nat, i: nat)
    requires i < w
    ensures Bit(Lo(x, w), i) == Bit(x, i)
    decreases i
  {
    if i != 0 { BitLo(w - 1, x / 2, i - 1); }
  }

  lemma {:induction false} BitOnes(w: nat, i: nat)
    requires i < w
    ensures Bit(Pow2(w) - 1, i) == 1
    decreases i
  {
    HalfMask(w);
    if i != 0 { BitOnes(w - 1, i - 1); }
  }

  lemma {:induction false} AndZero(w: nat, x: nat)
    ensures And(w, 0, x) == 0
    decreases w
  {
    if w != 0 { AndZero(w - 1, x / 2); }
  }
}
