/**
  redisPopcount (bitops.c): counting the bits of a string seven 32-bit words at a time.
  Words are natural numbers; additions and multiplications wrap at 2^32 explicitly.
 */
module Popcount {
  import opened Basics
  import opened Words
  import opened BitStrings

  const TWO32: nat := 0x1_0000_0000

  /** Arithmetic on uint32_t. */
  function U32(x: int): nat { x % TWO32 }

  // ---------------------------------------------------------------------
  // Masks as digits

  /** 01 repeated n times, 0011 repeated n times, 00001111 repeated n times. */
  function Fives(n: nat): nat { if n == 0 then 0 else 1 + 4 * Fives(n - 1) }
  function Threes(n: nat): nat { if n == 0 then 0 else 3 + 16 * Threes(n - 1) }
  function Fifteens(n: nat): nat { if n == 0 then 0 else 15 + 256 * Fifteens(n - 1) }

  lemma MaskValues()
    ensures Fives(16) == 0x55555555 && Threes(8) == 0x33333333 && Fifteens(4) == 0x0F0F0F0F
  {
    assert Fives(4) == 0x55;
    assert Fives(8) == 0x5555;
    assert Fives(12) == 0x555555;
    assert Threes(4) == 0x3333;
  }

  lemma AndStep(w: nat, a: nat, b: nat)
    requires w > 0
    ensures And(w, a, b) == 2 * And(w - 1, a / 2, b / 2) + B2N(a % 2 == 1 && b % 2 == 1)
  {
  }

  lemma MaskTwo(w: nat, a: nat, m: nat, f: nat)
    requires w >= 2 && m < 4
    ensures And(w, a, m + 4 * f) == And(2, a % 4, m) + 4 * And(w - 2, a / 4, f)
  {
    hide And;
    var b := m + 4 * f;
    AndStep(w, a, b);
    AndStep(w - 1, a / 2, b / 2);
    AndStep(2, a % 4, m);
    AndStep(1, (a % 4) / 2, m / 2);
    AndNone((a % 4) / 2 / 2, m / 2 / 2);
    assert b / 2 / 2 == f && a / 2 / 2 == a / 4;
  }

  lemma AndNone(a: nat, b: nat)
    ensures And(0, a, b) == 0
  {
  }

  lemma TwoBits(a: nat)
    requires a < 4
    ensures And(2, a, 0) == 0 && And(2, a, 1) == a % 2 && And(2, a, 3) == a
  {
    hide And;
    AndStep(2, a, 0);
    AndStep(2, a, 1);
    AndStep(2, a, 3);
    AndStep(1, a / 2, 0);
    AndStep(1, a / 2, 1);
    AndNone(a / 4, 0);
    assert a / 2 / 2 == a / 4;
  }

  lemma MaskFives(w: nat, a: nat, f: nat)
    requires w >= 2
    ensures And(w, a, 1 + 4 * f) == a % 2 + 4 * And(w - 2, a / 4, f)
  {
    hide And;
    MaskTwo(w, a, 1, f);
    TwoBits(a % 4);
    Parity(a);
  }

  lemma Parity(a: nat)
    ensures (a % 4) % 2 == a % 2
  {
    var q, r := a / 4, a % 4;
    Halve(a, 2 * q + r / 2, r % 2);
  }

  lemma MaskThrees(w: nat, a: nat, f: nat)
    requires w >= 4
    ensures And(w, a, 3 + 16 * f) == a % 4 + 16 * And(w - 4, a / 16, f)
  {
    hide And;
    MaskTwo(w, a, 3, 4 * f);
    MaskTwo(w - 2, a / 4, 0, f);
    TwoBits(a % 4);
    TwoBits((a / 4) % 4);
    assert a / 4 / 4 == a / 16;
  }

  lemma MaskFifteens(w: nat, a: nat, f: nat)
    requires w >= 8
    ensures And(w, a, 15 + 256 * f) == a % 16 + 256 * And(w - 8, a / 256, f)
  {
    hide And;
    MaskTwo(w, a, 3, 3 + 64 * f);
    MaskTwo(w - 2, a / 4, 3, 16 * f);
    MaskTwo(w - 4, a / 16, 0, 4 * f);
    MaskTwo(w - 6, a / 64, 0, f);
    TwoBits(a % 4);
    TwoBits((a / 4) % 4);
    TwoBits((a / 16) % 4);
    TwoBits((a / 64) % 4);
    assert a / 4 / 4 == a / 16 && a / 16 / 4 == a / 64 && a / 64 / 4 == a / 256;
  }

  // ---------------------------------------------------------------------
  // Bit counts as digits

  /** Each of the n base-4, base-16 or base-256 digits of x replaced by its number of bits. */
  function PairSums(x: nat, n: nat): nat
    decreases n
  {
    if n == 0 then 0 else Ones(x, 2) + 4 * PairSums(x / 4, n - 1)
  }

  function NibbleSums(x: nat, n: nat): nat
    decreases n
  {
    if n == 0 then 0 else Ones(x, 4) + 16 * NibbleSums(x / 16, n - 1)
  }

  function ByteSums(x: nat, n: nat): nat
    decreases n
  {
    if n == 0 then 0 else Ones(x, 8) + 256 * ByteSums(x / 256, n - 1)
  }

  lemma OnesSplit(x: nat)
    ensures Ones(x, 2) == x % 2 + (x / 2) % 2
    ensures Ones(x, 4) == Ones(x, 2) + Ones(x / 4, 2)
    ensures Ones(x, 8) == Ones(x, 4) + Ones(x / 16, 4)
  {
    OnesFour(x);
    OnesFour(x / 16);
    OnesFourMore(x);
  }

  lemma OnesFour(x: nat)
    ensures Ones(x, 2) == x % 2 + (x / 2) % 2
    ensures Ones(x, 4) == Ones(x, 2) + Ones(x / 4, 2)
  {
    assert Ones(x, 2) == x % 2 + Ones(x / 2, 1);
    assert Ones(x / 2, 1) == (x / 2) % 2 + Ones(x / 2 / 2, 0);
    assert Ones(x, 4) == x % 2 + ((x / 2) % 2 + Ones(x / 2 / 2, 2));
    assert x / 2 / 2 == x / 4;
  }

  lemma OnesFourMore(x: nat)
    ensures Ones(x, 8) == Ones(x, 4) + Ones(x / 16, 4)
  {
    hide Ones;
    OnesStep(x, 8); OnesStep(x / 2, 7); OnesStep(x / 4, 6); OnesStep(x / 8, 5);
    OnesStep(x, 4); OnesStep(x / 2, 3); OnesStep(x / 4, 2); OnesStep(x / 8, 1); OnesStep(x / 16, 0);
    assert x / 2 / 2 == x / 4 && x / 4 / 2 == x / 8 && x / 8 / 2 == x / 16;
  }

  lemma OnesStep(x: nat, n: nat)
    ensures Ones(x, n) == if n == 0 then 0 else x % 2 + Ones(x / 2, n - 1)
  {
  }

  /** x - ((x >> 1) & 0x55555555): bits added to pairs. */
  lemma {:induction false} Pairs(x: nat, n: nat)
    requires x < Pow2(2 * n)
    ensures And(2 * n, x / 2, Fives(n)) <= x
    ensures x - And(2 * n, x / 2, Fives(n)) == PairSums(x, n)
    decreases n
  {
    hide And, Ones, Pow2;
    if n == 0 {
      AndNone(x / 2, 0);
      Pow2Four(0);
    } else {
      QuarterBound(x, 2 * n);
      Pairs(x / 4, n - 1);
      MaskFives(2 * n, x / 2, Fives(n - 1));
      LowPair(x);
      OnesSplit(x);
    }
  }

  lemma QuarterBound(x: nat, k: nat)
    requires k >= 2 && x < Pow2(k)
    ensures x / 4 < Pow2(k - 2)
  {
    assert Pow2(k) == 2 * Pow2(k - 1);
  }

  lemma LowPair(x: nat)
    ensures x == x % 2 + 2 * ((x / 2) % 2) + 4 * (x / 4) && x / 2 / 4 == x / 4 / 2
  {
    Quarter(x);
    Quarter(x / 2);
    Eighth(x / 4, x / 2);
  }

  /** Halving twice, by the two bits that are dropped. */
  lemma Quarter(x: nat)
    ensures x / 2 / 2 == x / 4 && x == 4 * (x / 4) + 2 * (x / 2 % 2) + x % 2
  {
    var h, r := x / 2, x % 2;
    var q, s := h / 2, h % 2;
    assert x == 2 * h + r && h == 2 * q + s;
    assert x == 4 * q + (2 * s + r) && 2 * s + r < 4;
  }

  lemma Eighth(q: nat, h: nat)
    requires h / 2 == q
    ensures h / 4 == q / 2
  {
    Quarter(h);
  }

  /** (a & 0x33333333) + ((a >> 2) & 0x33333333): pairs added to nibbles. */
  lemma {:induction false} Nibbles(x: nat, n: nat)
    ensures var a := PairSums(x, 2 * n);
            And(4 * n, a, Threes(n)) + And(4 * n, a / 4, Threes(n)) == NibbleSums(x, n)
    decreases n
  {
    hide And, Ones;
    var a := PairSums(x, 2 * n);
    if n == 0 {
      AndNone(a, 0);
      AndNone(a / 4, 0);
    } else {
      var rest := PairSums(x / 16, 2 * (n - 1));
      assert x / 4 / 4 == x / 16;
      assert a == Ones(x, 2) + 4 * Ones(x / 4, 2) + 16 * rest by {
        assert a == Ones(x, 2) + 4 * PairSums(x / 4, 2 * n - 1);
        assert PairSums(x / 4, 2 * n - 1) == Ones(x / 4, 2) + 4 * PairSums(x / 4 / 4, 2 * n - 2);
      }
      Nibbles(x / 16, n - 1);
      MaskThrees(4 * n, a, Threes(n - 1));
      MaskThrees(4 * n, a / 4, Threes(n - 1));
      OnesSplit(x);
      TwoDigits(a, Ones(x, 2), Ones(x / 4, 2), rest);
    }
  }

  lemma TwoDigits(a: nat, p: nat, q: nat, rest: nat)
    requires a == p + 4 * q + 16 * rest && p < 4 && q < 4
    ensures a % 4 == p && a / 16 == rest && (a / 4) % 4 == q && a / 4 / 16 == rest / 4
  {
    assert a / 4 == q + 4 * rest;
  }

  lemma TwoNibbles(x: nat, n: nat)
    requires n >= 2
    ensures NibbleSums(x, n) == Ones(x, 4) + 16 * Ones(x / 16, 4) + 256 * NibbleSums(x / 256, n - 2)
  {
    hide Ones;
    assert NibbleSums(x, n) == Ones(x, 4) + 16 * NibbleSums(x / 16, n - 1);
    assert x / 16 / 16 == x / 256;
  }

  /** (b + (b >> 4)) & 0x0F0F0F0F: nibbles added to bytes. */
  lemma {:induction false} NibblesToBytes(x: nat, n: nat)
    ensures var b := NibbleSums(x, 2 * n);
            And(8 * n, b + b / 16, Fifteens(n)) == ByteSums(x, n)
    decreases n
  {
    hide And, Ones, NibbleSums;
    var b := NibbleSums(x, 2 * n);
    if n == 0 {
      AndNone(b + b / 16, 0);
    } else {
      var rest := NibbleSums(x / 256, 2 * (n - 1));
      var p, q := Ones(x, 4), Ones(x / 16, 4);
      TwoNibbles(x, 2 * n);
      NibblesToBytes(x / 256, n - 1);
      MaskFifteens(8 * n, b + b / 16, Fifteens(n - 1));
      OnesSplit(x);
      LowDigit(rest, x / 256, 2 * (n - 1));
      CarryFree(p, q, rest, b);
    }
  }

  lemma CarryFree(p: nat, q: nat, rest: nat, b: nat)
    requires b == p + 16 * q + 256 * rest && p <= 4 && q <= 4 && rest % 16 <= 4
    ensures (b + b / 16) % 16 == p + q && (b + b / 16) / 256 == rest + rest / 16
  {
    Nibble(b, q + 16 * rest, p);
    var d, e := rest % 16, rest / 16;
    assert rest == 16 * e + d;
    var c := b + b / 16;
    assert c == (p + q) + 16 * (q + d) + 256 * (rest + e);
    Nibble(c, (q + d) + 16 * (rest + e), p + q);
    TopByte(c, rest + e, (p + q) + 16 * (q + d));
  }

  lemma Nibble(x: nat, q: nat, r: nat)
    requires x == 16 * q + r && r < 16
    ensures x / 16 == q && x % 16 == r
  {
  }

  lemma TopByte(x: nat, q: nat, r: nat)
    requires x == 256 * q + r && r < 256
    ensures x / 256 == q
  {
  }

  lemma LowDigit(rest: nat, x: nat, n: nat)
    requires rest == NibbleSums(x, n)
    ensures rest % 16 <= 4
  {
    hide Ones;
  }

  lemma {:induction false} NibbleBound(x: nat, n: nat)
    ensures 3 * NibbleSums(x, n) <= Pow2(4 * n) - 1
    decreases n
  {
    hide Ones;
    if n > 0 {
      NibbleBound(x / 16, n - 1);
      assert Pow2(4 * n) == 16 * Pow2(4 * (n - 1)) by { Pow2Four(4 * (n - 1)); }
    }
  }

  lemma Pow2Four(k: nat)
    ensures Pow2(k + 4) == 16 * Pow2(k) && Pow2(0) == 1
  {
    assert Pow2(k + 4) == 2 * Pow2(k + 3);
    assert Pow2(k + 2) == 2 * Pow2(k + 1);
  }

  lemma Pow32()
    ensures Pow2(32) == TWO32
  {
    Pow2Four(0); Pow2Four(4); Pow2Four(8); Pow2Four(12);
    Pow2Four(16); Pow2Four(20); Pow2Four(24); Pow2Four(28);
  }

  // ---------------------------------------------------------------------
  // The table

  /** bitsinbyte, sixteen entries to a row. */
  const BITS_IN_BYTE: seq<seq<nat>> := [
    [0, 1, 1, 2, 1, 2, 2, 3, 1, 2, 2, 3, 2, 3, 3, 4],
    [1, 2, 2, 3, 2, 3, 3, 4, 2, 3, 3, 4, 3, 4, 4, 5],
    [1, 2, 2, 3, 2, 3, 3, 4, 2, 3, 3, 4, 3, 4, 4, 5],
    [2, 3, 3, 4, 3, 4, 4, 5, 3, 4, 4, 5, 4, 5, 5, 6],
    [1, 2, 2, 3, 2, 3, 3, 4, 2, 3, 3, 4, 3, 4, 4, 5],
    [2, 3, 3, 4, 3, 4, 4, 5, 3, 4, 4, 5, 4, 5, 5, 6],
    [2, 3, 3, 4, 3, 4, 4, 5, 3, 4, 4, 5, 4, 5, 5, 6],
    [3, 4, 4, 5, 4, 5, 5, 6, 4, 5, 5, 6, 5, 6, 6, 7],
    [1, 2, 2, 3, 2, 3, 3, 4, 2, 3, 3, 4, 3, 4, 4, 5],
    [2, 3, 3, 4, 3, 4, 4, 5, 3, 4, 4, 5, 4, 5, 5, 6],
    [2, 3, 3, 4, 3, 4, 4, 5, 3, 4, 4, 5, 4, 5, 5, 6],
    [3, 4, 4, 5, 4, 5, 5, 6, 4, 5, 5, 6, 5, 6, 6, 7],
    [2, 3, 3, 4, 3, 4, 4, 5, 3, 4, 4, 5, 4, 5, 5, 6],
    [3, 4, 4, 5, 4, 5, 5, 6, 4, 5, 5, 6, 5, 6, 6, 7],
    [3, 4, 4, 5, 4, 5, 5, 6, 4, 5, 5, 6, 5, 6, 6, 7],
    [4, 5, 5, 6, 5, 6, 6, 7, 5, 6, 6, 7, 6, 7, 7, 8]]

  function BitsInByte(b: Byte): nat
  {
    BITS_IN_BYTE[b / 16][b % 16]
  }

  /** The number of bits of the sixteen half bytes. */
  const HALF: seq<nat> := [0, 1, 1, 2, 1, 2, 2, 3, 1, 2, 2, 3, 2, 3, 3, 4]

  /** A row of the table: the half byte's count on top of the row's own. */
  ghost predicate IsRow(row: seq<nat>, top: nat)
  {
    && |row| == 16
    && row[0] == top && row[1] == top + 1 && row[2] == top + 1 && row[3] == top + 2
    && row[4] == top + 1 && row[5] == top + 2 && row[6] == top + 2 && row[7] == top + 3
    && row[8] == top + 1 && row[9] == top + 2 && row[10] == top + 2 && row[11] == top + 3
    && row[12] == top + 2 && row[13] == top + 3 && row[14] == top + 3 && row[15] == top + 4
  }

  lemma TableRows()
    ensures |BITS_IN_BYTE| == 16 && forall i :: 0 <= i < 16 ==> IsRow(BITS_IN_BYTE[i], HALF[i])
  {
    hide IsRow;
    assert |BITS_IN_BYTE| == 16 && |HALF| == 16;
    forall i | 0 <= i < 16 ensures IsRow(BITS_IN_BYTE[i], HALF[i]) {
      if i < 4 { Rows0(i); } else if i < 8 { Rows4(i); } else if i < 12 { Rows8(i); } else { Rows12(i); }
    }
  }

  lemma Rows0(i: nat)
    requires i < 4
    ensures IsRow(BITS_IN_BYTE[i], HALF[i])
  {
    assert IsRow(BITS_IN_BYTE[0], 0) && IsRow(BITS_IN_BYTE[1], 1);
    assert IsRow(BITS_IN_BYTE[2], 1) && IsRow(BITS_IN_BYTE[3], 2);
  }

  lemma Rows4(i: nat)
    requires 4 <= i < 8
    ensures IsRow(BITS_IN_BYTE[i], HALF[i])
  {
    assert IsRow(BITS_IN_BYTE[4], 1) && IsRow(BITS_IN_BYTE[5], 2);
    assert IsRow(BITS_IN_BYTE[6], 2) && IsRow(BITS_IN_BYTE[7], 3);
  }

  lemma Rows8(i: nat)
    requires 8 <= i < 12
    ensures IsRow(BITS_IN_BYTE[i], HALF[i])
  {
    assert IsRow(BITS_IN_BYTE[8], 1) && IsRow(BITS_IN_BYTE[9], 2);
    assert IsRow(BITS_IN_BYTE[10], 2) && IsRow(BITS_IN_BYTE[11], 3);
  }

  lemma Rows12(i: nat)
    requires 12 <= i < 16
    ensures IsRow(BITS_IN_BYTE[i], HALF[i])
  {
    assert IsRow(BITS_IN_BYTE[12], 2) && IsRow(BITS_IN_BYTE[13], 3);
    assert IsRow(BITS_IN_BYTE[14], 3) && IsRow(BITS_IN_BYTE[15], 4);
  }

  lemma HalfIsOnes(a: nat)
    requires a < 16
    ensures HALF[a] == Ones(a, 4)
  {
    hide Ones;
    OnesNibble(a, a / 8, a / 4 % 2, a / 2 % 2, a % 2);
  }

  /** Half a byte by its four bits. */
  lemma OnesNibble(a: nat, w: nat, x: nat, y: nat, z: nat)
    requires a == 8 * w + 4 * x + 2 * y + z && w < 2 && x < 2 && y < 2 && z < 2
    ensures Ones(a, 4) == w + x + y + z
  {
    hide Ones;
    OnesStep(a, 4); OnesStep(4 * w + 2 * x + y, 3); OnesStep(2 * w + x, 2); OnesStep(w, 1); OnesStep(0, 0);
    assert a / 2 == 4 * w + 2 * x + y && (4 * w + 2 * x + y) / 2 == 2 * w + x;
  }

  /** The table holds the bit counts of its indices. */
  lemma TableIsOnes(b: Byte)
    ensures BitsInByte(b) == Ones(b, 8)
  {
    hide Ones, IsRow;
    TableRows();
    RowEntry(BITS_IN_BYTE[b / 16], HALF[b / 16], b % 16);
    HalfIsOnes(b / 16);
    HalfIsOnes(b % 16);
    OnesFourMore(b);
    LowNibble(b);
  }

  lemma RowEntry(row: seq<nat>, top: nat, j: nat)
    requires IsRow(row, top) && j < 16
    ensures |row| == 16 && row[j] == top + HALF[j]
  {
  }

  lemma LowNibble(b: nat)
    ensures Ones(b, 4) == Ones(b % 16, 4)
  {
    hide Lo, Ones;
    LoHi0(b / 16);
    LoDouble(b / 16, 0); LoDouble(2 * (b / 16), 1); LoDouble(4 * (b / 16), 2); LoDouble(8 * (b / 16), 3);
    OnesAdd(b % 16, 16 * (b / 16), 4);
  }

  // ---------------------------------------------------------------------
  // The 28-byte step

  /** The three steps on one word, as written with wrapping arithmetic. */
  function Folded(x: nat): nat
  {
    var a := U32(x - And(32, x / 2, 0x55555555));
    U32(And(32, a, 0x33333333) + And(32, a / 4, 0x33333333))
  }

  function Spread(a: nat): nat { And(32, U32(a + a / 16), 0x0F0F0F0F) }

  lemma SpreadFolded(x: nat)
    requires x < TWO32
    ensures Spread(Folded(x)) == ByteSums(x, 4)
  {
    hide And, PairSums, NibbleSums, ByteSums, Pow2, Fives, Threes, Fifteens;
    MaskValues();
    Pow32();
    Pairs(x, 16);
    Nibbles(x, 8);
    NibbleBound(x, 8);
    NibblesToBytes(x, 4);
    var a := x - And(32, x / 2, 0x55555555);
    assert U32(a) == a;
    var b := NibbleSums(x, 8);
    assert U32(b) == b && U32(b + b / 16) == b + b / 16;
  }

  /** A word in memory, least significant byte first. */
  function Load(s: seq<Byte>, k: nat): (x: nat)
    requires k + 4 <= |s|
    ensures x < TWO32
  {
    var a: nat, b: nat, c: nat, d: nat := s[k], s[k + 1], s[k + 2], s[k + 3];
    a + 0x100 * b + 0x10000 * c + 0x1000000 * d
  }

  lemma {:induction false} OnesAdd(b: nat, c: nat, n: nat)
    requires Lo(c, n) == 0
    ensures Ones(b + c, n) == Ones(b, n)
    decreases n
  {
    if n > 0 {
      OnesAdd(b / 2, c / 2, n - 1);
      assert (b + c) / 2 == b / 2 + c / 2;
    }
  }

  lemma {:induction false} LoDouble(c: nat, n: nat)
    requires Lo(c, n) == 0
    ensures Lo(2 * c, n + 1) == 0
  {
    assert (2 * c) / 2 == c;
  }

  lemma OnesOfByte(b: nat, rest: nat)
    ensures Ones(b + 256 * rest, 8) == Ones(b, 8)
  {
    hide Lo, Ones;
    LoHi0(rest);
    LoDouble(rest, 0); LoDouble(2 * rest, 1); LoDouble(4 * rest, 2); LoDouble(8 * rest, 3);
    LoDouble(16 * rest, 4); LoDouble(32 * rest, 5); LoDouble(64 * rest, 6); LoDouble(128 * rest, 7);
    OnesAdd(b, 256 * rest, 8);
  }

  /** The four bytes of the spread word count the bits of the four bytes loaded. */
  lemma LoadedSums(s: seq<Byte>, k: nat)
    requires k + 4 <= |s|
    ensures Spread(Folded(Load(s, k)))
            == Ones(s[k], 8) + 0x100 * Ones(s[k + 1], 8) + 0x10000 * Ones(s[k + 2], 8) + 0x1000000 * Ones(s[k + 3], 8)
    ensures Count(s, 8 * (k + 4)) == Count(s, 8 * k) + Ones(s[k], 8) + Ones(s[k + 1], 8) + Ones(s[k + 2], 8) + Ones(s[k + 3], 8)
  {
    hide Ones, Spread, Folded, Count;
    var x := Load(s, k);
    SpreadFolded(x);
    var a: nat, b: nat, c: nat, d: nat := s[k], s[k + 1], s[k + 2], s[k + 3];
    var r2 := c + 0x100 * d;
    var r1 := b + 0x100 * r2;
    OnesOfByte(a, r1);
    OnesOfByte(b, r2);
    OnesOfByte(c, d);
    assert x == a + 0x100 * r1;
    assert x / 256 == r1 && r1 / 256 == r2 && r2 / 256 == d;
    FourSums(x);
    CountByte(s, k); CountByte(s, k + 1); CountByte(s, k + 2); CountByte(s, k + 3);
  }

  lemma FourSums(x: nat)
    ensures ByteSums(x, 4) == Ones(x, 8) + 0x100 * Ones(x / 256, 8) + 0x10000 * Ones(x / 256 / 256, 8)
                              + 0x1000000 * Ones(x / 256 / 256 / 256, 8)
  {
    hide Ones;
    assert ByteSums(x, 4) == Ones(x, 8) + 256 * ByteSums(x / 256, 3);
    assert ByteSums(x / 256, 3) == Ones(x / 256, 8) + 256 * ByteSums(x / 256 / 256, 2);
    assert ByteSums(x / 256 / 256, 2) == Ones(x / 256 / 256, 8) + 256 * ByteSums(x / 256 / 256 / 256, 1);
    assert ByteSums(x / 256 / 256 / 256, 1) == Ones(x / 256 / 256 / 256, 8) + 256 * 0;
  }

  lemma Wraps(x: nat, y: nat, over: nat)
    requires x == y + TWO32 * over && y < TWO32
    ensures U32(x) == y
  {
  }

  /** Byte sums of at most 56 are added up exactly by the multiplication: 4 * 56 < 256. */
  lemma Gather(p: nat, q: nat, r: nat, t: nat)
    requires p <= 56 && q <= 56 && r <= 56 && t <= 56
    ensures U32(U32(p + 0x100 * q + 0x10000 * r + 0x1000000 * t) * 0x01010101) / 0x1000000 == p + q + r + t
  {
    hide U32;
    var sum := p + 0x100 * q + 0x10000 * r + 0x1000000 * t;
    Wraps(sum, sum, 0);
    var low := 0x10101 * p + 0x10100 * q + 0x10000 * r;
    var over := q + 0x101 * r + 0x10101 * t;
    Wraps(sum * 0x01010101, low + 0x1000000 * (p + q + r + t), over);
    assert low < 0x1000000;
  }

  /** The 28-byte step. */
  method CountBlock(s: seq<Byte>, p: nat) returns (r: nat)
    requires p + 28 <= |s|
    ensures Count(s, 8 * (p + 28)) == Count(s, 8 * p) + r
  {
    hide Ones, Spread, Folded, Count, Load, U32;
    var aux1, aux2, aux3, aux4 := Folded(Load(s, p)), Folded(Load(s, p + 4)), Folded(Load(s, p + 8)), Folded(Load(s, p + 12));
    var aux5, aux6, aux7 := Folded(Load(s, p + 16)), Folded(Load(s, p + 20)), Folded(Load(s, p + 24));
    r := U32(U32(Spread(aux1) + Spread(aux2) + Spread(aux3) + Spread(aux4) + Spread(aux5) + Spread(aux6) + Spread(aux7))
             * 0x01010101) / 0x1000000;
    LoadedSums(s, p); LoadedSums(s, p + 4); LoadedSums(s, p + 8); LoadedSums(s, p + 12);
    LoadedSums(s, p + 16); LoadedSums(s, p + 20); LoadedSums(s, p + 24);
    Gather(Column(s, p), Column(s, p + 1), Column(s, p + 2), Column(s, p + 3));
  }

  /** One byte of each of the seven words. */
  ghost function Column(s: seq<Byte>, p: nat): (c: nat)
    requires p + 24 < |s|
    ensures c <= 56
  {
    Ones(s[p], 8) + Ones(s[p + 4], 8) + Ones(s[p + 8], 8) + Ones(s[p + 12], 8) + Ones(s[p + 16], 8)
    + Ones(s[p + 20], 8) + Ones(s[p + 24], 8)
  }

  /** redisPopcount; `address` is where the string lies in memory. */
  method PopCount(s: seq<Byte>, address: nat) returns (bits: nat)
    ensures bits == Count(s, 8 * |s|)
  {
    hide Count, Ones, BitsInByte;
    bits := 0;
    var p := 0;
    CountNone(s);
    while (address + p) % 4 != 0 && p < |s|
      invariant p <= |s| && bits == Count(s, 8 * p)
      decreases |s| - p
    {
      CountByte(s, p);
      TableIsOnes(s[p]);
      bits := bits + BitsInByte(s[p]);
      p := p + 1;
    }
    while |s| - p >= 28
      invariant p <= |s| && bits == Count(s, 8 * p)
    {
      var r := CountBlock(s, p);
      bits := bits + r;
      p := p + 28;
    }
    while p < |s|
      invariant p <= |s| && bits == Count(s, 8 * p)
    {
      CountByte(s, p);
      TableIsOnes(s[p]);
      bits := bits + BitsInByte(s[p]);
      p := p + 1;
    }
  }

  lemma CountNone(s: seq<Byte>)
    ensures Count(s, 0) == 0
  {
  }
}
