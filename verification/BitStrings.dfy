/** Strings as rows of bits, most significant bit of the first byte first (bitops.c). */
module BitStrings {
  import opened Basics
  import opened Words

  /** Bit p of a string that is zero padded on the right. */
  predicate BitOf(s: seq<Byte>, p: nat)
  {
    p / 8 < |s| && Bit(s[p / 8], 7 - p % 8) == 1
  }

  /** How many of the first n bits of a string are set. */
  function Count(s: seq<Byte>, n: nat): nat
  {
    if n == 0 then 0 else Count(s, n - 1) + B2N(BitOf(s, n - 1))
  }

  /** How many of the n lowest bits of a number are set. */
  function Ones(x: nat, n: nat): (r: nat)
    ensures r <= n
    decreases n
  {
    if n == 0 then 0 else x % 2 + Ones(x / 2, n - 1)
  }

  lemma {:induction false} OnesTop(x: nat, n: nat)
    ensures Ones(x, n + 1) == Ones(x, n) + Bit(x, n)
    decreases n
  {
    if n != 0 { OnesTop(x / 2, n - 1); }
  }

  lemma CountStep(s: seq<Byte>, k: nat, r: nat)
    requires k < |s| && r < 8
    ensures Count(s, 8 * k + r + 1) == Count(s, 8 * k + r) + Bit(s[k], 7 - r)
  {
    hide Bit;
    assert (8 * k + r) / 8 == k && (8 * k + r) % 8 == r;
  }

  /** Bits r and later of a byte, counted from the left. */
  lemma {:induction false} CountRest(s: seq<Byte>, k: nat, r: nat)
    requires k < |s| && r <= 8
    ensures Count(s, 8 * (k + 1)) == Count(s, 8 * k + r) + Ones(s[k], 8 - r)
    decreases 8 - r
  {
    hide Bit, Count;
    if r < 8 {
      CountStep(s, k, r);
      CountRest(s, k, r + 1);
      OnesTop(s[k], 7 - r);
    }
  }

  lemma CountByte(s: seq<Byte>, k: nat)
    requires k < |s|
    ensures Count(s, 8 * (k + 1)) == Count(s, 8 * k) + Ones(s[k], 8)
  {
    hide Count, Ones;
    CountRest(s, k, 0);
  }
}
