/**
  The dense HyperLogLog representation (hyperloglog.c): 16384 registers of six
  bits packed into 12288 bytes, plus the terminator byte the macros touch.
  On bytes, x >> k is x / 2^k, x << k is x * 2^k and x & (2^k - 1) is x % 2^k.
 */
module HllDense {
  import opened Basics

  const HLL_REGISTERS: nat := 16384
  const HLL_REGISTER_MAX: nat := 63
  const DENSE_BYTES: nat := 12288

  /** Byte index and bit offset of a register. */
  function ByteOf(i: nat): nat { i * 6 / 8 }
  function BitOf(i: nat): nat { i * 6 % 8 }

  /** ((b0 >> fb) | (b1 << (8 - fb))) & 63: the two parts do not overlap; fb is 0, 2, 4 or 6. */
  function GetFrom(b0: nat, b1: nat, fb: nat): (r: nat)
    ensures r <= HLL_REGISTER_MAX
  {
    if fb == 0 then (b0 + b1 * 256) % 64
    else if fb == 2 then (b0 / 4 + b1 * 64) % 64
    else if fb == 4 then (b0 / 16 + b1 * 16) % 64
    else (b0 / 64 + b1 * 4) % 64
  }

  /** b &= ~(63 << fb); b |= v << fb, on eight bits */
  function SetLow(b: nat, fb: nat, v: nat): nat
  {
    if fb == 0 then b - b % 64 + v
    else if fb == 2 then b - b / 4 % 64 * 4 + v * 4 % 256
    else if fb == 4 then b - b / 16 % 64 * 16 + v * 16 % 256
    else b - b / 64 % 64 * 64 + v * 64 % 256
  }

  /** b &= ~(63 >> (8 - fb)); b |= v >> (8 - fb) */
  function SetHigh(b: nat, fb: nat, v: nat): nat
  {
    if fb == 0 then b + v / 256
    else if fb == 2 then b + v / 64
    else if fb == 4 then b - b % 4 + v / 16
    else b - b % 16 + v / 4
  }

  /** HLL_DENSE_GET_REGISTER */
  function Get(p: seq<Byte>, i: nat): (r: nat)
    requires i < HLL_REGISTERS && |p| == DENSE_BYTES + 1
    ensures r <= HLL_REGISTER_MAX
  {
    GetFrom(U(p[ByteOf(i)]), U(p[ByteOf(i) + 1]), BitOf(i))
  }

  lemma Offsets(i: nat, q: nat, c: nat)
    requires i == 4 * q + c && c < 4
    ensures ByteOf(i) == 3 * q + (if c == 0 then 0 else c - 1)
    ensures BitOf(i) == if c == 0 then 0 else 8 - 2 * c
  {
  }

  /** The two bytes after a set, with their fields named. */
  lemma SetFields(b0: nat, b1: nat, fb: nat, v: nat)
    requires b0 < 256 && b1 < 256 && v <= HLL_REGISTER_MAX && Fb(fb)
    ensures fb == 0 ==> SetLow(b0, fb, v) == b0 / 64 * 64 + v && SetHigh(b1, fb, v) == b1
    ensures fb == 2 ==> SetLow(b0, fb, v) == b0 % 4 + v * 4 && SetHigh(b1, fb, v) == b1
    ensures fb == 4 ==> SetLow(b0, fb, v) == b0 % 16 + v % 16 * 16 && SetHigh(b1, fb, v) == b1 / 4 * 4 + v / 16
    ensures fb == 6 ==> SetLow(b0, fb, v) == b0 % 64 + v % 4 * 64 && SetHigh(b1, fb, v) == b1 / 16 * 16 + v / 4
  {
    if fb == 0 { SetFields0(b0, b1, v); }
    else if fb == 2 { SetFields2(b0, b1, v); }
    else if fb == 4 { SetFields4(b0, b1, v); }
    else { SetFields6(b0, b1, v); }
  }

  lemma SetFields0(b0: nat, b1: nat, v: nat)
    requires b0 < 256 && b1 < 256 && v <= HLL_REGISTER_MAX
    ensures SetLow(b0, 0, v) == b0 / 64 * 64 + v && SetHigh(b1, 0, v) == b1
  {
  }

  lemma SetFields2(b0: nat, b1: nat, v: nat)
    requires b0 < 256 && b1 < 256 && v <= HLL_REGISTER_MAX
    ensures SetLow(b0, 2, v) == b0 % 4 + v * 4 && SetHigh(b1, 2, v) == b1
  {
    Mod64(b0 / 4, 0, b0 / 4);
    Mod256(v * 4, 0, v * 4);
  }

  lemma SetFields4(b0: nat, b1: nat, v: nat)
    requires b0 < 256 && b1 < 256 && v <= HLL_REGISTER_MAX
    ensures SetLow(b0, 4, v) == b0 % 16 + v % 16 * 16 && SetHigh(b1, 4, v) == b1 / 4 * 4 + v / 16
  {
    Mod64(b0 / 16, 0, b0 / 16);
    Mod256(v * 16, v / 16, v % 16 * 16);
  }

  lemma SetFields6(b0: nat, b1: nat, v: nat)
    requires b0 < 256 && b1 < 256 && v <= HLL_REGISTER_MAX
    ensures SetLow(b0, 6, v) == b0 % 64 + v % 4 * 64 && SetHigh(b1, 6, v) == b1 / 16 * 16 + v / 4
  {
    Mod64(b0 / 64, 0, b0 / 64);
    Mod256(v * 64, v / 4, v % 4 * 64);
  }

  lemma Mod256(x: nat, q: nat, r: nat)
    requires x == 256 * q + r && r < 256
    ensures x % 256 == r
  {
  }

  lemma Mod64(x: nat, q: nat, r: nat)
    requires x == 64 * q + r && r < 64
    ensures x % 64 == r
  {
  }

  /** Taking a byte apart again after putting it together. */
  lemma Fields(d: nat, hi: nat, lo: nat)
    requires lo < d && (d == 4 || d == 16 || d == 64)
    ensures (hi * d + lo) / d == hi && (hi * d + lo) % d == lo
  {
    if d == 4 { assert (hi * 4 + lo) / 4 == hi; }
    else if d == 16 { assert (hi * 16 + lo) / 16 == hi; }
    else { assert (hi * 64 + lo) / 64 == hi; }
  }

  /** What the get macro reads, with its fields named. */
  lemma GetFields(b0: nat, b1: nat, fb: nat)
    requires b0 < 256 && b1 < 256 && Fb(fb)
    ensures fb == 0 ==> GetFrom(b0, b1, fb) == b0 % 64
    ensures fb == 2 ==> GetFrom(b0, b1, fb) == b0 / 4
    ensures fb == 4 ==> GetFrom(b0, b1, fb) == b0 / 16 + b1 % 4 * 16
    ensures fb == 6 ==> GetFrom(b0, b1, fb) == b0 / 64 + b1 % 16 * 4
  {
    if fb == 0 {
      Mod64(b0 + b1 * 256, b0 / 64 + b1 * 4, b0 % 64);
    } else if fb == 2 {
      Mod64(b0 / 4 + b1 * 64, b1, b0 / 4);
    } else if fb == 4 {
      Mod64(b0 / 16 + b1 * 16, b1 / 4, b0 / 16 + b1 % 4 * 16);
    } else {
      Mod64(b0 / 64 + b1 * 4, b1 / 16, b0 / 64 + b1 % 16 * 4);
    }
  }

  predicate Fb(fb: nat) { fb == 0 || fb == 2 || fb == 4 || fb == 6 }

  lemma SetInByte0(b0: nat, b1: nat, v: nat)
    requires b0 < 256 && b1 < 256 && v <= HLL_REGISTER_MAX
    ensures b0 / 64 * 64 + v < 256
    ensures GetFrom(b0 / 64 * 64 + v, b1, 0) == v
  {
    hide GetFrom;
    Fields(64, b0 / 64, v);
    GetFields(b0 / 64 * 64 + v, b1, 0);
  }

  lemma SetInByte2(b0: nat, b1: nat, v: nat)
    requires b0 < 256 && b1 < 256 && v <= HLL_REGISTER_MAX
    ensures b0 % 4 + v * 4 < 256
    ensures GetFrom(b0 % 4 + v * 4, b1, 2) == v
  {
    hide GetFrom;
    Fields(4, v, b0 % 4);
    GetFields(b0 % 4 + v * 4, b1, 2);
  }

  lemma SetInByte4(b0: nat, b1: nat, v: nat)
    requires b0 < 256 && b1 < 256 && v <= HLL_REGISTER_MAX
    ensures b0 % 16 + v % 16 * 16 < 256 && b1 / 4 * 4 + v / 16 < 256
    ensures GetFrom(b0 % 16 + v % 16 * 16, b1 / 4 * 4 + v / 16, 4) == v
  {
    hide GetFrom;
    Fields(16, v % 16, b0 % 16);
    Fields(4, b1 / 4, v / 16);
    GetFields(b0 % 16 + v % 16 * 16, b1 / 4 * 4 + v / 16, 4);
  }

  lemma SetInByte6(b0: nat, b1: nat, v: nat)
    requires b0 < 256 && b1 < 256 && v <= HLL_REGISTER_MAX
    ensures b0 % 64 + v % 4 * 64 < 256 && b1 / 16 * 16 + v / 4 < 256
    ensures GetFrom(b0 % 64 + v % 4 * 64, b1 / 16 * 16 + v / 4, 6) == v
  {
    hide GetFrom;
    Fields(64, v % 4, b0 % 64);
    Fields(16, b1 / 16, v / 4);
    GetFields(b0 % 64 + v % 4 * 64, b1 / 16 * 16 + v / 4, 6);
  }

  lemma SetInByte(b0: nat, b1: nat, fb: nat, v: nat)
    requires b0 < 256 && b1 < 256 && v <= HLL_REGISTER_MAX && Fb(fb)
    ensures 0 <= SetLow(b0, fb, v) < 256 && 0 <= SetHigh(b1, fb, v) < 256
    ensures GetFrom(SetLow(b0, fb, v), SetHigh(b1, fb, v), fb) == v
  {
    hide SetLow, SetHigh, GetFrom;
    SetFields(b0, b1, fb, v);
    if fb == 0 { SetInByte0(b0, b1, v); }
    else if fb == 2 { SetInByte2(b0, b1, v); }
    else if fb == 4 { SetInByte4(b0, b1, v); }
    else { SetInByte6(b0, b1, v); }
  }

  /** The vector of registers that a dense representation stands for. */
  function Registers(p: seq<Byte>): (r: seq<nat>)
    requires |p| == DENSE_BYTES + 1
    ensures |r| == HLL_REGISTERS
  {
    seq(HLL_REGISTERS, i requires 0 <= i < HLL_REGISTERS => Get(p, i))
  }

  /** The two bytes HLL_DENSE_SET_REGISTER rewrites. */
  ghost predicate Rewritten(p: seq<Byte>, p': seq<Byte>, i: nat, v: nat)
    requires i < HLL_REGISTERS && |p| == DENSE_BYTES + 1
  {
    && |p'| == |p|
    && U(p'[ByteOf(i)]) == SetLow(U(p[ByteOf(i)]), BitOf(i), v)
    && U(p'[ByteOf(i) + 1]) == SetHigh(U(p[ByteOf(i) + 1]), BitOf(i), v)
    && forall k :: 0 <= k < |p| && k != ByteOf(i) && k != ByteOf(i) + 1 ==> p'[k] == p[k]
  }

  /** Reading any register after one has been set, across byte boundaries. */
  lemma GetAfterSet(p: seq<Byte>, p': seq<Byte>, i: nat, v: nat, j: nat)
    requires i < HLL_REGISTERS && j < HLL_REGISTERS && |p| == DENSE_BYTES + 1 && v <= HLL_REGISTER_MAX
    requires Rewritten(p, p', i, v)
    ensures Get(p', j) == if j == i then v else Get(p, j)
  {
    hide GetFrom, SetLow, SetHigh;
    var q, c := i / 4, i % 4;
    var r, d := j / 4, j % 4;
    Offsets(i, q, c);
    Offsets(j, r, d);
    SetInByte(U(p[ByteOf(i)]), U(p[ByteOf(i) + 1]), BitOf(i), v);
    var x, y := ByteOf(i), ByteOf(j);
    if i != j {
      if x == y {
        SameBytes(U(p[x]), U(p[x + 1]), BitOf(i), BitOf(j), v);
      } else if y == x + 1 {
        NextBytes(U(p[y]), U(p[y + 1]), BitOf(i), BitOf(j), v);
      } else if x == y + 1 {
        PreviousBytes(U(p[y]), U(p[x]), BitOf(i), BitOf(j), v);
      }
    }
  }

  /** The other register starts in the same byte: offsets 0 and 6. */
  lemma SameBytes(b0: nat, b1: nat, fb: nat, other: nat, v: nat)
    requires b0 < 256 && b1 < 256 && v <= HLL_REGISTER_MAX && ((fb == 0 && other == 6) || (fb == 6 && other == 0))
    ensures GetFrom(SetLow(b0, fb, v), SetHigh(b1, fb, v), other) == GetFrom(b0, b1, other)
  {
    hide SetLow, SetHigh, GetFrom;
    SetInByte(b0, b1, fb, v);
    SetFields(b0, b1, fb, v);
    GetFields(b0, b1, other);
    GetFields(SetLow(b0, fb, v), SetHigh(b1, fb, v), other);
    if fb == 0 { Fields(64, b0 / 64, v); } else { Fields(64, v % 4, b0 % 64); }
  }

  /** The other register starts in the next byte. */
  lemma NextBytes(b1: nat, b2: nat, fb: nat, other: nat, v: nat)
    requires b1 < 256 && b2 < 256 && v <= HLL_REGISTER_MAX
    requires (fb == 0 && other == 4) || (fb == 6 && other == 4) || (fb == 4 && other == 2) || (fb == 2 && (other == 0 || other == 6))
    ensures GetFrom(SetHigh(b1, fb, v), b2, other) == GetFrom(b1, b2, other)
  {
    hide SetLow, SetHigh, GetFrom;
    SetInByte(0, b1, fb, v);
    SetFields(0, b1, fb, v);
    GetFields(b1, b2, other);
    GetFields(SetHigh(b1, fb, v), b2, other);
    if fb == 4 { Fields(4, b1 / 4, v / 16); } else if fb == 6 { Fields(16, b1 / 16, v / 4); }
  }

  /** The other register starts in the previous byte. */
  lemma PreviousBytes(b0: nat, b1: nat, fb: nat, other: nat, v: nat)
    requires b0 < 256 && b1 < 256 && v <= HLL_REGISTER_MAX
    requires (fb == 4 && (other == 0 || other == 6)) || (fb == 2 && other == 4) || ((fb == 0 || fb == 6) && other == 2)
    ensures GetFrom(b0, SetLow(b1, fb, v), other) == GetFrom(b0, b1, other)
  {
    hide SetLow, SetHigh, GetFrom;
    SetInByte(b1, 0, fb, v);
    SetFields(b1, 0, fb, v);
    GetFields(b0, b1, other);
    GetFields(b0, SetLow(b1, fb, v), other);
    if fb == 4 { Fields(16, v % 16, b1 % 16); } else if fb == 2 { Fields(4, v, b1 % 4); }
  }

  lemma RegistersAfterSet(p: seq<Byte>, p': seq<Byte>, i: nat, v: nat)
    requires i < HLL_REGISTERS && |p| == DENSE_BYTES + 1 && v <= HLL_REGISTER_MAX
    requires Rewritten(p, p', i, v)
    ensures Registers(p') == Registers(p)[i := v]
  {
    hide Get, Rewritten;
    RewrittenLength(p, p', i, v);
    forall j: nat | j < HLL_REGISTERS ensures Registers(p')[j] == Registers(p)[i := v][j] {
      GetAfterSet(p, p', i, v, j);
    }
  }

  lemma RewrittenLength(p: seq<Byte>, p': seq<Byte>, i: nat, v: nat)
    requires i < HLL_REGISTERS && |p| == DENSE_BYTES + 1 && Rewritten(p, p', i, v)
    ensures |p'| == |p|
  {
  }

  /** HLL_DENSE_SET_REGISTER: changes register i and no other. */
  method SetRegister(p: array<Byte>, i: nat, v: nat)
    requires p.Length == DENSE_BYTES + 1 && i < HLL_REGISTERS && v <= HLL_REGISTER_MAX
    modifies p
    ensures Registers(p[..]) == old(Registers(p[..]))[i := v]
  {
    hide SetLow, SetHigh, Registers;
    var byte, fb := i * 6 / 8, i * 6 % 8;
    Offsets(i, i / 4, i % 4);
    SetInByte(U(p[byte]), U(p[byte + 1]), fb, v);
    p[byte] := SetLow(U(p[byte]), fb, v);
    p[byte + 1] := SetHigh(U(p[byte + 1]), fb, v);
    RegistersAfterSet(old(p[..]), p[..], i, v);
  }

  /** hllDenseAdd, given the register and the run length that hllPatLen found. */
  method DenseAdd(p: array<Byte>, index: nat, count: nat) returns (changed: bool)
    requires p.Length == DENSE_BYTES + 1 && index < HLL_REGISTERS && count <= HLL_REGISTER_MAX
    modifies p
    ensures Registers(p[..]) == old(Registers(p[..]))[index := Max(old(Registers(p[..]))[index], count)]
    ensures changed <==> old(Registers(p[..]))[index] < count
  {
    var regs := Registers(p[..]);
    var oldcount := Get(p[..], index);
    if count > oldcount {
      SetRegister(p, index, count);
      return true;
    }
    return false;
  }

  lemma {:induction false} ZeroBytes(p: seq<Byte>)
    requires |p| == DENSE_BYTES + 1 && forall k :: 0 <= k < |p| ==> p[k] == 0
    ensures Registers(p) == seq(HLL_REGISTERS, _ => 0)
  {
    forall i: nat | i < HLL_REGISTERS ensures Registers(p)[i] == 0 {
      Offsets(i, i / 4, i % 4);
    }
  }
}
