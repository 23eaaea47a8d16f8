/**
  SUM(2^-reg) and the number of zero registers, computed over the dense, sparse
  and raw representations (hyperloglog.c), over exact reals; and hllMerge.
 */
module HllSum {
  import opened Basics
  import opened Words
  import opened HllDense
  import opened HllSparse

  /** PE[r]: 2^-r */
  function PE(r: nat): real
  {
    if r == 0 then 1.0 else PE(r - 1) / 2.0
  }

  /** PE[r] is 2^-r. */
  lemma {:induction false} PEPower(r: nat)
    ensures PE(r) * (Pow2(r) as real) == 1.0
  {
    if r > 0 {
      PEPower(r - 1);
      assert Pow2(r) as real == 2.0 * (Pow2(r - 1) as real);
      Halved(PE(r - 1), Pow2(r - 1) as real);
    }
  }

  lemma Halved(a: real, b: real)
    ensures (a / 2.0) * (2.0 * b) == a * b
  {
  }

  /** The sum that the count is made from, register by register. */
  function Sum(regs: seq<nat>): real
  {
    if regs == [] then 0.0 else Sum(regs[..|regs| - 1]) + PE(regs[|regs| - 1])
  }

  function Zeros(regs: seq<nat>): nat
  {
    if regs == [] then 0 else Zeros(regs[..|regs| - 1]) + if regs[|regs| - 1] == 0 then 1 else 0
  }

  lemma {:induction false} SumAppend(a: seq<nat>, b: seq<nat>)
    ensures Sum(a + b) == Sum(a) + Sum(b) && Zeros(a + b) == Zeros(a) + Zeros(b)
    decreases |b|
  {
    if b == [] {
      assert a + b == a;
    } else {
      assert (a + b)[..|a + b| - 1] == a + b[..|b| - 1];
      SumAppend(a, b[..|b| - 1]);
    }
  }

  lemma {:induction false} SumRep(v: nat, n: nat)
    ensures Sum(Rep(v, n)) == PE(v) * (n as real) && Zeros(Rep(v, n)) == if v == 0 then n else 0
  {
    if n != 0 {
      assert Rep(v, n)[..n - 1] == Rep(v, n - 1);
      SumRep(v, n - 1);
      assert PE(v) * (n as real) == PE(v) * ((n - 1) as real) + PE(v);
    }
  }

  lemma SumSnoc(a: seq<nat>, x: nat)
    ensures Sum(a + [x]) == Sum(a) + PE(x) && Zeros(a + [x]) == Zeros(a) + if x == 0 then 1 else 0
  {
    assert (a + [x])[..|a|] == a;
  }

  function Z(x: nat): nat { if x == 0 then 1 else 0 }

  /** Four consecutive registers. */
  lemma SumFour(regs: seq<nat>, i: nat)
    requires i + 4 <= |regs|
    ensures Sum(regs[..i + 4]) == Sum(regs[..i]) + PE(regs[i]) + PE(regs[i + 1]) + PE(regs[i + 2]) + PE(regs[i + 3])
    ensures Zeros(regs[..i + 4]) == Zeros(regs[..i]) + Z(regs[i]) + Z(regs[i + 1]) + Z(regs[i + 2]) + Z(regs[i + 3])
  {
    hide Sum, Zeros, PE;
    SumSnoc(regs[..i], regs[i]);
    assert regs[..i] + [regs[i]] == regs[..i + 1];
    SumSnoc(regs[..i + 1], regs[i + 1]);
    assert regs[..i + 1] + [regs[i + 1]] == regs[..i + 2];
    SumSnoc(regs[..i + 2], regs[i + 2]);
    assert regs[..i + 2] + [regs[i + 2]] == regs[..i + 3];
    SumSnoc(regs[..i + 3], regs[i + 3]);
    assert regs[..i + 3] + [regs[i + 3]] == regs[..i + 4];
  }

  /** The unrolled reads of hllDenseSum: three bytes hold four registers. */
  lemma UnrolledReads(p: seq<Byte>, q: nat)
    requires |p| == DENSE_BYTES + 1 && 4 * q + 4 <= HLL_REGISTERS
    ensures U(p[3 * q]) % 64 == Get(p, 4 * q)
    ensures (U(p[3 * q]) / 64 + U(p[3 * q + 1]) * 4) % 64 == Get(p, 4 * q + 1)
    ensures (U(p[3 * q + 1]) / 16 + U(p[3 * q + 2]) * 16) % 64 == Get(p, 4 * q + 2)
    ensures U(p[3 * q + 2]) / 4 % 64 == Get(p, 4 * q + 3)
  {
    Offsets(4 * q, q, 0);
    Offsets(4 * q + 1, q, 1);
    Offsets(4 * q + 2, q, 2);
    Offsets(4 * q + 3, q, 3);
    GetFields(U(p[3 * q]), U(p[3 * q + 1]), 0);
    GetFields(U(p[3 * q + 2]), U(p[3 * q + 3]), 2);
  }

  /** Four of the sixteen registers of one iteration, from bytes r[0..3]. */
  method FourRegisters(p: array<Byte>, q: nat) returns (a: nat, b: nat, c: nat, d: nat)
    requires p.Length == DENSE_BYTES + 1 && 4 * q + 4 <= HLL_REGISTERS
    ensures var regs := Registers(p[..]);
            a == regs[4 * q] && b == regs[4 * q + 1] && c == regs[4 * q + 2] && d == regs[4 * q + 3]
  {
    hide Get;
    var r := 3 * q;
    UnrolledReads(p[..], q);
    a := U(p[r]) % 64;
    b := (U(p[r]) / 64 + U(p[r + 1]) * 4) % 64;
    c := (U(p[r + 1]) / 16 + U(p[r + 2]) * 16) % 64;
    d := U(p[r + 2]) / 4 % 64;
  }

  /** hllDenseSum: 1024 turns of sixteen registers each. */
  method DenseSum(p: array<Byte>) returns (E: real, ez: nat)
    requires p.Length == DENSE_BYTES + 1
    ensures E == Sum(Registers(p[..])) && ez == Zeros(Registers(p[..]))
  {
    hide Sum, Zeros, PE, Registers;
    E, ez := 0.0, 0;
    ghost var regs := Registers(p[..]);
    assert regs[..0] == [] && Sum([]) == 0.0 && Zeros([]) == 0 by { SumEmpty(); }
    for j := 0 to 1024
      invariant E == Sum(regs[..16 * j]) && ez == Zeros(regs[..16 * j])
    {
      var r0, r1, r2, r3 := FourRegisters(p, 4 * j);
      var r4, r5, r6, r7 := FourRegisters(p, 4 * j + 1);
      var r8, r9, r10, r11 := FourRegisters(p, 4 * j + 2);
      var r12, r13, r14, r15 := FourRegisters(p, 4 * j + 3);
      ez := ez + Z(r0) + Z(r1) + Z(r2) + Z(r3) + Z(r4) + Z(r5) + Z(r6) + Z(r7)
          + Z(r8) + Z(r9) + Z(r10) + Z(r11) + Z(r12) + Z(r13) + Z(r14) + Z(r15);
      E := E + (PE(r0) + PE(r1)) + (PE(r2) + PE(r3)) + (PE(r4) + PE(r5)) +
           (PE(r6) + PE(r7)) + (PE(r8) + PE(r9)) + (PE(r10) + PE(r11)) +
           (PE(r12) + PE(r13)) + (PE(r14) + PE(r15));
      SumFour(regs, 16 * j);
      SumFour(regs, 16 * j + 4);
      SumFour(regs, 16 * j + 8);
      SumFour(regs, 16 * j + 12);
    }
    assert regs[..HLL_REGISTERS] == regs;
  }

  lemma SumEmpty()
    ensures Sum([]) == 0.0 && Zeros([]) == 0
  {
  }

  /** hllSparseSum; `invalid` reports a string that does not describe 16384 registers. */
  method SparseSum(s: seq<Byte>) returns (E: real, ez: nat, invalid: bool)
    requires WellFormed(s)
    ensures E == Sum(Decode(s)) && ez == Zeros(Decode(s))
    ensures invalid <==> |Decode(s)| != HLL_REGISTERS
  {
    hide Sum, Zeros, PE, Decode, WellFormed;
    E, ez := 0.0, 0;
    var idx, p := 0, 0;
    EmptyOk(s);
    SumEmpty();
    while p < |s|
      invariant p <= |s| && WellFormed(s[..p]) && WellFormed(s[p..])
      invariant idx == |Decode(s[..p])| && ez == Zeros(Decode(s[..p])) && E + (ez as real) == Sum(Decode(s[..p]))
      decreases |s| - p
    {
      SplitAt(s, p);
      SumAppend(Decode(s[..p]), Decode(s[p..p + OpSize(s[p])]));
      SumRep(HeadValue(s[p..]), HeadLen(s[p..]));
      PEZero();
      if IsZero(s[p]) {
        var runlen := ZeroLen(s[p]);
        idx, ez, p := idx + runlen, ez + runlen, p + 1;
      } else if IsXZero(s[p]) {
        var runlen := XZeroLen(s[p], s[p + 1]);
        idx, ez, p := idx + runlen, ez + runlen, p + 2;
      } else {
        var runlen := ValLen(s[p]);
        var regval := ValValue(s[p]);
        idx, p := idx + runlen, p + 1;
        E := E + PE(regval) * (runlen as real);
      }
    }
    assert s[..p] == s;
    invalid := idx != HLL_REGISTERS;
    E := E + (ez as real);
  }

  lemma PEZero()
    ensures PE(0) == 1.0
  {
  }

  /** hllRawSum: one byte per register, eight at a time, whole zero words skipped. */
  method RawSum(regs: seq<nat>) returns (E: real, ez: nat)
    requires |regs| == HLL_REGISTERS
    ensures E == Sum(regs) && ez == Zeros(regs)
  {
    hide Sum, Zeros, PE;
    E, ez := 0.0, 0;
    SumEmpty();
    PEZero();
    assert regs[..0] == [];
    for j := 0 to HLL_REGISTERS / 8
      invariant E + (ez as real) == Sum(regs[..8 * j]) && ez == Zeros(regs[..8 * j])
    {
      SumFour(regs, 8 * j);
      SumFour(regs, 8 * j + 4);
      if regs[8 * j] == 0 && regs[8 * j + 1] == 0 && regs[8 * j + 2] == 0 && regs[8 * j + 3] == 0
         && regs[8 * j + 4] == 0 && regs[8 * j + 5] == 0 && regs[8 * j + 6] == 0 && regs[8 * j + 7] == 0
      {
        ez := ez + 8;
      } else {
        var k := 0;
        ghost var E0, ez0 := E, ez;
        while k < 8
          invariant k <= 8
          invariant E + (ez as real) == Sum(regs[..8 * j + k]) && ez == Zeros(regs[..8 * j + k])
        {
          SumSnoc(regs[..8 * j + k], regs[8 * j + k]);
          assert regs[..8 * j + k] + [regs[8 * j + k]] == regs[..8 * j + k + 1];
          if regs[8 * j + k] != 0 { E := E + PE(regs[8 * j + k]); } else { ez := ez + 1; }
          k := k + 1;
        }
      }
    }
    assert regs[..HLL_REGISTERS] == regs;
    E := E + (ez as real);
  }

  /** The three sums agree on any representations of the same registers. */
  method SumsAgree(p: array<Byte>, s: seq<Byte>, raw: seq<nat>)
    returns (E1: real, z1: nat, E2: real, z2: nat, invalid: bool, E3: real, z3: nat)
    requires p.Length == DENSE_BYTES + 1 && WellFormed(s) && |raw| == HLL_REGISTERS
    requires Registers(p[..]) == Decode(s) == raw
    ensures E1 == E2 == E3 && z1 == z2 == z3 && !invalid
  {
    hide Sum, Zeros, PE, Registers, Decode, WellFormed;
    E1, z1 := DenseSum(p);
    E2, z2, invalid := SparseSum(s);
    E3, z3 := RawSum(raw);
  }

  // ---------------------------------------------------------------------
  // hllMerge

  function MaxAll(a: seq<nat>, b: seq<nat>): (r: seq<nat>)
    requires |a| == |b|
    ensures |r| == |a|
  {
    seq(|a|, i requires 0 <= i < |a| => Max(a[i], b[i]))
  }

  /** Pointwise maximum on the first |b| registers, the rest as before. */
  ghost predicate MergedUpTo(now: seq<nat>, before: seq<nat>, b: seq<nat>)
  {
    && |now| == |before| && |b| <= |now|
    && (forall i :: 0 <= i < |b| ==> now[i] == Max(before[i], b[i]))
    && forall i :: |b| <= i < |now| ==> now[i] == before[i]
  }

  /** The dense branch of hllMerge. */
  method MergeDense(max: array<nat>, p: array<Byte>)
    requires max.Length == HLL_REGISTERS && p.Length == DENSE_BYTES + 1
    modifies max
    ensures max[..] == MaxAll(old(max[..]), Registers(p[..]))
  {
    hide Get;
    ghost var regs := Registers(p[..]);
    for i := 0 to HLL_REGISTERS
      invariant forall k :: 0 <= k < i ==> max[k] == Max(old(max[k]), regs[k])
      invariant forall k :: i <= k < HLL_REGISTERS ==> max[k] == old(max[k])
    {
      var val := Get(p[..], i);
      if val > max[i] { max[i] := val; }
    }
  }

  /** A VAL run of the sparse branch. */
  method MergeRun(max: array<nat>, start: nat, runlen: nat, regval: nat, ghost before: seq<nat>, ghost done: seq<nat>)
    requires max.Length == HLL_REGISTERS && start == |done| && start + runlen <= HLL_REGISTERS
    requires MergedUpTo(max[..], before, done)
    modifies max
    ensures MergedUpTo(max[..], before, done + Rep(regval, runlen))
  {
    var k := 0;
    while k < runlen
      invariant k <= runlen
      invariant MergedUpTo(max[..], before, done + Rep(regval, k))
    {
      ghost var now := max[..];
      if regval > max[start + k] { max[start + k] := regval; }
      assert max[..] == now[start + k := Max(before[start + k], regval)];
      assert done + Rep(regval, k + 1) == (done + Rep(regval, k)) + [regval];
      k := k + 1;
    }
  }

  /** The sparse branch of hllMerge; false is REDIS_ERR. */
  method MergeSparse(max: array<nat>, s: seq<Byte>) returns (ok: bool)
    requires max.Length == HLL_REGISTERS && WellFormed(s) && |Decode(s)| <= HLL_REGISTERS
    modifies max
    ensures ok <==> |Decode(s)| == HLL_REGISTERS
    ensures ok ==> max[..] == MaxAll(old(max[..]), Decode(s))
  {
    hide Decode, WellFormed, Rep;
    ghost var before := max[..];
    var p, i := 0, 0;
    EmptyOk(s);
    while p < |s|
      invariant p <= |s| && WellFormed(s[..p]) && WellFormed(s[p..]) && i == |Decode(s[..p])|
      invariant MergedUpTo(max[..], before, Decode(s[..p]))
      decreases |s| - p
    {
      SplitAt(s, p);
      Whole(s, p);
      ghost var done := Decode(s[..p]);
      if IsZero(s[p]) {
        MergeZeros(max[..], before, done, HeadLen(s[p..]));
        i, p := i + ZeroLen(s[p]), p + 1;
      } else if IsXZero(s[p]) {
        MergeZeros(max[..], before, done, HeadLen(s[p..]));
        i, p := i + XZeroLen(s[p], s[p + 1]), p + 2;
      } else {
        MergeRun(max, i, ValLen(s[p]), ValValue(s[p]), before, done);
        i, p := i + ValLen(s[p]), p + 1;
      }
    }
    assert s[..p] == s;
    ok := i == HLL_REGISTERS;
  }

  lemma MergeZeros(now: seq<nat>, before: seq<nat>, done: seq<nat>, n: nat)
    requires MergedUpTo(now, before, done) && |done| + n <= |now|
    ensures MergedUpTo(now, before, done + Rep(0, n))
  {
    var b := done + Rep(0, n);
    forall i | 0 <= i < |b| ensures now[i] == Max(before[i], b[i]) {
      if i >= |done| { assert b[i] == 0; }
    }
  }

  /** Adding to one register and merging commute: PFMERGE of two sets is the HLL of their union. */
  lemma RaiseThenMerge(a: seq<nat>, b: seq<nat>, index: nat, count: nat)
    requires |a| == |b| && index < |b|
    ensures MaxAll(a, b[index := Max(b[index], count)])
         == MaxAll(a, b)[index := Max(MaxAll(a, b)[index], count)]
  {
    var l, r := MaxAll(a, b[index := Max(b[index], count)]), MaxAll(a, b)[index := Max(MaxAll(a, b)[index], count)];
    forall i | 0 <= i < |a| ensures l[i] == r[i] { }
  }
}
