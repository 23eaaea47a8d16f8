/**
  The sparse HyperLogLog representation (hyperloglog.c): a run-length code edited
  in place. ZERO is 00xxxxxx, XZERO is 01xxxxxx yyyyyyyy, VAL is 1vvvvvxx.
 */
module HllSparse {
  import opened Basics
  import opened Words
  import opened HllDense

  const VAL_MAX_VALUE: nat := 32
  const VAL_MAX_LEN: nat := 4
  const ZERO_MAX_LEN: nat := 64
  const XZERO_MAX_LEN: nat := 16384
  const HLL_HDR_SIZE: nat := 16

  // The HLL_SPARSE_* macros

  predicate IsZero(b: Byte) { b < 64 }
  predicate IsXZero(b: Byte) { 64 <= b < 128 }
  predicate IsVal(b: Byte) { 128 <= b }
  function ZeroLen(b: Byte): (n: nat) { U(b) % 64 + 1 }
  function XZeroLen(b: Byte, c: Byte): (n: nat) { U(b) % 64 * 256 + U(c) + 1 }
  function ValValue(b: Byte): (n: nat) ensures 1 <= n <= VAL_MAX_VALUE { U(b) / 4 % 32 + 1 }
  function ValLen(b: Byte): (n: nat) ensures 1 <= n <= VAL_MAX_LEN { U(b) % 4 + 1 }

  function ValSet(val: nat, len: nat): Byte
    requires 1 <= val <= VAL_MAX_VALUE && 1 <= len <= VAL_MAX_LEN
  {
    (val - 1) * 4 + (len - 1) + 128
  }

  function ZeroSet(len: nat): Byte
    requires 1 <= len <= ZERO_MAX_LEN
  {
    len - 1
  }

  function XZeroSet(len: nat): seq<Byte>
    requires 1 <= len <= XZERO_MAX_LEN
  {
    [(len - 1) / 256 + 64, (len - 1) % 256]
  }

  // ---------------------------------------------------------------------
  // What a byte string stands for

  function OpSize(b: Byte): nat { if IsXZero(b) then 2 else 1 }

  /** Every opcode is complete. */
  predicate WellFormed(s: seq<Byte>)
    decreases |s|
  {
    s == [] || (OpSize(s[0]) <= |s| && WellFormed(s[OpSize(s[0])..]))
  }

  /** The value and the length of the run at the head of s. */
  function HeadValue(s: seq<Byte>): nat
    requires s != []
  {
    if IsVal(s[0]) then ValValue(s[0]) else 0
  }

  function HeadLen(s: seq<Byte>): (n: nat)
    requires s != [] && OpSize(s[0]) <= |s|
    ensures n >= 1
  {
    if IsZero(s[0]) then ZeroLen(s[0]) else if IsVal(s[0]) then ValLen(s[0]) else XZeroLen(s[0], s[1])
  }

  function Rep(v: nat, n: nat): (r: seq<nat>)
    ensures |r| == n
  {
    seq(n, _ => v)
  }

  /** The registers a well-formed string describes. */
  function Decode(s: seq<Byte>): seq<nat>
    requires WellFormed(s)
    decreases |s|
  {
    if s == [] then [] else Rep(HeadValue(s), HeadLen(s)) + Decode(s[OpSize(s[0])..])
  }

  lemma Unfold(s: seq<Byte>)
    ensures s == [] ==> WellFormed(s) && Decode(s) == []
    ensures s != [] ==> OpSize(s[0]) >= 1
    ensures s != [] ==> (WellFormed(s) <==> OpSize(s[0]) <= |s| && WellFormed(s[OpSize(s[0])..]))
    ensures s != [] && WellFormed(s) ==> Decode(s) == Rep(HeadValue(s), HeadLen(s)) + Decode(s[OpSize(s[0])..])
  {
  }

  lemma {:induction false} Append(a: seq<Byte>, b: seq<Byte>)
    requires WellFormed(a) && WellFormed(b)
    ensures WellFormed(a + b) && Decode(a + b) == Decode(a) + Decode(b)
    decreases |a|
  {
    hide *;
    Unfold(a);
    Unfold(a + b);
    if a == [] {
      assert a + b == b;
      assert Decode(a) + Decode(b) == Decode(b);
    } else {
      SameHead(a, b);
      var n := OpSize(a[0]);
      assert (a + b)[n..] == a[n..] + b;
      Append(a[n..], b);
      var head: seq<nat> := Rep(HeadValue(a), HeadLen(a));
      assert head + (Decode(a[n..]) + Decode(b)) == (head + Decode(a[n..])) + Decode(b);
    }
  }

  lemma SameHead(a: seq<Byte>, b: seq<Byte>)
    requires a != [] && OpSize(a[0]) <= |a|
    ensures (a + b)[0] == a[0] && HeadValue(a + b) == HeadValue(a) && HeadLen(a + b) == HeadLen(a)
  {
  }

  /** One opcode at position p of a string that is well formed up to there and from there on. */
  lemma SplitAt(s: seq<Byte>, p: nat)
    requires p < |s| && WellFormed(s[..p]) && WellFormed(s[p..])
    ensures var n := OpSize(s[p]);
            && p + n <= |s| && WellFormed(s[p..p + n]) && WellFormed(s[..p + n]) && WellFormed(s[p + n..])
            && Decode(s[p..p + n]) == Rep(HeadValue(s[p..]), HeadLen(s[p..]))
            && Decode(s[..p + n]) == Decode(s[..p]) + Decode(s[p..p + n])
            && Decode(s[p..]) == Decode(s[p..p + n]) + Decode(s[p + n..])
  {
    var n := OpSize(s[p]);
    assert s[p..][n..] == s[p + n..];
    var op := s[p..p + n];
    assert op[n..] == [];
    assert WellFormed([]) && Decode([]) == [];
    assert Decode(op) == Rep(HeadValue(op), HeadLen(op)) + [];
    assert s[..p] + op == s[..p + n];
    Append(s[..p], op);
    assert op + s[p + n..] == s[p..];
    Append(op, s[p + n..]);
  }

  lemma Whole(s: seq<Byte>, p: nat)
    requires p <= |s| && WellFormed(s[..p]) && WellFormed(s[p..])
    ensures WellFormed(s) && Decode(s) == Decode(s[..p]) + Decode(s[p..])
  {
    assert s == s[..p] + s[p..];
    Append(s[..p], s[p..]);
  }

  lemma ValOp(val: nat, len: nat)
    requires 1 <= val <= VAL_MAX_VALUE && 1 <= len <= VAL_MAX_LEN
    ensures IsVal(ValSet(val, len)) && ValValue(ValSet(val, len)) == val && ValLen(ValSet(val, len)) == len
    ensures WellFormed([ValSet(val, len)]) && Decode([ValSet(val, len)]) == Rep(val, len)
  {
    ValBits(val, len);
    hide ValSet, ValValue, ValLen;
    OneOp(ValSet(val, len));
  }

  lemma ValBits(val: nat, len: nat)
    requires 1 <= val <= VAL_MAX_VALUE && 1 <= len <= VAL_MAX_LEN
    ensures IsVal(ValSet(val, len)) && ValValue(ValSet(val, len)) == val && ValLen(ValSet(val, len)) == len
  {
    var b, q := U(ValSet(val, len)), val - 1 + 32;
    assert b == q * 4 + (len - 1);
    Fields(4, q, len - 1);
    assert q % 32 == val - 1;
  }

  lemma OneOp(b: Byte)
    requires IsVal(b)
    ensures WellFormed([b]) && Decode([b]) == Rep(ValValue(b), ValLen(b))
  {
    hide ValValue, ValLen, Rep;
    var s := [b];
    Unfold(s);
    Unfold([]);
    assert s[1..] == [];
    assert Rep(ValValue(b), ValLen(b)) + [] == Rep(ValValue(b), ValLen(b));
  }

  /** The zero run the split code writes: ZERO up to 64 registers, XZERO above. */
  function ZeroRun(len: nat): seq<Byte>
    requires 1 <= len <= XZERO_MAX_LEN
  {
    if len > ZERO_MAX_LEN then XZeroSet(len) else [ZeroSet(len)]
  }

  lemma ZeroRunOp(len: nat)
    requires 1 <= len <= XZERO_MAX_LEN
    ensures WellFormed(ZeroRun(len)) && Decode(ZeroRun(len)) == Rep(0, len)
    ensures |ZeroRun(len)| == if len > ZERO_MAX_LEN then 2 else 1
  {
    var s := ZeroRun(len);
    assert WellFormed([]) && Decode([]) == [];
    if len > ZERO_MAX_LEN {
      assert s[2..] == [] && IsXZero(s[0]);
      assert U(s[0]) % 64 == (len - 1) / 256 by { assert (len - 1) / 256 < 64; }
      assert HeadLen(s) == len;
    } else {
      assert s[1..] == [] && IsZero(s[0]);
      assert HeadLen(s) == len;
    }
  }

  // ---------------------------------------------------------------------
  // hllPatLen

  /** Length of the pattern 000..1 from bit 14 on, and the register index. The hash is a 64-bit number. */
  method PatLen(hash: nat) returns (count: nat, index: nat)
    ensures index == hash % HLL_REGISTERS
    ensures 1 <= count <= 50
    ensures forall i :: 14 <= i < 13 + count ==> Bit(hash, i) == 0
    ensures count == 50 || Bit(hash, 13 + count) == 1
  {
    index := hash % HLL_REGISTERS;
    var bit := 14;
    count := 1;
    while bit < 63 && Bit(hash, bit) == 0  // bit 63 has been forced to 1
      invariant 14 <= bit <= 63 && count == bit - 13
      invariant forall i :: 14 <= i < bit ==> Bit(hash, i) == 0
      decreases 63 - bit
    {
      count := count + 1;
      bit := bit + 1;
    }
  }

  // ---------------------------------------------------------------------
  // hllSparseToDense

  /** The inner loop of the conversion: a run of registers set one by one. */
  method SetRun(dense: array<Byte>, idx: nat, len: nat, v: nat)
    requires dense.Length == DENSE_BYTES + 1 && idx + len <= HLL_REGISTERS && v <= HLL_REGISTER_MAX
    modifies dense
    ensures Registers(dense[..]) == old(Registers(dense[..]))[..idx] + Rep(v, len) + old(Registers(dense[..]))[idx + len..]
  {
    hide Registers;
    ghost var before := Registers(dense[..]);
    var k := 0;
    assert before == before[..idx] + Rep(v, 0) + before[idx..];
    while k < len
      invariant k <= len
      invariant Registers(dense[..]) == before[..idx] + Rep(v, k) + before[idx + k..]
    {
      SetRegister(dense, idx + k, v);
      assert (before[..idx] + Rep(v, k) + before[idx + k..])[idx + k := v]
          == before[..idx] + Rep(v, k + 1) + before[idx + (k + 1)..];
      k := k + 1;
    }
  }

  /** The registers of the opcodes read so far, zeros behind them. */
  ghost predicate Filled(regs: seq<nat>, done: seq<nat>)
  {
    |done| <= HLL_REGISTERS && regs == done + Rep(0, HLL_REGISTERS - |done|)
  }

  /** One turn of the conversion loop. */
  method ConvertOp(s: seq<Byte>, p: nat, dense: array<Byte>, idx: nat) returns (p': nat, idx': nat)
    requires WellFormed(s) && |Decode(s)| <= HLL_REGISTERS && dense.Length == DENSE_BYTES + 1
    requires p < |s| && WellFormed(s[..p]) && WellFormed(s[p..]) && idx == |Decode(s[..p])|
    requires Filled(Registers(dense[..]), Decode(s[..p]))
    modifies dense
    ensures p < p' <= |s| && WellFormed(s[..p']) && WellFormed(s[p'..]) && idx' == |Decode(s[..p'])|
    ensures Filled(Registers(dense[..]), Decode(s[..p']))
  {
    hide Registers, Decode, WellFormed, Rep, ZeroLen, XZeroLen, ValLen, ValValue, Filled;
    SplitAt(s, p);
    Whole(s, p);
    ghost var done := Decode(s[..p]);
    var runlen, regval := 0, 0;
    if IsZero(s[p]) {
      runlen := ZeroLen(s[p]);
      p' := p + 1;
    } else if IsXZero(s[p]) {
      runlen := XZeroLen(s[p], s[p + 1]);
      p' := p + 2;
    } else {
      runlen := ValLen(s[p]);
      regval := ValValue(s[p]);
      SetRun(dense, idx, runlen, regval);
      p' := p + 1;
    }
    idx' := idx + runlen;
    FilledRun(old(Registers(dense[..])), Registers(dense[..]), done, runlen, regval);
  }

  /** A run written behind the registers already done; a run of zeros is there already. */
  lemma FilledRun(regs: seq<nat>, regs': seq<nat>, done: seq<nat>, n: nat, v: nat)
    requires Filled(regs, done) && |done| + n <= HLL_REGISTERS
    requires regs' == regs[..|done|] + Rep(v, n) + regs[|done| + n..] || (v == 0 && regs' == regs)
    ensures Filled(regs', done + Rep(v, n))
  {
    hide Rep;
    FillRun(done, n, v);
    FillRun(done, n, 0);
  }

  /** hllSparseToDense: null when the registers do not add up to 16384. */
  method SparseToDense(s: seq<Byte>) returns (dense: array?<Byte>)
    requires WellFormed(s) && |Decode(s)| <= HLL_REGISTERS
    ensures dense == null <==> |Decode(s)| != HLL_REGISTERS
    ensures dense != null ==> fresh(dense) && dense.Length == DENSE_BYTES + 1 && Registers(dense[..]) == Decode(s)
  {
    hide Registers, Decode, WellFormed, Filled;
    var d := new Byte[DENSE_BYTES + 1](_ => 0);
    EmptyOk(s);
    StartFilled(d[..], Decode(s[..0]));
    var p: nat, idx: nat := 0, 0;
    while p < |s|
      invariant p <= |s| && WellFormed(s[..p]) && WellFormed(s[p..]) && idx == |Decode(s[..p])|
      invariant Filled(Registers(d[..]), Decode(s[..p]))
      decreases |s| - p
    {
      p, idx := ConvertOp(s, p, d, idx);
    }
    assert s[..p] == s;
    if idx != HLL_REGISTERS { return null; }
    EndFilled(Registers(d[..]), Decode(s));
    return d;
  }

  lemma StartFilled(p: seq<Byte>, done: seq<nat>)
    requires |p| == DENSE_BYTES + 1 && (forall k :: 0 <= k < |p| ==> p[k] == 0) && done == []
    ensures Filled(Registers(p), done)
  {
    hide Registers;
    ZeroDense(p);
  }

  lemma EndFilled(regs: seq<nat>, done: seq<nat>)
    requires Filled(regs, done) && |done| == HLL_REGISTERS
    ensures regs == done
  {
  }

  lemma ZeroDense(p: seq<Byte>)
    requires |p| == DENSE_BYTES + 1 && forall k :: 0 <= k < |p| ==> p[k] == 0
    ensures Registers(p) == Rep(0, HLL_REGISTERS)
  {
    hide Registers;
    ZeroBytes(p);
  }

  /** Registers after a run has been written behind those already done. */
  lemma FillRun(done: seq<nat>, n: nat, v: nat)
    requires |done| + n <= HLL_REGISTERS
    ensures var before := done + Rep(0, HLL_REGISTERS - |done|);
            var rest := Rep(0, HLL_REGISTERS - (|done| + n));
            && before == done + Rep(0, n) + rest
            && before[..|done|] + Rep(v, n) + before[|done| + n..] == done + Rep(v, n) + rest
  {
  }

  lemma EmptyOk(s: seq<Byte>)
    requires WellFormed(s)
    ensures WellFormed(s[..0]) && Decode(s[..0]) == [] && WellFormed(s[0..])
    ensures Rep(0, HLL_REGISTERS) == [] + Rep(0, HLL_REGISTERS)
  {
    assert s[..0] == [] && s[0..] == s;
  }

  // ---------------------------------------------------------------------
  // hllSparseAdd, step by step

  /** Step 1: find the opcode that covers a register; prev is -1 at the first opcode. */
  method Locate(s: seq<Byte>, index: nat) returns (prev: int, p: nat, first: nat, span: nat)
    requires WellFormed(s) && index < |Decode(s)|
    ensures p < |s| && WellFormed(s[..p]) && WellFormed(s[p..])
    ensures first == |Decode(s[..p])| && span == HeadLen(s[p..]) && first <= index < first + span
    ensures prev == -1 || (0 <= prev < p && WellFormed(s[..prev]) && WellFormed(s[prev..p]))
  {
    hide Decode, WellFormed;
    prev, p, first, span := -1, 0, 0, 0;
    EmptyOk(s);
    while true
      invariant p <= |s| && WellFormed(s[..p]) && WellFormed(s[p..])
      invariant first == |Decode(s[..p])| <= index
      invariant prev == -1 || (0 <= prev < p && WellFormed(s[..prev]) && WellFormed(s[prev..p]))
      decreases |s| - p
    {
      Whole(s, p);
      NotAtEnd(s, p, index);
      SplitAt(s, p);
      var oplen := 1;
      if IsZero(s[p]) {
        span := ZeroLen(s[p]);
      } else if IsVal(s[p]) {
        span := ValLen(s[p]);
      } else {
        span := XZeroLen(s[p], s[p + 1]);
        oplen := 2;
      }
      if index <= first + span - 1 { return; }
      prev := p;
      p := p + oplen;
      first := first + span;
    }
  }

  lemma NotAtEnd(s: seq<Byte>, p: nat, index: nat)
    requires p <= |s| && WellFormed(s[..p]) && WellFormed(s) && |Decode(s[..p])| <= index < |Decode(s)|
    ensures p < |s|
  {
    assert s[..|s|] == s;
  }

  /** Cases D: the opcodes that replace a run of more than one register. */
  method SplitRun(s: seq<Byte>, p: nat, first: nat, span: nat, index: nat, count: nat) returns (code: seq<Byte>)
    requires p < |s| && OpSize(s[p]) <= |s| - p && span == HeadLen(s[p..]) && first <= index < first + span
    requires 1 <= count <= VAL_MAX_VALUE
    ensures WellFormed(code) && Decode(code) == Rep(HeadValue(s[p..]), span)[index - first := count]
    ensures |code| <= OpSize(s[p]) + 3
  {
    hide Decode, WellFormed, ValSet, ZeroRun;
    var last := first + span - 1;
    var curval := if IsVal(s[p]) then ValValue(s[p]) else 0;
    code := [];
    ghost var done: seq<nat> := [];
    NothingYet();
    if index != first {
      var len := index - first;
      if IsVal(s[p]) { ValOp(curval, len); } else { ZeroRunOp(len); }
      var run := if IsVal(s[p]) then [ValSet(curval, len)] else ZeroRun(len);
      Append(code, run);
      code := code + run;
      done := done + Rep(curval, len);
    }
    ValOp(count, 1);
    Append(code, [ValSet(count, 1)]);
    code := code + [ValSet(count, 1)];
    done := done + Rep(count, 1);
    if index != last {
      var len := last - index;
      if IsVal(s[p]) { ValOp(curval, len); } else { ZeroRunOp(len); }
      var run := if IsVal(s[p]) then [ValSet(curval, len)] else ZeroRun(len);
      Append(code, run);
      code := code + run;
      done := done + Rep(curval, len);
    }
    assert done == Rep(curval, span)[index - first := count];
  }

  lemma NothingYet()
    ensures WellFormed([]) && Decode([]) == []
  {
  }

  /** Replacing the opcode at p by code that differs in one register. */
  lemma ReplaceOp(s: seq<Byte>, p: nat, first: nat, span: nat, index: nat, count: nat, code: seq<Byte>)
    requires p < |s| && WellFormed(s[..p]) && WellFormed(s[p..])
    requires first == |Decode(s[..p])| && span == HeadLen(s[p..]) && first <= index < first + span
    requires WellFormed(code) && Decode(code) == Rep(HeadValue(s[p..]), span)[index - first := count]
    ensures var n := OpSize(s[p]);
            && p + n <= |s| && WellFormed(s) && index < |Decode(s)|
            && WellFormed(s[..p] + code + s[p + n..])
            && Decode(s[..p] + code + s[p + n..]) == Decode(s)[index := count]
            && Decode(s)[index] == HeadValue(s[p..])
  {
    hide Decode, WellFormed;
    var n := OpSize(s[p]);
    SplitAt(s, p);
    Whole(s, p);
    Append(s[..p], code);
    Append(s[..p] + code, s[p + n..]);
    var a: seq<nat>, b: seq<nat>, c: seq<nat> := Decode(s[..p]), Rep(HeadValue(s[p..]), span), Decode(s[p + n..]);
    assert Decode(s) == a + (b + c);
    assert (a + (b + c))[index := count] == a + b[index - first := count] + c;
  }

  /** Step 4: try to merge adjacent VAL opcodes, looking at up to five opcodes from position start on. */
  method MergeValues(s: seq<Byte>, start: nat) returns (r: seq<Byte>, ghost stop: nat)
    requires start <= |s| && WellFormed(s[..start]) && WellFormed(s[start..])
    ensures WellFormed(s) && WellFormed(r) && Decode(r) == Decode(s) && |r| <= |s|
    ensures start <= stop <= |r| && r[..start] == s[..start] && Unmergeable(r, start, stop)
    ensures stop == |r| || Opcodes(r, start, stop) + (|s| - |r|) == SCAN_LEN
  {
    hide Decode, WellFormed, ValSet, ValLen, ValValue;
    Whole(s, start);
    r := s;
    var p: nat := start;
    var scanlen := SCAN_LEN;
    while p < |r| && scanlen > 0
      invariant start <= p <= |r| <= |s| && WellFormed(r[..p]) && WellFormed(r[p..]) && WellFormed(r) && Decode(r) == Decode(s)
      invariant r[..start] == s[..start] && Unmergeable(r, start, p)
      invariant 0 <= scanlen && Opcodes(r, start, p) + (|s| - |r|) + scanlen == SCAN_LEN
      decreases scanlen
    {
      scanlen := scanlen - 1;
      SplitAt(r, p);
      ghost var before, q := r, p;
      if IsXZero(r[p]) {
        p := p + 2;
      } else if IsZero(r[p]) {
        p := p + 1;
      } else if p + 1 < |r| && IsVal(r[p + 1])
                && ValValue(r[p]) == ValValue(r[p + 1])
                && ValLen(r[p]) + ValLen(r[p + 1]) <= VAL_MAX_LEN
      {
        var v1 := ValValue(r[p]);
        var len := ValLen(r[p]) + ValLen(r[p + 1]);
        var merged := ValSet(v1, len);
        MergeTwo(r, p, merged);
        var t := r[p + 1 := merged];       // write the merged opcode over the second one
        r := t[..p] + t[p + 1..];          // memmove(p, p+1, end-p)
        assert r[..start] == before[..start];
        ValBits(v1, len);
        MergedNext(before, r, start, p);
      } else {
        p := p + 1;
      }
      if p > q { OneMore(r, start, q); }
    }
    stop := p;
  }

  const SCAN_LEN: nat := 5

  /** Two adjacent VAL opcodes with the same value and room for both lengths in one. */
  predicate Mergeable(r: seq<Byte>, p: nat)
  {
    && p + 1 < |r| && IsVal(r[p]) && IsVal(r[p + 1])
    && ValValue(r[p]) == ValValue(r[p + 1]) && ValLen(r[p]) + ValLen(r[p + 1]) <= VAL_MAX_LEN
  }

  /** Opcodes begin at p and at stop, and none from p on, before stop, can be merged with the next one. */
  predicate Unmergeable(r: seq<Byte>, p: nat, stop: nat)
    decreases stop - p
  {
    p == stop || (p < stop <= |r| && !Mergeable(r, p) && Unmergeable(r, p + OpSize(r[p]), stop))
  }

  /** How many opcodes lie between the two positions. */
  function Opcodes(r: seq<Byte>, p: nat, stop: nat): nat
    decreases stop - p
  {
    if p < stop <= |r| then 1 + Opcodes(r, p + OpSize(r[p]), stop) else 0
  }

  lemma {:induction false} OneMore(r: seq<Byte>, p: nat, stop: nat)
    requires Unmergeable(r, p, stop) && stop < |r| && stop + OpSize(r[stop]) <= |r| && !Mergeable(r, stop)
    ensures Unmergeable(r, p, stop + OpSize(r[stop]))
    ensures Opcodes(r, p, stop + OpSize(r[stop])) == Opcodes(r, p, stop) + 1
    decreases stop - p
  {
    hide Mergeable;
    if p < stop { OneMore(r, p + OpSize(r[p]), stop); }
  }

  /** After a merge at stop the opcodes before it still cannot be merged: the value is the same and the length greater. */
  lemma {:induction false} MergedNext(r: seq<Byte>, r': seq<Byte>, p: nat, stop: nat)
    requires Unmergeable(r, p, stop) && stop < |r| && stop < |r'| && r'[..stop] == r[..stop]
    requires IsVal(r[stop]) && IsVal(r'[stop]) && ValValue(r'[stop]) == ValValue(r[stop]) && ValLen(r'[stop]) >= ValLen(r[stop])
    ensures Unmergeable(r', p, stop) && Opcodes(r', p, stop) == Opcodes(r, p, stop)
    decreases stop - p
  {
    hide ValValue, ValLen;
    if p < stop {
      assert r'[p] == r'[..stop][p] == r[..stop][p] == r[p];
      if p + 1 < stop { assert r'[p + 1] == r'[..stop][p + 1] == r[..stop][p + 1] == r[p + 1]; }
      MergedNext(r, r', p + OpSize(r[p]), stop);
    }
  }

  lemma MergeTwo(s: seq<Byte>, p: nat, merged: Byte)
    requires p + 1 < |s| && WellFormed(s[..p]) && WellFormed(s[p..]) && IsVal(s[p]) && IsVal(s[p + 1])
    requires ValValue(s[p]) == ValValue(s[p + 1]) && ValLen(s[p]) + ValLen(s[p + 1]) <= VAL_MAX_LEN
    requires merged == ValSet(ValValue(s[p]), ValLen(s[p]) + ValLen(s[p + 1]))
    ensures var t := s[p + 1 := merged];
            var r := t[..p] + t[p + 1..];
            && r[..p] == s[..p] && WellFormed(r[p..]) && WellFormed(r) && WellFormed(s) && Decode(r) == Decode(s)
  {
    hide Decode, WellFormed, ValSet, ValLen, ValValue;
    var v, l1, l2 := ValValue(s[p]), ValLen(s[p]), ValLen(s[p + 1]);
    SplitAt(s, p);
    SplitAt(s, p + 1);
    Whole(s, p);
    ValOp(v, l1 + l2);
    var t := s[p + 1 := merged];
    var r := t[..p] + t[p + 1..];
    assert r == s[..p] + ([merged] + s[p + 2..]);
    Append([merged], s[p + 2..]);
    Append(s[..p], [merged] + s[p + 2..]);
    assert r[..p] == s[..p] && r[p..] == [merged] + s[p + 2..];
    assert Rep(v, l1) + (Rep(v, l2) + Decode(s[p + 2..])) == Rep(v, l1 + l2) + Decode(s[p + 2..]);
  }

  /** Steps 2 to 4: the sparse string with one register raised, or None if it would become too long. */
  datatype Edit = Unchanged | Edited(s: seq<Byte>) | MustPromote

  method EditSparse(s: seq<Byte>, index: nat, count: nat, maxBytes: nat) returns (e: Edit)
    requires WellFormed(s) && index < |Decode(s)| && 1 <= count <= VAL_MAX_VALUE
    ensures e.Unchanged? <==> Decode(s)[index] >= count
    ensures e.Edited? ==> WellFormed(e.s) && Decode(e.s) == Decode(s)[index := count]
    ensures e.Edited? ==> |e.s| <= |s| || HLL_HDR_SIZE + |e.s| <= maxBytes
    ensures e.MustPromote? ==> HLL_HDR_SIZE + |s| + 3 > maxBytes
  {
    hide Decode, WellFormed, ValSet, ValLen, ValValue, ZeroLen, XZeroLen;
    var prev, p, first, span := Locate(s, index);
    SplitAt(s, p);
    var oldlen := if IsXZero(s[p]) then 2 else 1;
    var code;
    if IsVal(s[p]) {
      var oldcount := ValValue(s[p]);
      HeadRegister(s, p, first, span, index, count);
      if oldcount >= count { return Unchanged; }
    } else {
      HeadRegister(s, p, first, span, index, count);
    }
    if !IsXZero(s[p]) && span == 1 {
      code := [ValSet(count, 1)];
      ValOp(count, 1);
      assert Rep(count, 1) == Rep(HeadValue(s[p..]), span)[index - first := count];
    } else {
      code := SplitRun(s, p, first, span, index, count);
      var deltalen := |code| - oldlen;
      if deltalen > 0 && HLL_HDR_SIZE + |s| + deltalen > maxBytes { return MustPromote; }
    }
    var t := PutCode(s, prev, p, first, span, index, count, code);
    return Edited(t);
  }

  /** Steps 3 and 4: the new opcodes in place of the old one, and adjacent values merged. */
  method PutCode(s: seq<Byte>, prev: int, p: nat, first: nat, span: nat, index: nat, count: nat, code: seq<Byte>)
    returns (t: seq<Byte>)
    requires p < |s| && WellFormed(s[..p]) && WellFormed(s[p..])
    requires prev == -1 || (0 <= prev < p && WellFormed(s[..prev]) && WellFormed(s[prev..p]))
    requires first == |Decode(s[..p])| && span == HeadLen(s[p..]) && first <= index < first + span
    requires WellFormed(code) && Decode(code) == Rep(HeadValue(s[p..]), span)[index - first := count]
    ensures WellFormed(s) && index < |Decode(s)| && WellFormed(t) && Decode(t) == Decode(s)[index := count]
    ensures |t| <= |s| + |code| - OpSize(s[p])
  {
    hide Decode, WellFormed;
    ReplaceOp(s, p, first, span, index, count, code);
    SplitAt(s, p);
    var oldlen := OpSize(s[p]);
    t := s[..p] + code + s[p + oldlen..];
    assert t[p..] == code + s[p + oldlen..] && t[..p] == s[..p];
    Append(code, s[p + oldlen..]);
    var start := if prev == -1 then 0 else prev;
    if prev == -1 {
      EmptyOk(t);
    } else {
      assert t[..prev] == s[..prev];
      assert t[prev..] == s[prev..p] + t[p..];
      Append(s[prev..p], t[p..]);
    }
    ghost var stop;
    t, stop := MergeValues(t, start);
  }

  lemma HeadRegister(s: seq<Byte>, p: nat, first: nat, span: nat, index: nat, count: nat)
    requires p < |s| && WellFormed(s[..p]) && WellFormed(s[p..])
    requires first == |Decode(s[..p])| && span == HeadLen(s[p..]) && first <= index < first + span
    ensures WellFormed(s) && index < |Decode(s)| && Decode(s)[index] == HeadValue(s[p..])
  {
    hide Decode, WellFormed;
    SplitAt(s, p);
    Whole(s, p);
  }

  // ---------------------------------------------------------------------
  // The object

  class HllObject {
    /** server.hll_sparse_max_bytes */
    const maxBytes: nat
    var isDense: bool
    var sparse: seq<Byte>
    var dense: array<Byte>

    ghost predicate Shape()
      reads this, dense
    {
      && dense.Length == DENSE_BYTES + 1
      && (!isDense ==> WellFormed(sparse) && |Decode(sparse)| <= HLL_REGISTERS)
    }

    /** The register vector the object represents. */
    ghost function Regs(): seq<nat>
      requires Shape()
      reads this, dense
    {
      if isDense then Registers(dense[..]) else Decode(sparse)
    }

    /** A representation that isHLLObjectOrReply and the opcode count would accept. */
    ghost predicate Valid()
      reads this, dense
    {
      Shape() && |Regs()| == HLL_REGISTERS
    }

    /** createHLLObject: one XZERO opcode covers all registers. */
    constructor (maxBytes: nat)
      ensures Valid() && !isDense && Regs() == Rep(0, HLL_REGISTERS) && this.maxBytes == maxBytes
    {
      this.maxBytes := maxBytes;
      isDense := false;
      sparse := XZeroSet(HLL_REGISTERS);
      dense := new Byte[DENSE_BYTES + 1](_ => 0);
      ZeroRunOp(HLL_REGISTERS);
    }

    /** The `promote` label of hllSparseAdd: convert, then add to the dense registers. */
    method Promote(index: nat, count: nat) returns (r: int)
      requires Shape() && !isDense && index < HLL_REGISTERS && 1 <= count <= HLL_REGISTER_MAX
      requires |Regs()| == HLL_REGISTERS ==> Regs()[index] < count
      modifies this
      ensures r == -1 <==> |old(Regs())| != HLL_REGISTERS
      ensures r == -1 ==> Shape() && Regs() == old(Regs()) && !isDense && sparse == old(sparse)
      ensures r != -1 ==> r == 1 && Valid() && isDense && Regs() == old(Regs())[index := count]
      ensures r != -1 ==> fresh(dense)
    {
      hide Decode, WellFormed, Registers;
      var d := SparseToDense(sparse);
      if d == null { return -1; }
      var changed := DenseAdd(d, index, count);
      assert changed;  // the assertion after promotion to dense
      isDense := true;
      dense := d;
      return 1;
    }

    /** hllSparseAdd for an element whose hash is given. */
    method SparseAdd(hash: nat) returns (r: int)
      requires Shape() && !isDense
      requires sparse == [] || hash % HLL_REGISTERS < |Regs()|
      modifies this
      ensures Shape()
      ensures r == -1 || r == 0 || r == 1
      ensures r == -1 ==> |old(Regs())| != HLL_REGISTERS && Regs() == old(Regs())
      ensures r != -1 ==> exists count: nat :: PatternLength(hash, count) && Raised(old(Regs()), Regs(), hash % HLL_REGISTERS, count, r)
                                               && (isDense ==> count > VAL_MAX_VALUE || HLL_HDR_SIZE + |old(sparse)| + 3 > maxBytes)
      ensures !isDense ==> |sparse| <= |old(sparse)| || HLL_HDR_SIZE + |sparse| <= maxBytes
    {
      hide Decode, WellFormed, Registers, Bit;
      var count, index := PatLen(hash);
      assert PatternLength(hash, count);
      if count > VAL_MAX_VALUE {
        SparseValuesSmall(sparse);
        r := Promote(index, count);
        return;
      }
      if sparse == [] {
        NothingYet();
        return -1;
      }
      var e := EditSparse(sparse, index, count, maxBytes);
      match e
      case Unchanged => return 0;
      case Edited(t) =>
        sparse := t;
        return 1;
      case MustPromote =>
        r := Promote(index, count);
    }

    /** hllAdd */
    method Add(hash: nat) returns (r: int)
      requires Valid()
      modifies this, dense
      ensures Valid() && (r == 0 || r == 1)
      ensures exists count :: PatternLength(hash, count) && Raised(old(Regs()), Regs(), hash % HLL_REGISTERS, count, r)
    {
      hide Decode, WellFormed, Registers, Bit;
      if isDense {
        var count, index := PatLen(hash);
        assert PatternLength(hash, count);
        var changed := DenseAdd(dense, index, count);
        return if changed then 1 else 0;
      }
      if sparse == [] { NothingYet(); }
      r := SparseAdd(hash);
    }
  }

  /** `count` is the length of the 000..1 pattern of a hash from bit 14 on. */
  ghost predicate PatternLength(hash: nat, count: nat)
  {
    && 1 <= count <= 50
    && (forall i :: 14 <= i < 13 + count ==> Bit(hash, i) == 0)
    && (count == 50 || Bit(hash, 13 + count) == 1)
  }

  /** One register raised to at least count; r says whether that changed it. */
  ghost predicate Raised(regs: seq<nat>, regs': seq<nat>, index: nat, count: nat, r: int)
  {
    && index < |regs|
    && regs' == regs[index := Max(regs[index], count)]
    && (r == 1 <==> regs[index] < count)
  }

  lemma {:induction false} SparseValuesSmall(s: seq<Byte>)
    requires WellFormed(s)
    ensures forall i :: 0 <= i < |Decode(s)| ==> Decode(s)[i] <= VAL_MAX_VALUE
    decreases |s|
  {
    if s != [] { SparseValuesSmall(s[OpSize(s[0])..]); }
  }

  /** The pattern length of a hash is unique, so an element always raises the same register to the same value. */
  lemma PatternLengthUnique(hash: nat, a: nat, b: nat)
    requires PatternLength(hash, a) && PatternLength(hash, b)
    ensures a == b
  {
  }
}
