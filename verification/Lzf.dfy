/**
  The LZF compressor and decompressor (lzf_c.c, lzf_d.c).

  The format is given by Decode, a reader that takes one instruction at a time:
    000LLLLL <L+1 bytes>          literal run
    LLLooooo oooooooo             back reference, L+2 bytes
    111ooooo LLLLLLLL oooooooo    back reference, L+9 bytes
 */
module Lzf {
  import opened Basics

  const MAX_LIT := 32
  const MAX_OFF := 8192
  const MAX_REF := 264
  const HSIZE := 65536
  const TWO32: nat := 0x1_0000_0000
  const TWO63: nat := 0x8000_0000_0000_0000
  const TWO64: nat := 0x1_0000_0000_0000_0000

  datatype Result = Ok(out: seq<Byte>) | TooBig | Invalid

  // ---------------------------------------------------------------------
  // The format

  /** Copying n bytes from `back` bytes before the end, byte by byte, so that source and target may overlap. */
  function CopyBack(out: seq<Byte>, back: nat, n: nat): (r: seq<Byte>)
    requires 0 < back <= |out|
    ensures |r| == |out| + n && out <= r
    decreases n
  {
    if n == 0 then out else CopyBack(out + [out[|out| - back]], back, n - 1)
  }

  /** Back reference at the head of inp: where its last byte is, its length field, its distance. */
  function RefEnd(inp: seq<Byte>): nat
    requires |inp| > 0
  {
    if U(inp[0]) / 32 == 7 then 2 else 1
  }

  function RefLen(inp: seq<Byte>): nat
    requires |inp| > 0 && RefEnd(inp) < |inp|
  {
    if U(inp[0]) / 32 == 7 then 7 + U(inp[1]) else U(inp[0]) / 32
  }

  function RefBack(inp: seq<Byte>): nat
    requires |inp| > 0 && RefEnd(inp) < |inp|
  {
    (U(inp[0]) % 32) * 256 + U(inp[RefEnd(inp)]) + 1
  }

  /** The effect of one instruction: an error, or how many bytes it takes and the output after it. */
  datatype Effect = Stop(error: Result) | More(used: nat, out: seq<Byte>)

  function Instruction(inp: seq<Byte>, out: seq<Byte>, limit: nat): (e: Effect)
    requires |inp| > 0
    ensures e.More? ==> 0 < e.used <= |inp|
    ensures e.Stop? ==> !e.error.Ok?
  {
    if inp[0] < 32 then
      var n := U(inp[0]) + 1;
      if |out| + n > limit then Stop(TooBig)
      else if 1 + n > |inp| then Stop(Invalid)
      else More(1 + n, out + inp[1..1 + n])
    else if |inp| <= RefEnd(inp) then Stop(Invalid)
    else if |out| + RefLen(inp) + 2 > limit then Stop(TooBig)
    else if RefBack(inp) > |out| then Stop(Invalid)
    else More(RefEnd(inp) + 1, CopyBack(out, RefBack(inp), RefLen(inp) + 2))
  }

  /** Read `inp` to its end, appending to `out`, which may not get longer than `limit`. */
  function Decode(inp: seq<Byte>, out: seq<Byte>, limit: nat): Result
    decreases |inp|
  {
    if inp == [] then Ok(out)
    else match Instruction(inp, out, limit)
      case Stop(e) => e
      case More(used, out') => Decode(inp[used..], out', limit)
  }

  /**
    A stream all of whose instructions are complete and whose references lie inside the output
    before them, of which there are `produced` bytes.
   */
  predicate Acceptable(inp: seq<Byte>, produced: nat)
    decreases |inp|
  {
    if inp == [] then true
    else if inp[0] < 32 then U(inp[0]) + 2 <= |inp| && Acceptable(inp[U(inp[0]) + 2..], produced + U(inp[0]) + 1)
    else RefEnd(inp) < |inp| && RefBack(inp) <= produced && Acceptable(inp[RefEnd(inp) + 1..], produced + RefLen(inp) + 2)
  }

  /** How many bytes its instructions produce. */
  function Produces(inp: seq<Byte>): nat
    decreases |inp|
  {
    if inp == [] then 0
    else if inp[0] < 32 then U(inp[0]) + 1 + if U(inp[0]) + 2 <= |inp| then Produces(inp[U(inp[0]) + 2..]) else 0
    else if RefEnd(inp) < |inp| then RefLen(inp) + 2 + Produces(inp[RefEnd(inp) + 1..]) else 0
  }

  /** Exactly when a stream is accepted, and how long the output then is. */
  lemma {:induction false} DecodesIff(inp: seq<Byte>, out: seq<Byte>, limit: nat)
    requires |out| <= limit
    ensures Decode(inp, out, limit).Ok? <==> Acceptable(inp, |out|) && |out| + Produces(inp) <= limit
    ensures Decode(inp, out, limit).Ok? ==> |Decode(inp, out, limit).out| == |out| + Produces(inp)
    decreases |inp|
  {
    hide CopyBack, RefBack, RefLen;
    if inp != [] {
      var e := Instruction(inp, out, limit);
      if e.More? { DecodesIff(inp[e.used..], e.out, limit); }
    }
  }

  /** A complete instruction does not look at what follows it, and more room does not change it. */
  lemma InstructionLocal(a: seq<Byte>, b: seq<Byte>, out: seq<Byte>, limit: nat, limit': nat)
    requires |a| > 0 && Instruction(a, out, limit).More? && limit <= limit'
    ensures Instruction(a + b, out, limit') == Instruction(a, out, limit)
  {
    hide CopyBack;
    if a[0] < 32 {
      var n := U(a[0]) + 1;
      assert (a + b)[1..1 + n] == a[1..1 + n];
    }
  }

  /** Instructions compose: what follows a complete stream is read with that stream's output. */
  lemma {:induction false} DecodeAppend(a: seq<Byte>, b: seq<Byte>, out: seq<Byte>, limit: nat)
    requires Decode(a, out, limit).Ok?
    ensures Decode(a + b, out, limit) == Decode(b, Decode(a, out, limit).out, limit)
    decreases |a|
  {
    hide Instruction;
    if a == [] {
      assert a + b == b;
    } else {
      InstructionLocal(a, b, out, limit, limit);
      var e := Instruction(a, out, limit);
      assert (a + b)[e.used..] == a[e.used..] + b;
      DecodeAppend(a[e.used..], b, e.out, limit);
    }
  }

  /** More room in the output changes nothing for a stream that already fits. */
  lemma {:induction false} DecodeMoreRoom(a: seq<Byte>, out: seq<Byte>, limit: nat, limit': nat)
    requires Decode(a, out, limit).Ok? && limit <= limit'
    ensures Decode(a, out, limit') == Decode(a, out, limit)
    decreases |a|
  {
    hide Instruction;
    if a != [] {
      InstructionLocal(a, [], out, limit, limit');
      assert a + [] == a;
      var e := Instruction(a, out, limit);
      DecodeMoreRoom(a[e.used..], e.out, limit, limit');
    }
  }

  /** A stream that reads back as the first n bytes of the input. */
  ghost predicate Encodes(stream: seq<Byte>, input: seq<Byte>, n: nat)
    requires n <= |input|
  {
    Decode(stream, [], |input|) == Ok(input[..n])
  }

  function LitToken(lits: seq<Byte>): seq<Byte>
    requires 1 <= |lits| <= MAX_LIT
  {
    [|lits| - 1] + lits
  }

  lemma AppendLiterals(stream: seq<Byte>, input: seq<Byte>, n: nat, lits: seq<Byte>)
    requires n + |lits| <= |input| && Encodes(stream, input, n)
    requires 1 <= |lits| <= MAX_LIT && lits == input[n..n + |lits|]
    ensures Encodes(stream + LitToken(lits), input, n + |lits|)
  {
    hide Decode;
    DecodeAppend(stream, LitToken(lits), [], |input|);
    DecodeLitToken(lits, input[..n], |input|);
    assert input[..n] + lits == input[..n + |lits|];
  }

  lemma DecodeLitToken(lits: seq<Byte>, out: seq<Byte>, limit: nat)
    requires 1 <= |lits| <= MAX_LIT && |out| + |lits| <= limit
    ensures Decode(LitToken(lits), out, limit) == Ok(out + lits)
  {
    var t := LitToken(lits);
    assert Instruction(t, out, limit) == More(1 + |lits|, out + lits) by { assert t[1..1 + |lits|] == lits; }
    assert t[1 + |lits|..] == [];
  }

  /** A back reference of len + 2 bytes, off + 1 bytes back. */
  function RefToken(off: nat, len: nat): seq<Byte>
    requires off < MAX_OFF && 1 <= len <= MAX_REF - 2
  {
    if len < 7 then [off / 256 + len * 32, off % 256]
    else [off / 256 + 7 * 32, len - 7, off % 256]
  }

  lemma DecodeRefToken(off: nat, len: nat, out: seq<Byte>, limit: nat)
    requires off < MAX_OFF && 1 <= len <= MAX_REF - 2
    requires off < |out| && |out| + len + 2 <= limit
    ensures Decode(RefToken(off, len), out, limit) == Ok(CopyBack(out, off + 1, len + 2))
  {
    hide CopyBack;
    var t := RefToken(off, len);
    assert U(t[0]) % 32 == off / 256;
    if len < 7 {
      assert U(t[0]) / 32 == len && t[2..] == [];
    } else {
      assert U(t[0]) / 32 == 7 && t[3..] == [];
    }
  }

  /** A back reference onto an equal stretch of the input reproduces the input, overlap or not. */
  lemma {:induction false} CopyBackMatches(input: seq<Byte>, i: nat, back: nat, n: nat)
    requires 0 < back <= i && i + n <= |input|
    requires Same(input, i, back, n)
    ensures CopyBack(input[..i], back, n) == input[..i + n]
    decreases n
  {
    if n != 0 {
      assert input[i - back] == input[i];
      assert input[..i] + [input[i]] == input[..i + 1];
      CopyBackMatches(input, i + 1, back, n - 1);
    }
  }

  lemma AppendReference(stream: seq<Byte>, input: seq<Byte>, n: nat, off: nat, len: nat)
    requires n + len + 2 <= |input| && Encodes(stream, input, n)
    requires off < MAX_OFF && 1 <= len <= MAX_REF - 2 && off < n
    requires Same(input, n, off + 1, len + 2)
    ensures Encodes(stream + RefToken(off, len), input, n + len + 2)
  {
    hide Decode, CopyBack;
    DecodeAppend(stream, RefToken(off, len), [], |input|);
    DecodeRefToken(off, len, input[..n], |input|);
    CopyBackMatches(input, n, off + 1, len + 2);
  }

  // ---------------------------------------------------------------------
  // lzf_decompress

  /** Copy n bytes that start at inp[ip] to outbuf[op..]. */
  method CopyLiterals(inp: seq<Byte>, ip: nat, outbuf: array<Byte>, op: nat, n: nat)
    requires 1 <= n && ip + n <= |inp| && op + n <= outbuf.Length
    modifies outbuf
    ensures outbuf[..op + n] == old(outbuf[..op]) + inp[ip..ip + n]
  {
    var i := 0;
    while i < n
      invariant i <= n
      invariant outbuf[..op + i] == old(outbuf[..op]) + inp[ip..ip + i]
    {
      outbuf[op + i] := inp[ip + i];
      assert outbuf[..op + i + 1] == outbuf[..op + i] + [inp[ip + i]];
      i := i + 1;
    }
  }

  /** Copy n >= 3 bytes from outbuf[ref..] to outbuf[op..], two and then the rest as lzf_d.c does. */
  method CopyReference(outbuf: array<Byte>, ref: nat, op: nat, n: nat)
    requires 3 <= n && ref < op && op + n <= outbuf.Length
    modifies outbuf
    ensures outbuf[..op + n] == CopyBack(old(outbuf[..op]), op - ref, n)
  {
    hide CopyBack;
    ghost var back := op - ref;
    ghost var first := outbuf[..op];
    outbuf[op] := outbuf[ref];
    ghost var second := outbuf[..op + 1];
    CopyStep(first, back, n, second);
    outbuf[op + 1] := outbuf[ref + 1];
    CopyStep(second, back, n - 1, outbuf[..op + 2]);
    var i := 2;
    while i < n
      invariant 2 <= i <= n
      invariant CopyBack(outbuf[..op + i], back, n - i) == CopyBack(first, back, n)
    {
      ghost var before := outbuf[..op + i];
      outbuf[op + i] := outbuf[ref + i];
      CopyStep(before, back, n - i, outbuf[..op + i + 1]);
      i := i + 1;
    }
    CopyDone(outbuf[..op + n], back);
  }

  lemma CopyStep(out: seq<Byte>, back: nat, n: nat, out': seq<Byte>)
    requires 0 < back <= |out| && n > 0 && |out'| == |out| + 1 && out <= out'
    requires out'[|out|] == out[|out| - back]
    ensures CopyBack(out, back, n) == CopyBack(out', back, n - 1)
  {
    assert out' == out + [out[|out| - back]];
  }

  lemma CopyDone(out: seq<Byte>, back: nat)
    requires 0 < back <= |out|
    ensures CopyBack(out, back, 0) == out
  {
  }

  /** One turn of the loop of lzf_decompress; op' and ip' count only if err is None. */
  method ReadInstruction(inp: seq<Byte>, start: nat, outbuf: array<Byte>, op: nat) returns (ip: nat, op': nat, err: Result)
    requires start < |inp| && op <= outbuf.Length
    modifies outbuf
    ensures match Instruction(inp[start..], old(outbuf[..op]), outbuf.Length)
            case Stop(e) => err == e
            case More(used, out) => err == Ok([]) && ip == start + used && op' == |out| <= outbuf.Length && outbuf[..op'] == out
  {
    hide CopyBack;
    var limit := outbuf.Length;
    ghost var rest := inp[start..];
    ip, op' := start, op;
    var ctrl: int := inp[ip];
    ip := ip + 1;
    if ctrl < 32 {
      ctrl := ctrl + 1;
      if op + ctrl > limit { return ip, op, TooBig; }
      if ip + ctrl > |inp| { return ip, op, Invalid; }
      CopyLiterals(inp, ip, outbuf, op, ctrl);
      assert rest[1..1 + ctrl] == inp[ip..ip + ctrl];
      return ip + ctrl, op + ctrl, Ok([]);
    }
    var len := ctrl / 32;
    var ref: int := op - (ctrl % 32) * 256 - 1;
    if ip >= |inp| { return ip, op, Invalid; }
    if len == 7 {
      len := len + inp[ip];
      ip := ip + 1;
      if ip >= |inp| { return ip, op, Invalid; }
    }
    ref := ref - inp[ip];
    ip := ip + 1;
    assert len == RefLen(rest) && op - ref == RefBack(rest);
    if op + len + 2 > limit { return ip, op, TooBig; }
    if ref < 0 { return ip, op, Invalid; }
    CopyReference(outbuf, ref, op, len + 2);
    return ip, op + len + 2, Ok([]);
  }

  /**
    lzf_decompress. Returns the number of bytes written, or 0 and the reason; it computes
    exactly what Decode says, including which error comes first.
   */
  method Decompress(inp: seq<Byte>, outbuf: array<Byte>) returns (n: nat, err: Result)
    requires |inp| > 0
    modifies outbuf
    ensures n <= outbuf.Length
    ensures match Decode(inp, [], outbuf.Length)
            case Ok(o) => n == |o| && outbuf[..n] == o && err.Ok?
            case e => n == 0 && err == e
  {
    hide Instruction;
    var ip: nat, op: nat := 0, 0;
    ghost var goal := Decode(inp, [], outbuf.Length);
    assert inp[0..] == inp && outbuf[..0] == [];
    while ip < |inp|
      invariant ip <= |inp| && op <= outbuf.Length
      invariant Decode(inp[ip..], outbuf[..op], outbuf.Length) == goal
      decreases |inp| - ip
    {
      ghost var rest := inp[ip..];
      ghost var e := Instruction(rest, outbuf[..op], outbuf.Length);
      ghost var start := ip;
      ip, op, err := ReadInstruction(inp, ip, outbuf, op);
      if !err.Ok? { return 0, err; }
      assert rest[e.used..] == inp[start + e.used..];
    }
    assert inp[ip..] == [];
    return op, Ok([]);
  }

  // ---------------------------------------------------------------------
  // lzf_compress

  /** FRST, NEXT and IDX: a 32-bit rolling value and a table index made from it (VERY_FAST). */
  function First(input: seq<Byte>, ip: nat): nat
    requires ip + 1 < |input|
  {
    U(input[ip]) * 256 + U(input[ip + 1])
  }

  function Next(hval: nat, input: seq<Byte>, ip: nat): nat
    requires ip + 2 < |input|
  {
    (hval * 256) % TWO32 + input[ip + 2]
  }

  function Idx(hval: nat): (i: nat)
    ensures i < HSIZE
  {
    ((hval / 256) as int - hval * 5) % HSIZE
  }

  /** Uninitialised slots hold any pointer; a pointer is its distance from in_data. */
  ghost predicate PointerTable(htab: array<int>)
    reads htab
  {
    htab.Length == HSIZE && forall i :: 0 <= i < HSIZE ==> 0 - TWO63 <= htab[i] < TWO63
  }

  /** The offset test of line 155 is on an unsigned difference. */
  function UnsignedOffset(ip: nat, ref: int): nat
  {
    (ip - ref - 1) % TWO64
  }

  /** A small unsigned offset means that the slot points a little before ip, whatever it held. */
  lemma OffsetInWindow(ip: nat, ref: int)
    requires ip < TWO32 && 0 - TWO63 <= ref < TWO63 && UnsignedOffset(ip, ref) < MAX_OFF
    ensures ref == ip - 1 - UnsignedOffset(ip, ref)
  {
  }

  /** The n bytes at i equal the n bytes `back` positions before. */
  ghost predicate Same(input: seq<Byte>, i: nat, back: nat, n: nat)
    requires back <= i && i + n <= |input|
  {
    forall t :: i <= t < i + n ==> input[t - back] == input[t]
  }

  /** The match loop: how many bytes agree, at least the three that were compared before. */
  method MatchLength(input: seq<Byte>, ref: nat, ip: nat) returns (len: nat)
    requires ref < ip && ip + 4 < |input|
    requires Same(input, ip, ip - ref, 3)
    ensures 3 <= len <= MAX_REF && ip + len <= |input|
    ensures Same(input, ip, ip - ref, len)
    ensures len >= MAX_REF || len >= |input| - ip - 2 || input[ref + len] != input[ip + len]
  {
    len := 2;
    var maxlen := |input| - ip - len;
    maxlen := if maxlen > MAX_REF then MAX_REF else maxlen;
    if maxlen > 16 {
      // sixteen unrolled comparisons
      var k := 0;
      while k < 16
        invariant k <= 16 && len == 2 + k
        invariant Same(input, ip, ip - ref, len + 1)
      {
        len := len + 1;
        if input[ref + len] != input[ip + len] { return; }
        k := k + 1;
      }
    }
    len := len + 1;
    while len < maxlen && input[ref + len] == input[ip + len]
      invariant 3 <= len && (len <= maxlen || len == 19 || len == 3) && (len == 19 && len > maxlen ==> maxlen >= 17)
      invariant ip + len <= |input|
      invariant Same(input, ip, ip - ref, len)
      decreases maxlen - len
    {
      len := len + 1;
    }
  }

  /**
    The state of lzf_compress: `out` is what is written so far (op is its end). It consists of
    complete instructions for input[..ip - lit], a place for the header of the current literal
    run, and the lit bytes of that run. Complete instructions are never more than one byte per
    32 longer than what they stand for.
   */
  ghost predicate Running(input: seq<Byte>, ip: nat, lit: nat, out: seq<Byte>)
  {
    && lit <= ip <= |input| && lit < MAX_LIT && lit + 1 <= |out|
    && var done := out[..|out| - lit - 1];
       && Encodes(done, input, ip - lit)
       && 32 * (|done| - (ip - lit)) <= ip - lit
       && out[|out| - lit..] == input[ip - lit..ip]
  }

  /** op[-lit-1] = lit-1: fill in the header of a run of 1 to 32 literals. */
  lemma CloseRun(input: seq<Byte>, ip: nat, lit: nat, out: seq<Byte>, closed: seq<Byte>)
    requires 1 <= lit <= MAX_LIT && lit <= ip <= |input| && lit + 1 <= |out|
    requires Encodes(out[..|out| - lit - 1], input, ip - lit)
    requires out[|out| - lit..] == input[ip - lit..ip]
    requires closed == out[|out| - lit - 1 := lit - 1]
    ensures Encodes(closed, input, ip)
  {
    hide Decode;
    var done, lits := out[..|out| - lit - 1], out[|out| - lit..];
    AppendLiterals(done, input, ip - lit, lits);
    assert closed == done + LitToken(lits);
  }

  /** Append one literal to the current run and close the run when it is full. */
  method PutLiteral(input: seq<Byte>, ip: nat, lit: nat, out: seq<Byte>) returns (lit': nat, out': seq<Byte>)
    requires Running(input, ip, lit, out) && ip < |input|
    ensures Running(input, ip + 1, lit', out')
    ensures |out'| == |out| + (if lit + 1 == MAX_LIT then 2 else 1)
    ensures lit' == (lit + 1) % MAX_LIT
  {
    hide Decode, Encodes;
    out' := out + [input[ip]];
    lit' := lit + 1;
    assert out'[..|out'| - lit' - 1] == out[..|out| - lit - 1];
    assert out'[|out'| - lit'..] == out[|out| - lit..] + [input[ip]];
    assert input[ip - lit..ip] + [input[ip]] == input[ip + 1 - lit'..ip + 1];
    if lit' == MAX_LIT {
      ghost var open := out';
      out' := out'[|out'| - lit' - 1 := lit' - 1];
      CloseRun(input, ip + 1, lit', open, out');
      lit' := 0;
      out' := out' + [0];
      assert out'[..|out'| - 1] == open[|open| - MAX_LIT - 1 := MAX_LIT - 1];
    }
  }

  /** Stop the current run, dropping its header if it is empty. */
  method StopRun(input: seq<Byte>, ip: nat, lit: nat, out: seq<Byte>) returns (out': seq<Byte>)
    requires Running(input, ip, lit, out)
    ensures Encodes(out', input, ip)
    ensures |out'| == |out| - (if lit == 0 then 1 else 0)
    ensures 32 * (|out'| - ip) <= (ip - lit) + (if lit == 0 then 0 else 32)
  {
    hide Decode;
    out' := out[|out| - lit - 1 := (lit - 1) % 256];
    if lit == 0 {
      out' := out'[..|out'| - 1];
      assert out' == out[..|out| - 1];
    } else {
      CloseRun(input, ip, lit, out, out');
    }
  }

  /** Write a back reference of L bytes and start a new run. */
  method PutReference(input: seq<Byte>, ip: nat, off: nat, L: nat, out: seq<Byte>, ghost lit: nat) returns (out': seq<Byte>)
    requires ip + L <= |input| && 3 <= L <= MAX_REF && off < MAX_OFF && off < ip && lit <= ip
    requires Encodes(out, input, ip)
    requires 32 * (|out| - ip) <= (ip - lit) + (if lit == 0 then 0 else 32)
    requires Same(input, ip, off + 1, L)
    ensures Running(input, ip + L, 0, out')
    ensures |out'| == |out| + (if L < 9 then 3 else 4)
  {
    hide Decode, Encodes;
    var len := L - 2;
    if len < 7 {
      out' := out + [off / 256 + len * 32];
    } else {
      out' := out + [off / 256 + 7 * 32];
      out' := out' + [len - 7];
    }
    out' := out' + [off % 256];
    assert out' == out + RefToken(off, len);
    AppendReference(out, input, ip, off, len);
    out' := out' + [0];
    assert out'[..|out'| - 1] == out + RefToken(off, len);
  }

  function CeilDiv32(n: nat): nat { (n + 31) / 32 }

  // How much is compressed: what the runs of equal bytes in the input guarantee

  /** In the middle of a run of equal bytes, and not at either end of the input. */
  predicate InRun(input: seq<Byte>, j: nat)
  {
    2 <= j && j + 4 < |input| && input[j - 1] == input[j] == input[j + 1] == input[j + 2]
  }

  /** How many of the first k bytes are not. */
  function Outside(input: seq<Byte>, k: nat): nat
    requires k <= |input|
  {
    if k == 0 then 0 else Outside(input, k - 1) + if InRun(input, k - 1) then 0 else 1
  }

  lemma {:induction false} OutsideGrows(input: seq<Byte>, j: nat, k: nat)
    requires j <= k <= |input|
    ensures Outside(input, j) <= Outside(input, k)
    decreases k
  {
    hide InRun;
    if j < k { OutsideGrows(input, j, k - 1); }
  }

  /** Three bytes for each byte outside of runs, and for each full back reference. */
  function RunBound(input: seq<Byte>): nat
  {
    3 * Outside(input, |input|) + 3 * (|input| / MAX_REF)
  }

  /** The bytes written if the current run were closed now, against that bound. */
  ghost predicate Accounted(input: seq<Byte>, ip: nat, lit: nat, out: seq<Byte>)
  {
    && ip <= |input|
    && |out| - (if lit == 0 then 1 else 0) + 3 * ((|input| - ip) / MAX_REF) <= 3 * Outside(input, ip) + 3 * (|input| / MAX_REF)
  }

  lemma AccountBound(input: seq<Byte>, ip: nat, lit: nat, out: seq<Byte>)
    requires Accounted(input, ip, lit, out)
    ensures |out| <= RunBound(input) + 1
    ensures ip == |input| ==> |out| - (if lit == 0 then 1 else 0) <= RunBound(input)
  {
    hide Outside;
    OutsideGrows(input, ip, |input|);
  }

  lemma LiteralPays(input: seq<Byte>, ip: nat, lit: nat, out: seq<Byte>, lit': nat, out': seq<Byte>)
    requires Accounted(input, ip, lit, out) && ip < |input| && !InRun(input, ip) && lit < MAX_LIT
    requires |out'| == |out| + (if lit + 1 == MAX_LIT then 2 else 1) && lit' == (lit + 1) % MAX_LIT
    ensures Accounted(input, ip + 1, lit', out')
  {
    hide InRun;
    Shorter(|input| - ip - 1, |input| - ip);
    assert Outside(input, ip + 1) == Outside(input, ip) + 1;
  }

  lemma Shorter(a: nat, b: nat)
    requires a <= b
    ensures a / MAX_REF <= b / MAX_REF
    ensures b == a + MAX_REF ==> b / MAX_REF == a / MAX_REF + 1
  {
  }

  /** A match that cannot be longer is paid for by a byte outside of runs, or by its own full length. */
  lemma MatchPays(input: seq<Byte>, ip: nat, ref: nat, L: nat)
    requires ref < ip && ip + 4 < |input| && 3 <= L <= MAX_REF && ip + L <= |input|
    requires L >= MAX_REF || L >= |input| - ip - 2 || input[ref + L] != input[ip + L]
    requires InRun(input, ip) ==> ref == ip - 1
    ensures 3 + 3 * Outside(input, ip) + 3 * ((|input| - (ip + L)) / MAX_REF)
            <= 3 * Outside(input, ip + L) + 3 * ((|input| - ip) / MAX_REF)
  {
    hide Outside;
    Shorter(|input| - (ip + L), |input| - ip);
    if L == MAX_REF && InRun(input, ip) {
      OutsideGrows(input, ip, ip + L);
    } else {
      var q: nat := if !InRun(input, ip) then ip else if L >= |input| - ip - 2 then |input| - 3 else ip + L - 1;
      assert ip <= q < ip + L && !InRun(input, q);
      OutsideGrows(input, ip, q);
      OutsideGrows(input, q + 1, ip + L);
      OutsideNext(input, q);
    }
  }

  lemma OutsideNext(input: seq<Byte>, q: nat)
    requires q < |input| && !InRun(input, q)
    ensures Outside(input, q + 1) == Outside(input, q) + 1
  {
  }

  /** The position before is in the slot of a byte in a run, and is a match for it. */
  lemma RunIsFound(input: seq<Byte>, ip: nat)
    requires InRun(input, ip)
    ensures Slot(input, ip - 1) == Slot(input, ip) && UnsignedOffset(ip, ip - 1) == 0
  {
  }

  /**
    lzf_compress, for any input below 4 GB and any previous contents of the hash table. An
    empty result stands for the return value 0.
   */
  method Compress(input: seq<Byte>, outLen: nat, htab: array<int>) returns (out: seq<Byte>)
    requires |input| < TWO32 && PointerTable(htab)
    modifies htab
    ensures |out| <= outLen
    ensures out != [] ==> Decode(out, [], |input|) == Ok(input)
    ensures out != [] ==> |out| <= |input| + CeilDiv32(|input|) && |out| <= RunBound(input)
    ensures |input| > 0 && outLen >= |input| + |input| / 32 + 4 ==> out != []
    ensures |input| > 0 && outLen > RunBound(input) + 4 ==> out != []
  {
    hide Decode, Encodes, First, Next, Idx, Running, Slot, InRun, Outside, RunBound, Accounted, UnsignedOffset;
    if |input| == 0 || outLen == 0 { return []; }
    var ip: nat, lit: nat := 0, 0;
    out := [0];
    StartRunning(input);
    StartAccount(input);
    var hval: nat := if |input| > 1 then First(input, 0) else 0;
    if |input| > 1 { FirstIsWord(input, 0); }
    while ip < |input| - 2
      invariant ip <= |input| && Running(input, ip, lit, out) && Accounted(input, ip, lit, out)
      invariant PointerTable(htab)
      invariant ip < |input| - 2 ==> hval % 0x10000 == First(input, ip)
      invariant 0 < ip < |input| - 2 ==> htab[Slot(input, ip - 1)] == ip - 1
      decreases |input| - ip
    {
      NextSlot(hval, input, ip);
      hval := Next(hval, input, ip);
      var hslot := Idx(hval);
      var ref := htab[hslot];
      AboutRun(input, ip, ref);
      htab[hslot] := ip;
      var off := UnsignedOffset(ip, ref);
      if off < MAX_OFF { OffsetInWindow(ip, ref); }
      AccountBound(input, ip, lit, out);
      RunningSize(input, ip, lit, out);
      if off < MAX_OFF && ip + 4 < |input| && ref > 0
         && input[ref] == input[ip] && input[ref + 1] == input[ip + 1] && input[ref + 2] == input[ip + 2]
      {
        ghost var open, run := out, lit;
        out := StopRun(input, ip, lit, out);
        if |out| + 3 + 1 >= outLen {
          ClosedBound(input, ip, run, open);
          return [];
        }
        var len := MatchLength(input, ref, ip);
        ghost var closed := out;
        out := PutReference(input, ip, off, len, out, run);
        MatchPays(input, ip, ref, len);
        MatchAccount(input, ip, run, open, len, out);
        lit := 0;
        ip := ip + len;
        if ip >= |input| - 2 { break; }
        hval := Reindex(input, ip, htab);
      } else {
        if |out| >= outLen { return []; }
        ghost var open, run := out, lit;
        lit, out := PutLiteral(input, ip, lit, out);
        LiteralPays(input, ip, run, open, lit, out);
        ip := ip + 1;
      }
    }
    out := FinishRun(input, ip, lit, out, outLen);
  }

  lemma StartAccount(input: seq<Byte>)
    ensures Accounted(input, 0, 0, [0])
  {
  }

  /** What the slot of a byte in a run holds makes the match test succeed. */
  lemma AboutRun(input: seq<Byte>, ip: nat, ref: int)
    requires ip + 2 < |input|
    ensures InRun(input, ip) ==> 0 < ip < |input| - 2 && Slot(input, ip - 1) == Slot(input, ip)
    ensures InRun(input, ip) && ref == ip - 1 ==>
              && UnsignedOffset(ip, ref) == 0 && ip + 4 < |input| && ref > 0
              && input[ref] == input[ip] && input[ref + 1] == input[ip + 1] && input[ref + 2] == input[ip + 2]
  {
    if InRun(input, ip) { RunIsFound(input, ip); }
  }

  lemma ClosedBound(input: seq<Byte>, ip: nat, lit: nat, open: seq<Byte>)
    requires Accounted(input, ip, lit, open)
    ensures |open| - (if lit == 0 then 1 else 0) <= RunBound(input)
  {
    hide Outside;
    OutsideGrows(input, ip, |input|);
  }

  lemma MatchAccount(input: seq<Byte>, ip: nat, lit: nat, open: seq<Byte>, L: nat, out: seq<Byte>)
    requires Accounted(input, ip, lit, open) && ip + L <= |input|
    requires |out| <= |open| - (if lit == 0 then 1 else 0) + 4
    requires 3 + 3 * Outside(input, ip) + 3 * ((|input| - (ip + L)) / MAX_REF)
             <= 3 * Outside(input, ip + L) + 3 * ((|input| - ip) / MAX_REF)
    ensures Accounted(input, ip + L, 0, out)
  {
    hide Outside;
  }

  /** The end of lzf_compress: at most three more bytes of input and the last run. */
  method FinishRun(input: seq<Byte>, start: nat, run: nat, written: seq<Byte>, outLen: nat) returns (out: seq<Byte>)
    requires 0 < |input| <= start + 2 && Running(input, start, run, written) && Accounted(input, start, run, written)
    ensures |out| <= outLen
    ensures out != [] ==> Decode(out, [], |input|) == Ok(input)
    ensures out != [] ==> |out| <= |input| + CeilDiv32(|input|) && |out| <= RunBound(input)
    ensures outLen >= |input| + |input| / 32 + 4 ==> out != []
    ensures outLen > RunBound(input) + 4 ==> out != []
  {
    hide Decode, Encodes, Running, Outside, RunBound, Accounted;
    var ip: nat, lit: nat := start, run;
    out := written;
    RunningSize(input, ip, lit, out);
    AccountBound(input, ip, lit, out);
    if |out| + 3 > outLen { return []; }
    while ip < |input|
      invariant ip <= |input| <= ip + 2 && Running(input, ip, lit, out) && Accounted(input, ip, lit, out) && lit < MAX_LIT
      invariant |out| + (|input| - ip) + (if lit + (|input| - ip) >= MAX_LIT then 1 else 0) <= outLen
    {
      ghost var open, was := out, lit;
      lit, out := PutLiteral(input, ip, lit, out);
      LiteralPays(input, ip, was, open, lit, out);
      ip := ip + 1;
    }
    RunningSize(input, ip, lit, out);
    AccountBound(input, ip, lit, out);
    out := StopRun(input, ip, lit, out);
    EncodesWhole(out, input);
  }

  /** The VERY_FAST tail of a match: enter the last two positions into the table. */
  method Reindex(input: seq<Byte>, ip: nat, htab: array<int>) returns (hval: nat)
    requires 2 <= ip < |input| - 2 && |input| < TWO32 && PointerTable(htab)
    modifies htab
    ensures PointerTable(htab)
    ensures htab[Slot(input, ip - 1)] == ip - 1 && hval % 0x10000 == First(input, ip)
    ensures forall i :: 0 <= i < HSIZE && i != Slot(input, ip - 1) && i != Slot(input, ip - 2) ==> htab[i] == old(htab[i])
    ensures Slot(input, ip - 2) != Slot(input, ip - 1) ==> htab[Slot(input, ip - 2)] == ip - 2
  {
    hide First, Next, Idx, Slot;
    var p := ip - 2;
    hval := First(input, p);
    FirstIsWord(input, p);
    NextSlot(hval, input, p);
    hval := Next(hval, input, p);
    htab[Idx(hval)] := p;
    p := p + 1;
    NextSlot(hval, input, p);
    hval := Next(hval, input, p);
    htab[Idx(hval)] := p;
  }

  /** The table slot of the three bytes at a position. */
  function Slot(input: seq<Byte>, ip: nat): (i: nat)
    requires ip + 2 < |input|
    ensures i < HSIZE
  {
    Idx(First(input, ip) * 256 + U(input[ip + 2]))
  }

  lemma FirstIsWord(input: seq<Byte>, ip: nat)
    requires ip + 1 < |input|
    ensures First(input, ip) < 0x10000 && First(input, ip) % 0x10000 == First(input, ip)
  {
  }

  /** The index depends on the three lowest bytes of the rolling value only. */
  lemma IdxLow(h: nat, q: nat, t: nat)
    requires h == 0x1000000 * q + t && t < 0x1000000
    ensures Idx(h) == Idx(t)
  {
    assert h / 256 == 0x10000 * q + t / 256;
    var a: int, b: int := t / 256 - t * 5, h / 256 - h * 5;
    assert b == a + HSIZE * (q - 1280 * q);
    AddMultiple(a, q - 1280 * q);
  }

  lemma AddMultiple(a: int, k: int)
    ensures (a + HSIZE * k) % HSIZE == a % HSIZE
  {
  }

  /** One step of the rolling value: the slot of the three bytes here, and the two bytes of the next position. */
  lemma NextSlot(hval: nat, input: seq<Byte>, ip: nat)
    requires ip + 2 < |input| && hval % 0x10000 == First(input, ip)
    ensures Idx(Next(hval, input, ip)) == Slot(input, ip) && Next(hval, input, ip) % 0x10000 == First(input, ip + 1)
  {
    hide Idx;
    var f, b1, b2: nat := First(input, ip), U(input[ip + 1]), U(input[ip + 2]);
    var q := hval / 0x10000;
    var q1, q2 := q / 256, q % 256;
    FirstIsWord(input, ip);
    assert hval == 0x10000 * q + f;
    assert hval * 256 == TWO32 * q1 + (0x1000000 * q2 + 256 * f);
    Remainder(hval * 256, q1, 0x1000000 * q2 + 256 * f);
    IdxLow(Next(hval, input, ip), q2, 256 * f + b2);
    LowWord(Next(hval, input, ip), 0x100 * q2 + U(input[ip]), b1 * 256 + b2);
  }

  lemma Remainder(x: nat, q: nat, r: nat)
    requires x == TWO32 * q + r && r < TWO32
    ensures x % TWO32 == r
  {
  }

  lemma LowWord(x: nat, q: nat, r: nat)
    requires x == 0x10000 * q + r && r < 0x10000
    ensures x % 0x10000 == r
  {
  }

  lemma StartRunning(input: seq<Byte>)
    ensures Running(input, 0, 0, [0])
  {
    var out: seq<Byte> := [0];
    assert out[..0] == [] && out[1..] == [];
  }

  lemma RunningSize(input: seq<Byte>, ip: nat, lit: nat, out: seq<Byte>)
    requires Running(input, ip, lit, out)
    ensures lit < MAX_LIT && lit <= ip <= |input|
    ensures |out| <= ip + 1 + (ip - lit) / 32 && ip / 32 <= |input| / 32 && (ip - lit) / 32 <= ip / 32
  {
  }

  lemma EncodesWhole(stream: seq<Byte>, input: seq<Byte>)
    requires Encodes(stream, input, |input|)
    ensures Decode(stream, [], |input|) == Ok(input)
    ensures |input| > 0 ==> stream != []
  {
    assert input[..|input|] == input;
  }

  // ---------------------------------------------------------------------
  // Round trip and size

  /** Whatever lzf_compress returns, lzf_decompress turns it back into the input. */
  method RoundTrip(input: seq<Byte>, outLen: nat, htab: array<int>, outbuf: array<Byte>) returns (compressed: seq<Byte>, n: nat)
    requires |input| < TWO32 && PointerTable(htab) && outbuf.Length >= |input|
    modifies htab, outbuf
    ensures compressed != [] ==> n == |input| && outbuf[..n] == input
  {
    compressed := Compress(input, outLen, htab);
    n := 0;
    if compressed != [] {
      DecodeMoreRoom(compressed, [], |input|, outbuf.Length);
      var err;
      n, err := Decompress(compressed, outbuf);
    }
  }

  // How small the output is

  /** Of equal bytes only two at the beginning and four at the end are not in a run. */
  lemma {:induction false} EqualOutside(input: seq<Byte>, k: nat)
    requires |input| >= 6 && k <= |input| && forall i :: 0 <= i < |input| ==> input[i] == input[0]
    ensures Outside(input, k) == if k <= 2 then k else if k <= |input| - 4 then 2 else k - (|input| - 6)
  {
    if k > 0 { EqualOutside(input, k - 1); }
  }

  /**
    Equal bytes are compressed to three bytes for every 264, whatever the table holds, even if
    the output must be four bytes shorter than the input.
   */
  method CompressEqual(input: seq<Byte>, outLen: nat, htab: array<int>) returns (out: seq<Byte>)
    requires 27 <= |input| < TWO32 && PointerTable(htab) && forall i :: 0 <= i < |input| ==> input[i] == input[0]
    requires outLen >= |input| - 4
    modifies htab
    ensures out != [] && |out| <= 18 + 3 * (|input| / MAX_REF)
    ensures Decode(out, [], |input|) == Ok(input)
  {
    hide Decode, Outside;
    EqualOutside(input, |input|);
    out := Compress(input, outLen, htab);
  }

  // The 104% of lzf.h: for which lengths does it hold?

  lemma {:induction false} DecodeExtends(inp: seq<Byte>, out: seq<Byte>, limit: nat)
    requires Decode(inp, out, limit).Ok?
    ensures out <= Decode(inp, out, limit).out
    decreases |inp|
  {
    hide CopyBack, Instruction;
    if inp != [] {
      var e := Instruction(inp, out, limit);
      InstructionExtends(inp, out, limit);
      DecodeExtends(inp[e.used..], e.out, limit);
    }
  }

  /** A literal run adds as many bytes as it takes, less its header; a reference repeats a byte. */
  lemma InstructionExtends(inp: seq<Byte>, out: seq<Byte>, limit: nat)
    requires |inp| > 0 && Instruction(inp, out, limit).More?
    ensures var e := Instruction(inp, out, limit);
            && out <= e.out && |out| < |e.out|
            && ((e.used == |e.out| - |out| + 1 && |e.out| - |out| <= MAX_LIT)
                || e.out[|out|] in out)
  {
    hide CopyBack;
    if inp[0] >= 32 {
      var back, n := RefBack(inp), RefLen(inp) + 2;
      CopyBackRepeats(out, back, n);
    }
  }

  lemma CopyBackRepeats(out: seq<Byte>, back: nat, n: nat)
    requires 0 < back <= |out| && n > 0
    ensures CopyBack(out, back, n)[|out|] == out[|out| - back]
  {
    assert out + [out[|out| - back]] <= CopyBack(out + [out[|out| - back]], back, n - 1);
  }

  ghost predicate DistinctBytes(s: seq<Byte>)
  {
    forall i, j :: 0 <= i < j < |s| ==> s[i] != s[j]
  }

  /** Bytes that do not repeat can only be written as literals, 32 to a header. */
  lemma {:induction false} NeedsHeaders(stream: seq<Byte>, out: seq<Byte>, input: seq<Byte>, limit: nat)
    requires Decode(stream, out, limit) == Ok(input) && DistinctBytes(input)
    ensures |out| <= |input| && |stream| >= (|input| - |out|) + CeilDiv32(|input| - |out|)
    decreases |stream|
  {
    hide CopyBack, Instruction;
    DecodeExtends(stream, out, limit);
    if stream != [] {
      var e := Instruction(stream, out, limit);
      InstructionExtends(stream, out, limit);
      DecodeExtends(stream[e.used..], e.out, limit);
      assert e.out[|out|] == input[|out|] && forall k :: 0 <= k < |out| ==> out[k] == input[k];
      assert e.used == |e.out| - |out| + 1;
      NeedsHeaders(stream[e.used..], e.out, input, limit);
      MoreLiterals(|e.out| - |out|, |input| - |e.out|);
    }
  }

  lemma MoreLiterals(m: nat, rest: nat)
    requires m <= MAX_LIT
    ensures CeilDiv32(m + rest) <= 1 + CeilDiv32(rest)
  {
  }

  /** The lengths for which in_len + ceil(in_len / 32) is below 104% of in_len. */
  predicate BelowFourPercent(n: nat)
  {
    26 <= n <= 32 || 51 <= n <= 64 || 76 <= n <= 96 || 101 <= n
  }

  lemma FourPercent(n: nat)
    requires n > 0
    ensures BelowFourPercent(n) <==> 100 * (n + CeilDiv32(n)) < 104 * n
  {
    var c := CeilDiv32(n);
    assert 32 * c <= n + 31 && 32 * c >= n;
  }

  /** For such lengths every output of lzf_compress is below 104% of its input ... */
  method CompressBelow(input: seq<Byte>, outLen: nat, htab: array<int>) returns (out: seq<Byte>)
    requires |input| < TWO32 && PointerTable(htab) && BelowFourPercent(|input|)
    modifies htab
    ensures out != [] ==> Decode(out, [], |input|) == Ok(input) && 100 * |out| < 104 * |input|
  {
    hide Decode, CeilDiv32;
    out := Compress(input, outLen, htab);
    FourPercent(|input|);
  }

  /** ... and for no other: on bytes that do not repeat the output has exactly the greatest size. */
  method CompressDistinct(input: seq<Byte>, outLen: nat, htab: array<int>) returns (out: seq<Byte>)
    requires 0 < |input| < TWO32 && PointerTable(htab) && DistinctBytes(input)
    requires outLen >= |input| + |input| / 32 + 4
    modifies htab
    ensures out != [] && |out| == |input| + CeilDiv32(|input|)
    ensures 100 * |out| >= 104 * |input| <==> !BelowFourPercent(|input|)
  {
    hide Decode, CeilDiv32, BelowFourPercent, DistinctBytes;
    out := Compress(input, outLen, htab);
    NeedsHeaders(out, [], input, |input|);
    FourPercent(|input|);
  }

  /** Every other length has such an input. */
  lemma DistinctInput(n: nat) returns (input: seq<Byte>)
    requires !BelowFourPercent(n)
    ensures |input| == n && DistinctBytes(input)
  {
    input := seq(n, i requires 0 <= i < n => i as Byte);
  }
}
