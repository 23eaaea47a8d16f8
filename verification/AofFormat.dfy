/**
  The format of the append only file (aof.c): commands printed as multi-bulk
  requests, and the loader that runs them again, also from a file that was cut
  off at any byte.
 */
module AofFormat {
  import opened Basics

  type Bytes = seq<Byte>
  type Command = seq<Bytes>

  const STAR: Byte := 42
  const DOLLAR: Byte := 36
  const CR: Byte := 13
  const LF: Byte := 10
  const CRLF: Bytes := [CR, LF]

  // ---------------------------------------------------------------------
  // Printing

  function Pow10(k: nat): nat { if k == 0 then 1 else 10 * Pow10(k - 1) }

  /** ll2string for non-negative numbers */
  function Digits(n: nat): (d: Bytes)
    ensures |d| >= 1
  {
    if n < 10 then [48 + n] else Digits(n / 10) + [48 + n % 10]
  }

  predicate IsDigit(b: Byte) { 48 <= b <= 57 }

  /** '*' or '$', a number, CRLF */
  function Header(tag: Byte, n: nat): Bytes { [tag] + Digits(n) + CRLF }

  function EncodeArg(a: Bytes): Bytes { Header(DOLLAR, |a|) + a + CRLF }

  function EncodeArgs(args: Command): Bytes
  {
    if args == [] then [] else EncodeArg(args[0]) + EncodeArgs(args[1..])
  }

  function EncodeCommand(c: Command): Bytes { Header(STAR, |c|) + EncodeArgs(c) }

  function Encode(cmds: seq<Command>): Bytes
  {
    if cmds == [] then [] else EncodeCommand(cmds[0]) + Encode(cmds[1..])
  }

  /** argc is a positive int, lengths are below 2^63. */
  predicate Printable(c: Command)
  {
    1 <= |c| < 0x8000_0000 && forall i :: 0 <= i < |c| ==> |c[i]| < 0x8000_0000_0000_0000
  }

  lemma {:induction false} EncodeArgsSnoc(args: Command, a: Bytes)
    ensures EncodeArgs(args + [a]) == EncodeArgs(args) + EncodeArg(a)
  {
    if args == [] {
      assert args + [a] == [a] && [a][1..] == [];
    } else {
      assert (args + [a])[1..] == args[1..] + [a];
      EncodeArgsSnoc(args[1..], a);
      assert EncodeArg(args[0]) + (EncodeArgs(args[1..]) + EncodeArg(a)) == (EncodeArg(args[0]) + EncodeArgs(args[1..])) + EncodeArg(a);
    }
  }

  /** catAppendOnlyGenericCommand */
  method CatCommand(dst: Bytes, argv: Command) returns (r: Bytes)
    ensures r == dst + EncodeCommand(argv)
  {
    hide EncodeArg, Header;
    r := dst + Header(STAR, |argv|);
    var j := 0;
    assert argv[..0] == [] && r == dst + (Header(STAR, |argv|) + EncodeArgs(argv[..0]));
    while j < |argv|
      invariant j <= |argv|
      invariant r == dst + (Header(STAR, |argv|) + EncodeArgs(argv[..j]))
    {
      EncodeArgsSnoc(argv[..j], argv[j]);
      assert argv[..j] + [argv[j]] == argv[..j + 1];
      ghost var before := EncodeArgs(argv[..j]);
      var line := Header(DOLLAR, |argv[j]|);
      var arg := line + argv[j] + CRLF;
      ArgIs(argv[j]);
      assert dst + (Header(STAR, |argv|) + before) + arg == dst + (Header(STAR, |argv|) + (before + arg));
      r := r + arg;
      j := j + 1;
    }
    assert argv[..j] == argv;
  }

  lemma ArgIs(a: Bytes)
    ensures EncodeArg(a) == Header(DOLLAR, |a|) + a + CRLF
  {
  }

  // ---------------------------------------------------------------------
  // Reading: the C library calls the loader uses, on the rest of the file

  /** How many bytes fgets takes into a buffer with room for `room` characters. */
  function LineLen(s: Bytes, room: nat): (n: nat)
    ensures n <= |s| && n <= room
    ensures s != [] && room > 0 ==> n >= 1
    decreases room
  {
    if s == [] || room == 0 then 0 else if s[0] == LF then 1 else 1 + LineLen(s[1..], room - 1)
  }

  /** Does fgets meet the end of the file? */
  predicate LineHitsEnd(s: Bytes, room: nat)
    decreases room
  {
    room > 0 && (s == [] || (s[0] != LF && LineHitsEnd(s[1..], room - 1)))
  }

  /** The value of the leading digits. */
  function Leading(s: Bytes, acc: nat): nat
    decreases |s|
  {
    if s == [] || !IsDigit(s[0]) then acc else Leading(s[1..], 10 * acc + (s[0] - 48))
  }

  /** atoi and strtol in base 10, without overflow */
  function Strtol(s: Bytes): int
    decreases |s|
  {
    if s == [] then 0
    else if s[0] == 32 || 9 <= s[0] <= 13 then Strtol(s[1..])
    else if s[0] == 45 then 0 - Leading(s[1..], 0)
    else if s[0] == 43 then Leading(s[1..], 0)
    else Leading(s, 0)
  }

  const LINE_ROOM: nat := 127  // char buf[128]

  datatype ArgsRead = Args(args: Command, rest: Bytes) | ArgsEof | ArgsFormat | ArgsAbort

  /** One argument and how many bytes it took, or why there is none. */
  datatype ArgRead = Got(arg: Bytes, used: nat) | Missing(why: ArgsRead)

  /** The body of the loop over the arguments; ArgsAbort is an allocation of a negative length. */
  function ReadArg(s: Bytes): (r: ArgRead)
    ensures r.Got? ==> 0 < r.used <= |s|
    ensures r.Missing? ==> !r.why.Args?
  {
    if s == [] then Missing(ArgsEof)
    else if s[0] != DOLLAR then Missing(ArgsFormat)
    else
      var k := LineLen(s, LINE_ROOM);
      var len := Strtol(s[1..k]);
      if len < 0 then Missing(ArgsAbort)
      else if len > 0 && |s| < k + len then Missing(ArgsEof)
      else if |s| < k + len + 2 then Missing(ArgsEof)
      else Got(s[k..k + len], k + len + 2)
  }

  function Prepend(a: Command, r: ArgsRead): ArgsRead
  {
    match r case Args(args, rest) => Args(a + args, rest) case e => e
  }

  /** The loop over the arguments of one command. */
  function ReadArgs(s: Bytes, n: nat): (r: ArgsRead)
    ensures r.Args? ==> |r.rest| <= |s| && (n > 0 ==> |r.rest| < |s|)
    decreases n
  {
    if n == 0 then Args([], s)
    else match ReadArg(s)
      case Missing(e) => e
      case Got(a, used) => Prepend([a], ReadArgs(s[used..], n - 1))
  }

  /** How loading ends: end of file, truncation at an offset, the format error, or another fatal exit. */
  datatype Outcome =
    | Complete(cmds: seq<Command>)
    | Truncated(cmds: seq<Command>, at: nat)
    | FormatError
    | Fatal

  /** The main loop, with aof-load-truncated on: `done` has run, `at` bytes have been read. */
  function Load(s: Bytes, done: seq<Command>, at: nat): Outcome
    decreases |s|
  {
    if s == [] then Complete(done)
    else if s[0] != STAR then FormatError
    else
      var k := LineLen(s, LINE_ROOM);
      if k == 1 || s[1] == 0 then (if LineHitsEnd(s, LINE_ROOM) then Truncated(done, at) else Fatal)
      else
        var argc := Strtol(s[1..k]);
        if argc < 1 then FormatError
        else match ReadArgs(s[k..], argc)
          case ArgsEof => Truncated(done, at)
          case ArgsFormat => FormatError
          case ArgsAbort => Fatal
          case Args(args, rest) => Load(rest, done + [args], at + (|s| - |rest|))
  }

  // ---------------------------------------------------------------------
  // The loader as a loop over a file position

  method ReadArgument(file: Bytes, start: nat) returns (r: ArgRead)
    requires start <= |file|
    ensures r == ReadArg(file[start..])
  {
    hide LineLen, Strtol;
    var pos := start;
    if pos == |file| { return Missing(ArgsEof); }  // fgets returns NULL
    var k := LineLen(file[pos..], LINE_ROOM);
    if file[pos] != DOLLAR { return Missing(ArgsFormat); }
    var len := Strtol(file[pos..][1..k]);
    pos := pos + k;
    if len < 0 { return Missing(ArgsAbort); }
    if len > 0 && |file| - pos < len { return Missing(ArgsEof); }
    if |file| - (pos + len) < 2 { return Missing(ArgsEof); }
    var argsds := file[pos..pos + len];
    pos := pos + len + 2;
    assert file[start..][k..k + len] == argsds;
    return Got(argsds, pos - start);
  }

  method ReadArguments(file: Bytes, start: nat, argc: nat) returns (r: ArgsRead, pos: nat)
    requires start <= |file|
    ensures r == ReadArgs(file[start..], argc)
    ensures pos <= |file| && (r.Args? ==> r.rest == file[pos..])
  {
    hide ReadArg;
    pos := start;
    var argv: Command := [];
    var j := 0;
    PrependNone(ReadArgs(file[start..], argc));
    while j < argc
      invariant j <= argc && start <= pos <= |file|
      invariant ReadArgs(file[start..], argc) == Prepend(argv, ReadArgs(file[pos..], argc - j))
    {
      var one := ReadArgument(file, pos);
      if one.Missing? { return one.why, pos; }
      assert file[pos..][one.used..] == file[pos + one.used..];
      PrependOne(argv, one.arg, ReadArgs(file[pos + one.used..], argc - j - 1));
      argv := argv + [one.arg];
      pos := pos + one.used;
      j := j + 1;
    }
    assert argv + [] == argv;
    r := Args(argv, file[pos..]);
  }

  lemma PrependNone(r: ArgsRead)
    ensures Prepend([], r) == r
  {
    if r.Args? { assert [] + r.args == r.args; }
  }

  lemma PrependOne(a: Command, x: Bytes, r: ArgsRead)
    ensures Prepend(a, Prepend([x], r)) == Prepend(a + [x], r)
  {
    if r.Args? { assert a + ([x] + r.args) == (a + [x]) + r.args; }
  }

  /** loadAppendOnlyFile for a non-empty file; `ran` lists the commands run. */
  method LoadAppendOnlyFile(file: Bytes) returns (o: Outcome)
    ensures o == Load(file, [], 0)
  {
    hide LineLen, LineHitsEnd, Strtol, ReadArgs;
    var ran: seq<Command> := [];
    var pos, validUpTo := 0, 0;
    assert file[0..] == file;
    while pos < |file|
      invariant pos == validUpTo <= |file|
      invariant Load(file[pos..], ran, pos) == Load(file, [], 0)
      decreases |file| - pos
    {
      ghost var s := file[pos..];
      var k := LineLen(file[pos..], LINE_ROOM);
      if file[pos] != STAR { return FormatError; }
      if k == 1 || file[pos + 1] == 0 {
        if LineHitsEnd(file[pos..], LINE_ROOM) { return Truncated(ran, validUpTo); }
        return Fatal;
      }
      var argc := Strtol(file[pos..][1..k]);
      if argc < 1 { return FormatError; }
      assert s[k..] == file[pos + k..];
      var r, next := ReadArguments(file, pos + k, argc);
      match r {
        case ArgsEof => return Truncated(ran, validUpTo);
        case ArgsFormat => return FormatError;
        case ArgsAbort => return Fatal;
        case Args(args, rest) =>
          assert |rest| == |file| - next;
          ran := ran + [args];
          pos := next;
          validUpTo := pos;
      }
    }
    assert file[pos..] == [];
    return Complete(ran);
  }

  // ---------------------------------------------------------------------
  // Numbers

  lemma {:induction false} DigitsAreDigits(n: nat, i: nat)
    requires i < |Digits(n)|
    ensures IsDigit(Digits(n)[i])
    ensures n > 0 ==> Digits(n)[0] >= 49
  {
    if n >= 10 {
      if i < |Digits(n)| - 1 { DigitsAreDigits(n / 10, i); } else { DigitsAreDigits(n / 10, 0); }
    }
  }

  lemma {:induction false} DigitsLen(n: nat, k: nat)
    requires n < Pow10(k) && k >= 1
    ensures |Digits(n)| <= k
    decreases k
  {
    if n >= 10 {
      assert Pow10(1) == 10;
      DigitsLen(n / 10, k - 1);
    }
  }

  /** A number followed by something that is not a digit reads back as itself. */
  lemma {:induction false} LeadingDigits(n: nat, t: Bytes)
    requires t != [] ==> !IsDigit(t[0])
    ensures Leading(Digits(n) + t, 0) == n
  {
    LeadingAppend(Digits(n), t, 0, n);
  }

  lemma {:induction false} LeadingAppend(d: Bytes, t: Bytes, acc: nat, n: nat)
    requires d == Digits(n) && acc == 0
    ensures Leading(d + t, acc) == Leading(t, n)
    decreases n
  {
    if n < 10 {
      assert (d + t)[0] == 48 + n && (d + t)[1..] == t;
    } else {
      var x: Byte := 48 + n % 10;
      var rest: Bytes := [x] + t;
      assert d + t == Digits(n / 10) + rest;
      LeadingAppend(Digits(n / 10), rest, 0, n / 10);
      assert rest[0] == x && rest[1..] == t && IsDigit(x);
    }
  }

  lemma {:induction false} LeadingGrows(s: Bytes, acc: nat)
    ensures Leading(s, acc) >= acc
    decreases |s|
  {
    if s != [] && IsDigit(s[0]) { LeadingGrows(s[1..], 10 * acc + (s[0] - 48)); }
  }

  /** A cut-off number is still at least 1 if the number is. */
  lemma CutNumber(s: Bytes)
    requires s != [] && IsDigit(s[0])
    ensures Strtol(s) >= s[0] - 48
  {
    LeadingGrows(s[1..], s[0] - 48);
    assert Strtol(s) == Leading(s, 0) == Leading(s[1..], s[0] - 48);
  }

  // ---------------------------------------------------------------------
  // Lines

  lemma {:induction false} LineLenUpTo(a: Bytes, t: Bytes, room: nat)
    requires |a| < room && forall i :: 0 <= i < |a| ==> a[i] != LF
    ensures LineLen(a + [LF] + t, room) == |a| + 1 && !LineHitsEnd(a + [LF] + t, room)
    ensures LineLen(a, room) == |a| && LineHitsEnd(a, room)
    decreases |a|
  {
    var s := a + [LF] + t;
    if a == [] {
      assert s[0] == LF;
    } else {
      assert s[0] == a[0] && s[1..] == a[1..] + [LF] + t;
      LineLenUpTo(a[1..], t, room - 1);
    }
  }

  predicate Fits(n: nat) { |Digits(n)| <= 100 }

  lemma SmallFits(n: nat)
    requires n < 0x8000_0000_0000_0000
    ensures Fits(n)
  {
    Pow10Nineteen();
    DigitsLen(n, 19);
  }

  lemma Pow10Nineteen()
    ensures Pow10(19) >= 0x8000_0000_0000_0000
  {
    assert Pow10(3) == 1000 by { assert Pow10(1) == 10 && Pow10(2) == 100; }
    assert Pow10(6) == 1000_000 by { assert Pow10(4) == 10_000 && Pow10(5) == 100_000; }
    assert Pow10(9) == 1000_000_000 by { assert Pow10(7) == 10_000_000 && Pow10(8) == 100_000_000; }
    assert Pow10(12) == 1000_000_000_000 by { assert Pow10(10) == 10_000_000_000 && Pow10(11) == 100_000_000_000; }
    assert Pow10(15) == 1000_000_000_000_000 by { assert Pow10(13) == 10_000_000_000_000 && Pow10(14) == 100_000_000_000_000; }
    assert Pow10(18) == 1000_000_000_000_000_000 by { assert Pow10(16) == 10_000_000_000_000_000 && Pow10(17) == 100_000_000_000_000_000; }
    assert Pow10(19) == 10 * Pow10(18);
  }

  /** The part of a header line before its final LF. */
  function Stem(tag: Byte, n: nat): Bytes { [tag] + Digits(n) + [CR] }

  lemma StemBytes(tag: Byte, n: nat)
    requires tag != LF && Fits(n)
    ensures Header(tag, n) == Stem(tag, n) + [LF] && |Stem(tag, n)| < LINE_ROOM
    ensures forall i :: 0 <= i < |Stem(tag, n)| ==> Stem(tag, n)[i] != LF
  {
    forall i | 0 <= i < |Stem(tag, n)| ensures Stem(tag, n)[i] != LF {
      if 0 < i <= |Digits(n)| { DigitsAreDigits(n, i - 1); }
    }
  }

  /** fgets on a complete header line, and the number in it. */
  lemma WholeHeader(tag: Byte, n: nat, t: Bytes)
    requires tag != LF && Fits(n)
    ensures var s := Header(tag, n) + t;
            var k := |Header(tag, n)|;
            && LineLen(s, LINE_ROOM) == k && s[0] == tag && s[k..] == t && k >= 2 && s[1] != 0
            && Strtol(s[1..k]) == n
  {
    hide LineLen, LineHitsEnd, Leading;
    var h := Header(tag, n);
    StemBytes(tag, n);
    LineLenUpTo(Stem(tag, n), t, LINE_ROOM);
    assert h + t == Stem(tag, n) + [LF] + t;
    assert (h + t)[1..|h|] == Digits(n) + CRLF;
    DigitsAreDigits(n, 0);
    LeadingDigits(n, CRLF);
    assert (Digits(n) + CRLF)[0] == Digits(n)[0];
  }

  /** fgets on a header line that the end of the file cuts off. */
  lemma CutHeader(tag: Byte, n: nat, s: Bytes)
    requires tag != LF && Fits(n) && s <= Header(tag, n) && 0 < |s| < |Header(tag, n)|
    ensures LineLen(s, LINE_ROOM) == |s| && LineHitsEnd(s, LINE_ROOM) && s[0] == tag
    ensures |s| >= 2 ==> IsDigit(s[1]) && Strtol(s[1..]) >= s[1] - 48 && (n > 0 ==> s[1] >= 49)
    ensures Strtol(s[1..]) >= 0
  {
    hide LineLen, LineHitsEnd, Leading;
    StemBytes(tag, n);
    assert s <= Stem(tag, n);
    LineLenUpTo(s, [], LINE_ROOM);
    if |s| >= 2 {
      DigitsAreDigits(n, 0);
      assert s[1] == Digits(n)[0];
      CutNumber(s[1..]);
    }
  }

  // ---------------------------------------------------------------------
  // Arguments and commands

  lemma WholeArg(a: Bytes, t: Bytes)
    requires |a| < 0x8000_0000_0000_0000
    ensures ReadArg(EncodeArg(a) + t) == Got(a, |EncodeArg(a)|) && (EncodeArg(a) + t)[|EncodeArg(a)|..] == t
  {
    hide LineLen, Strtol, Header;
    SmallFits(|a|);
    var h := Header(DOLLAR, |a|);
    var s := EncodeArg(a) + t;
    assert s == h + (a + CRLF + t);
    WholeHeader(DOLLAR, |a|, a + CRLF + t);
    assert s[|h|..|h| + |a|] == a;
  }

  lemma CutArg(a: Bytes, s: Bytes)
    requires |a| < 0x8000_0000_0000_0000 && s <= EncodeArg(a) && |s| < |EncodeArg(a)|
    ensures ReadArg(s) == Missing(ArgsEof)
  {
    hide LineLen, Strtol, Header;
    SmallFits(|a|);
    var h := Header(DOLLAR, |a|);
    if s == [] {
    } else if |s| < |h| {
      assert s <= h;
      CutHeader(DOLLAR, |a|, s);
      assert s[1..|s|] == s[1..];
    } else {
      var t := s[|h|..];
      assert s == h + t;
      WholeHeader(DOLLAR, |a|, t);
    }
  }

  lemma {:induction false} WholeArgs(args: Command, t: Bytes)
    requires forall i :: 0 <= i < |args| ==> |args[i]| < 0x8000_0000_0000_0000
    ensures ReadArgs(EncodeArgs(args) + t, |args|) == Args(args, t)
  {
    hide EncodeArg, ReadArg;
    if args == [] {
      assert EncodeArgs(args) + t == t;
    } else {
      var rest := EncodeArgs(args[1..]) + t;
      assert EncodeArgs(args) + t == EncodeArg(args[0]) + rest;
      WholeArgs(args[1..], t);
      WholeArg(args[0], rest);
      assert [args[0]] + args[1..] == args;
    }
  }

  lemma {:induction false} CutArgs(args: Command, s: Bytes)
    requires forall i :: 0 <= i < |args| ==> |args[i]| < 0x8000_0000_0000_0000
    requires s <= EncodeArgs(args) && |s| < |EncodeArgs(args)|
    ensures ReadArgs(s, |args|) == ArgsEof
  {
    hide EncodeArg, ReadArg;
    var e := EncodeArg(args[0]);
    if |s| < |e| {
      assert s <= e;
      CutArg(args[0], s);
    } else {
      var t := s[|e|..];
      assert s == e + t && t <= EncodeArgs(args[1..]);
      CutArgs(args[1..], t);
      WholeArg(args[0], t);
    }
  }

  lemma WholeCommand(c: Command, t: Bytes, done: seq<Command>, at: nat)
    requires Printable(c)
    ensures Load(EncodeCommand(c) + t, done, at) == Load(t, done + [c], at + |EncodeCommand(c)|)
  {
    hide LineLen, LineHitsEnd, Strtol, ReadArgs, Header, EncodeArgs;
    SmallFits(|c|);
    var h := Header(STAR, |c|);
    var rest := EncodeArgs(c) + t;
    assert EncodeCommand(c) + t == h + rest;
    WholeHeader(STAR, |c|, rest);
    WholeArgs(c, t);
  }

  lemma CutCommand(c: Command, s: Bytes, done: seq<Command>, at: nat)
    requires Printable(c) && s <= EncodeCommand(c) && 0 < |s| < |EncodeCommand(c)|
    ensures Load(s, done, at) == Truncated(done, at)
  {
    hide LineLen, LineHitsEnd, Strtol, Header, EncodeArgs;
    SmallFits(|c|);
    var h := Header(STAR, |c|);
    if |s| < |h| {
      assert s <= h;
      CutHeader(STAR, |c|, s);
      assert s[1..|s|] == s[1..] && s[|s|..] == [];
    } else {
      var t := s[|h|..];
      assert s == h + t && t <= EncodeArgs(c);
      WholeHeader(STAR, |c|, t);
      CutArgs(c, t);
    }
  }

  // ---------------------------------------------------------------------
  // Whole files

  lemma LoadEnd(done: seq<Command>, at: nat)
    ensures Load([], done, at) == Complete(done)
  {
  }

  /** Behind a whole log loading goes on with what follows. */
  lemma {:induction false} LoadOn(cmds: seq<Command>, t: Bytes, done: seq<Command>, at: nat)
    requires forall i :: 0 <= i < |cmds| ==> Printable(cmds[i])
    ensures Load(Encode(cmds) + t, done, at) == Load(t, done + cmds, at + |Encode(cmds)|)
    decreases |cmds|
  {
    hide EncodeCommand, Printable, Load;
    if cmds == [] {
      assert Encode(cmds) + t == t && done + cmds == done;
    } else {
      var rest := Encode(cmds[1..]) + t;
      assert Encode(cmds) + t == EncodeCommand(cmds[0]) + rest;
      WholeCommand(cmds[0], rest, done, at);
      LoadOn(cmds[1..], t, done + [cmds[0]], at + |EncodeCommand(cmds[0])|);
      assert done + [cmds[0]] + cmds[1..] == done + cmds;
    }
  }

  /** Round trip: loading the log of any commands runs exactly those commands. */
  lemma LoadEncoded(cmds: seq<Command>)
    requires forall i :: 0 <= i < |cmds| ==> Printable(cmds[i])
    ensures Load(Encode(cmds), [], 0) == Complete(cmds)
  {
    hide Encode, Load;
    LoadOn(cmds, [], [], 0);
    LoadEnd(cmds, |Encode(cmds)|);
    assert [] + cmds == cmds && Encode(cmds) + [] == Encode(cmds);
  }

  /** What follows a whole log and is no command: the format error. */
  lemma JunkAfterLog(cmds: seq<Command>, t: Bytes)
    requires (forall i :: 0 <= i < |cmds| ==> Printable(cmds[i])) && t != [] && t[0] != STAR
    ensures Load(Encode(cmds) + t, [], 0) == FormatError
  {
    hide Encode, Printable, Load;
    LoadOn(cmds, t, [], 0);
    NoStar(t, [] + cmds, 0 + |Encode(cmds)|);
  }

  lemma NoStar(t: Bytes, done: seq<Command>, at: nat)
    requires t != [] && t[0] != STAR
    ensures Load(t, done, at) == FormatError
  {
    hide ReadArgs, LineLen, Strtol;
  }

  lemma NoArgumentsAfterLog(cmds: seq<Command>, t: Bytes)
    requires forall i :: 0 <= i < |cmds| ==> Printable(cmds[i])
    ensures Load(Encode(cmds) + (Header(STAR, 0) + t), [], 0) == FormatError
  {
    hide Encode, Printable, Header, LineLen, Strtol;
    LoadOn(cmds, Header(STAR, 0) + t, [], 0);
    SmallFits(0);
    WholeHeader(STAR, 0, t);
  }

  lemma BadArgumentAfterLog(cmds: seq<Command>, n: nat, t: Bytes)
    requires (forall i :: 0 <= i < |cmds| ==> Printable(cmds[i])) && 0 < n < 0x8000_0000 && t != [] && t[0] != DOLLAR
    ensures Load(Encode(cmds) + (Header(STAR, n) + t), [], 0) == FormatError
  {
    hide Encode, Printable, Header, LineLen, Strtol;
    LoadOn(cmds, Header(STAR, n) + t, [], 0);
    SmallFits(n);
    WholeHeader(STAR, n, t);
    assert ReadArg(t) == Missing(ArgsFormat);
    assert ReadArgs(t, n) == ArgsFormat;
  }

  /** PING as it stands in the file. */
  lemma PingInFile()
    ensures EncodeCommand([[80, 73, 78, 71]]) == [42, 49, 13, 10, 36, 52, 13, 10, 80, 73, 78, 71, 13, 10]
  {
    var ping: Bytes := [80, 73, 78, 71];
    assert Digits(1) == [49] && Digits(4) == [52];
    assert EncodeArgs([ping]) == EncodeArg(ping) + EncodeArgs([ping][1..]);
    assert [ping][1..] == [];
    assert EncodeArg(ping) == [36, 52, 13, 10, 80, 73, 78, 71, 13, 10];
  }

  /** How many commands lie completely within the first k bytes of the log. */
  function Contained(cmds: seq<Command>, k: nat): (n: nat)
    ensures n <= |cmds|
  {
    if cmds == [] || k < |EncodeCommand(cmds[0])| then 0
    else 1 + Contained(cmds[1..], k - |EncodeCommand(cmds[0])|)
  }

  /** That number is right: the commands fit, and one more does not. */
  lemma {:induction false} ContainedIsMaximal(cmds: seq<Command>, k: nat)
    ensures var n := Contained(cmds, k);
            && |Encode(cmds[..n])| <= k
            && (n < |cmds| ==> k < |Encode(cmds[..n + 1])|)
  {
    hide EncodeCommand;
    var n := Contained(cmds, k);
    if n == 0 {
      assert cmds[..0] == [];
      if cmds != [] {
        assert cmds[..1][0] == cmds[0] && cmds[..1][1..] == [];
      }
    } else {
      ContainedIsMaximal(cmds[1..], k - |EncodeCommand(cmds[0])|);
      assert cmds[..n][1..] == cmds[1..][..n - 1];
      if n < |cmds| { assert cmds[..n + 1][1..] == cmds[1..][..n]; }
    }
  }

  lemma EncodeCons(cmds: seq<Command>)
    ensures cmds == [] ==> Encode(cmds) == []
    ensures cmds != [] ==> Encode(cmds) == EncodeCommand(cmds[0]) + Encode(cmds[1..])
  {
  }

  lemma ContainedCons(cmds: seq<Command>, k: nat)
    ensures cmds == [] ==> Contained(cmds, k) == 0
    ensures cmds != [] && k < |EncodeCommand(cmds[0])| ==> Contained(cmds, k) == 0
    ensures cmds != [] && k >= |EncodeCommand(cmds[0])| ==>
              Contained(cmds, k) == 1 + Contained(cmds[1..], k - |EncodeCommand(cmds[0])|)
  {
  }

  lemma {:induction false} LoadCut(cmds: seq<Command>, k: nat, done: seq<Command>, at: nat)
    requires (forall i :: 0 <= i < |cmds| ==> Printable(cmds[i])) && k <= |Encode(cmds)|
    ensures var n := Contained(cmds, k);
            var whole := |Encode(cmds[..n])|;
            whole <= k && Load(Encode(cmds)[..k], done, at) ==
              if whole == k then Complete(done + cmds[..n]) else Truncated(done + cmds[..n], at + whole)
    decreases |cmds|
  {
    hide EncodeCommand, Printable, Load, Encode, Contained;
    LoadEnd(done, at);
    EncodeCons(cmds);
    ContainedCons(cmds, k);
    var n := Contained(cmds, k);
    var s := Encode(cmds)[..k];
    if n == 0 {
      assert cmds[..0] == [] && done + [] == done;
      EncodeCons(cmds[..0]);
      if k > 0 {
        assert s <= EncodeCommand(cmds[0]);
        CutCommand(cmds[0], s, done, at);
      }
    } else {
      var e := EncodeCommand(cmds[0]);
      var t := Encode(cmds[1..])[..k - |e|];
      assert s == e + t;
      WholeCommand(cmds[0], t, done, at);
      LoadCut(cmds[1..], k - |e|, done + [cmds[0]], at + |e|);
      assert cmds[..n][0] == cmds[0] && cmds[..n][1..] == cmds[1..][..n - 1];
      EncodeCons(cmds[..n]);
      assert done + [cmds[0]] + cmds[1..][..n - 1] == done + cmds[..n];
    }
  }

  /**
    A log cut off after any number of bytes: the loader runs exactly the commands that are
    completely there and truncates the file behind the last of them; it never takes the
    format-error exit.
   */
  lemma LoadPrefix(cmds: seq<Command>, k: nat)
    requires (forall i :: 0 <= i < |cmds| ==> Printable(cmds[i])) && 0 < k <= |Encode(cmds)|
    ensures var n := Contained(cmds, k);
            var whole := |Encode(cmds[..n])|;
            Load(Encode(cmds)[..k], [], 0) == if whole == k then Complete(cmds[..n]) else Truncated(cmds[..n], whole)
  {
    LoadCut(cmds, k, [], 0);
    assert [] + cmds[..Contained(cmds, k)] == cmds[..Contained(cmds, k)];
  }

  // ---------------------------------------------------------------------
  // Rewriting a list as RPUSH commands of at most 64 elements

  const ITEMS_PER_CMD: nat := 64
  const RPUSH: Bytes := [82, 80, 85, 83, 72]

  function ChunkSize(n: nat): nat { if n > ITEMS_PER_CMD then ITEMS_PER_CMD else n }

  function RPushes(key: Bytes, elems: Command): (cmds: seq<Command>)
    decreases |elems|
  {
    if elems == [] then []
    else [[RPUSH, key] + elems[..ChunkSize(|elems|)]] + RPushes(key, elems[ChunkSize(|elems|)..])
  }

  /** What running RPUSH commands for one key appends to its list. */
  function Pushed(cmds: seq<Command>): Command
    requires forall i :: 0 <= i < |cmds| ==> |cmds[i]| >= 2
  {
    if cmds == [] then [] else cmds[0][2..] + Pushed(cmds[1..])
  }

  /** The commands rebuild the list, each with one to 64 elements for the given key. */
  lemma {:induction false} RPushesRebuild(key: Bytes, elems: Command)
    ensures var cmds := RPushes(key, elems);
            && (forall i :: 0 <= i < |cmds| ==> 3 <= |cmds[i]| <= 2 + ITEMS_PER_CMD && cmds[i][..2] == [RPUSH, key])
            && Pushed(cmds) == elems
    decreases |elems|
  {
    if elems != [] {
      var n := ChunkSize(|elems|);
      RPushesRebuild(key, elems[n..]);
      var cmds := RPushes(key, elems);
      assert cmds[0][..2] == [RPUSH, key] && cmds[0][2..] == elems[..n];
      assert cmds[1..] == RPushes(key, elems[n..]);
      assert elems == elems[..n] + elems[n..];
    }
  }

  lemma ArgsCons(args: Command)
    requires args != []
    ensures EncodeArgs(args) == EncodeArg(args[0]) + EncodeArgs(args[1..])
  {
  }

  lemma Assoc(a: Bytes, b: Bytes, c: Bytes)
    ensures a + (b + c) == (a + b) + c
  {
  }

  lemma Assoc5(h: Bytes, r: Bytes, k: Bytes, e: Bytes, t: Bytes)
    ensures (h + (r + (k + e))) + t == h + r + k + (e + t)
  {
  }

  lemma RPushesCons(key: Bytes, elems: Command)
    requires elems != []
    ensures var n := ChunkSize(|elems|);
            var cmds := RPushes(key, elems);
            cmds != [] && cmds[0] == [RPUSH, key] + elems[..n] && cmds[1..] == RPushes(key, elems[n..])
  {
  }

  lemma OpenChunk(key: Bytes, elems: Command)
    requires elems != []
    ensures var n := ChunkSize(|elems|);
            Encode(RPushes(key, elems)) ==
              Header(STAR, 2 + n) + EncodeArg(RPUSH) + EncodeArg(key) + (EncodeArgs(elems[..n]) + Encode(RPushes(key, elems[n..])))
  {
    hide Header, EncodeArg, EncodeArgs, Encode, RPushes, EncodeCommand;
    var n := ChunkSize(|elems|);
    RPushesCons(key, elems);
    PushFirst(key, n, elems[..n], RPushes(key, elems), RPushes(key, elems[n..]));
  }

  lemma PushFirst(key: Bytes, n: nat, some: Command, cmds: seq<Command>, more: seq<Command>)
    requires |some| == n && cmds != [] && cmds[0] == [RPUSH, key] + some && cmds[1..] == more
    ensures Encode(cmds) == Header(STAR, 2 + n) + EncodeArg(RPUSH) + EncodeArg(key) + (EncodeArgs(some) + Encode(more))
  {
    hide Header, EncodeArg, EncodeArgs, Encode, EncodeCommand;
    EncodeCons(cmds);
    PushCommand(key, some);
    Assoc5(Header(STAR, 2 + n), EncodeArg(RPUSH), EncodeArg(key), EncodeArgs(some), Encode(more));
  }

  lemma PushCommand(key: Bytes, some: Command)
    ensures EncodeCommand([RPUSH, key] + some)
            == Header(STAR, 2 + |some|) + (EncodeArg(RPUSH) + (EncodeArg(key) + EncodeArgs(some)))
  {
    hide Header, EncodeArg, EncodeArgs;
    var c := [RPUSH, key] + some;
    ArgsCons(c);
    ArgsCons(c[1..]);
    assert c[0] == RPUSH && c[1..][0] == key && c[1..][1..] == some;
  }

  /** What is still to be written when the elements up to `end` belong to the open command. */
  ghost function Remaining(key: Bytes, elems: Command, i: nat, end: nat): Bytes
    requires i <= end <= |elems|
  {
    EncodeArgs(elems[i..end]) + Encode(RPushes(key, elems[end..]))
  }

  /** Writing the header of a new command. */
  lemma RemainingOpens(key: Bytes, elems: Command, i: nat)
    requires i < |elems|
    ensures var n := ChunkSize(|elems| - i);
            Remaining(key, elems, i, i) == Header(STAR, 2 + n) + EncodeArg(RPUSH) + EncodeArg(key) + Remaining(key, elems, i, i + n)
  {
    hide Header, EncodeArg, Encode, RPushes;
    var n := ChunkSize(|elems| - i);
    assert elems[i..i] == [];
    OpenChunk(key, elems[i..]);
    assert elems[i..][..n] == elems[i..i + n] && elems[i..][n..] == elems[i + n..];
  }

  /** Writing one element. */
  lemma RemainingElement(key: Bytes, elems: Command, i: nat, end: nat)
    requires i < end <= |elems|
    ensures Remaining(key, elems, i, end) == EncodeArg(elems[i]) + Remaining(key, elems, i + 1, end)
  {
    hide Header, EncodeArg, EncodeArgs, Encode, RPushes;
    ArgsCons(elems[i..end]);
    assert elems[i..end][0] == elems[i] && elems[i..end][1..] == elems[i + 1..end];
    Assoc(EncodeArg(elems[i]), EncodeArgs(elems[i + 1..end]), Encode(RPushes(key, elems[end..])));
  }

  /** rewriteListObject: headers announce exactly the elements that follow them. */
  method RewriteListObject(key: Bytes, elems: Command) returns (out: Bytes)
    ensures out == Encode(RPushes(key, elems))
  {
    hide Header, EncodeArg, Encode, RPushes, Remaining;
    out := [];
    var i, count, items := 0, 0, |elems|;
    ghost var end := 0;
    RemainingStart(key, elems);
    while i < |elems|
      invariant i + items == |elems| && 0 <= count < ITEMS_PER_CMD && 0 <= i <= end <= |elems|
      invariant end == if count == 0 then i else i + ChunkSize(items + count) - count
      invariant out + Remaining(key, elems, i, end) == Encode(RPushes(key, elems))
    {
      if count == 0 {
        var cmdItems := ChunkSize(items);
        RemainingOpens(key, elems, i);
        end := i + cmdItems;
        var head := Header(STAR, 2 + cmdItems) + EncodeArg(RPUSH) + EncodeArg(key);
        Assoc(out, head, Remaining(key, elems, i, end));
        out := out + head;
      }
      RemainingElement(key, elems, i, end);
      Assoc(out, EncodeArg(elems[i]), Remaining(key, elems, i + 1, end));
      out := out + EncodeArg(elems[i]);
      count := count + 1;
      if count == ITEMS_PER_CMD { count := 0; }
      items := items - 1;
      i := i + 1;
    }
    RewriteEnd(key, elems, i, end, out);
  }

  lemma RemainingStart(key: Bytes, elems: Command)
    ensures [] + Remaining(key, elems, 0, 0) == Encode(RPushes(key, elems))
  {
    hide Encode, RPushes;
    assert elems[0..0] == [] && elems[0..] == elems;
  }

  lemma RewriteEnd(key: Bytes, elems: Command, i: nat, end: nat, out: Bytes)
    requires i == end == |elems|
    ensures out + Remaining(key, elems, i, end) == out
  {
    assert elems[i..end] == [] && elems[end..] == [];
  }
}
