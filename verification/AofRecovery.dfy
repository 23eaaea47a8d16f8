/**
  The two halves of aof.c together: whatever commands, flushes and rewrites came before, loading
  the file as it is at some moment runs exactly the commands that are wholly in it, in order.
 */
module AofRecovery {
  import opened Basics
  import opened AofServer
  import opened AofFormat

  ghost predicate AllPrintable(cmds: seq<Command>)
  {
    forall i :: 0 <= i < |cmds| ==> Printable(cmds[i])
  }

  /** `bytes` are the encoded commands, and `point` is where those from number n on begin. */
  ghost predicate Records(bytes: Bytes, cmds: seq<Command>, point: nat, n: nat)
  {
    n <= |cmds| && AllPrintable(cmds) && bytes == Encode(cmds) && point == |Encode(cmds[..n])|
  }

  lemma {:induction false} EncodeAppend(a: seq<Command>, b: seq<Command>)
    ensures Encode(a + b) == Encode(a) + Encode(b)
  {
    hide EncodeCommand, Encode;
    EncodeCons(a);
    EncodeCons(a + b);
    if a == [] {
      assert a + b == b;
    } else {
      EncodeAppend(a[1..], b);
      assert (a + b)[1..] == a[1..] + b && (a + b)[0] == a[0];
      assert Encode(a + b) == EncodeCommand(a[0]) + (Encode(a[1..]) + Encode(b));
    }
  }

  /** One more command at the end leaves every point where it is. */
  lemma RecordsAppend(bytes: Bytes, cmds: seq<Command>, point: nat, n: nat, c: Command)
    requires Records(bytes, cmds, point, n) && Printable(c)
    ensures Records(bytes + EncodeCommand(c), cmds + [c], point, n)
  {
    hide EncodeCommand, Printable;
    EncodeAppend(cmds, [c]);
    OneCommand(c);
    assert (cmds + [c])[..n] == cmds[..n];
  }

  lemma RecordsFit(bytes: Bytes, cmds: seq<Command>, point: nat, n: nat)
    requires Records(bytes, cmds, point, n)
    ensures n <= |cmds|
  {
  }

  lemma TailAppend(base: seq<Command>, cmds: seq<Command>, n: nat, c: Command)
    requires n <= |cmds|
    ensures base + (cmds + [c])[n..] == base + cmds[n..] + [c]
  {
  }

  lemma OneCommand(c: Command)
    ensures Encode([c]) == EncodeCommand(c)
  {
    hide EncodeCommand;
    assert Encode([c][1..]) == [];
  }

  /** What follows the point are the commands from number n on. */
  lemma RecordsTail(bytes: Bytes, cmds: seq<Command>, point: nat, n: nat)
    requires Records(bytes, cmds, point, n)
    ensures point <= |bytes| && bytes[point..] == Encode(cmds[n..]) && AllPrintable(cmds[n..])
  {
    hide EncodeCommand, Printable;
    EncodeAppend(cmds[..n], cmds[n..]);
    assert cmds == cmds[..n] + cmds[n..];
  }

  /** A server whose log consists of commands. */
  class Journal {
    const server: Server
    /** The commands fed, and how many of them when the present log began and when the child was forked. */
    ghost var fed: seq<Command>
    ghost var logFrom: nat
    ghost var forkFrom: nat
    /** The commands the present log began with, and those of the child's snapshot. */
    ghost var base: seq<Command>
    ghost var snapshot: seq<Command>

    ghost predicate Valid()
      reads this, server
    {
      && server.Valid()
      && Records(server.fed, fed, server.basePoint, logFrom)
      && AllPrintable(base) && server.base == Encode(base)
      && (server.childRunning ==>
            Records(server.fed, fed, server.forkPoint, forkFrom) && AllPrintable(snapshot) && server.snapshot == Encode(snapshot))
    }

    /** The commands the log holds, written or still in the buffer. */
    ghost function Log(): seq<Command>
      requires logFrom <= |fed|
      reads this
    {
      base + fed[logFrom..]
    }

    /** A server that has loaded a log of these commands. */
    constructor (blockSize: nat, cmds: seq<Command>)
      requires blockSize > 0 && AllPrintable(cmds)
      ensures Valid() && Log() == cmds && server.state == On
    {
      server := new Server(blockSize, Encode(cmds));
      fed, logFrom, forkFrom, base, snapshot := [], 0, 0, cmds, [];
    }

    /** A command is fed while AOF is not off. */
    method Append(c: Command)
      requires Valid() && server.state != Off && Printable(c)
      modifies this`fed, server
      ensures Valid() && Log() == old(Log()) + [c]
      ensures server.state == old(server.state) && server.childRunning == old(server.childRunning) && server.file == old(server.file)
    {
      hide Encode, EncodeCommand, Printable, Records, AllPrintable, Concat, BlocksFit, Server.Valid;
      var buf := CatCommand([], c);
      assert buf == EncodeCommand(c);
      RecordsFit(server.fed, fed, server.basePoint, logFrom);
      RecordsAppend(server.fed, fed, server.basePoint, logFrom, c);
      if server.childRunning { RecordsAppend(server.fed, fed, server.forkPoint, forkFrom, c); }
      server.Feed(buf);
      TailAppend(base, fed, logFrom, c);
      fed := fed + [c];
    }

    /** A flush with any outcome; if the process exits, the file still begins like the log. */
    method Flush(postponed: bool, nwritten: int, truncated: bool, fsyncAlways: bool) returns (exits: bool)
      requires Valid() && server.state == On && -1 <= nwritten <= |server.aofBuf|
      modifies server
      ensures !exits ==> Valid() && server.state == On
      ensures logFrom <= |fed| && Log() == old(Log()) && server.file <= Encode(Log())
    {
      hide Encode, EncodeCommand, Printable, Concat, BlocksFit;
      LogBytes();
      ghost var n := if postponed || nwritten < 0 || (truncated && nwritten < |server.aofBuf|) then 0 else nwritten;
      PartOfLog(server.file, server.aofBuf, n);
      exits := server.Flush(postponed, nwritten, truncated, fsyncAlways);
    }

    /** The child is forked with the data set that these commands rebuild. */
    method Fork(data: seq<Command>, pipesOk: bool, forkOk: bool) returns (ok: bool)
      requires Valid() && AllPrintable(data)
      modifies this`forkFrom, this`snapshot, server
      ensures Valid() && Log() == old(Log()) && server.state == old(server.state)
      ensures ok ==> snapshot == data && forkFrom == |fed|
    {
      hide Encode, EncodeCommand, Printable;
      ok := server.Fork(Encode(data), pipesOk, forkOk);
      if ok {
        forkFrom, snapshot := |fed|, data;
        assert fed[..|fed|] == fed;
      }
    }

    /** Every other step of the parent, the child or the pipe touches neither what was fed nor where the logs begin. */
    twostate lemma OtherSteps()
      requires old(Valid()) && server.Valid()
      requires fed == old(fed) && logFrom == old(logFrom) && forkFrom == old(forkFrom) && base == old(base) && snapshot == old(snapshot)
      requires server.fed == old(server.fed) && server.base == old(server.base) && server.basePoint == old(server.basePoint)
      requires server.forkPoint == old(server.forkPoint) && server.snapshot == old(server.snapshot)
      requires server.childRunning ==> old(server.childRunning)
      ensures Valid() && Log() == old(Log())
    {
    }

    /** The end of a rewrite: on success the log is the snapshot and all commands since the fork. */
    method RewriteDone(exitOk: bool, openOk: bool, writesComplete: bool, renamed: bool) returns (switched: bool)
      requires Valid() && server.state == On && server.childRunning && (exitOk <==> server.phase == Finished)
      modifies this`base, this`logFrom, server
      ensures Valid() && server.state == On && !server.childRunning
      ensures Log() == if switched then old(snapshot) + fed[forkFrom..] else old(Log())
    {
      hide Encode, EncodeCommand, Printable;
      switched := server.RewriteDone(exitOk, openOk, writesComplete, renamed);
      if switched { base, logFrom := snapshot, forkFrom; }
    }

    lemma LogBytes()
      requires Valid() && server.state == On
      ensures logFrom <= |fed| && server.file + server.aofBuf == Encode(Log()) && AllPrintable(Log())
    {
      hide Encode, EncodeCommand, Printable;
      RecordsTail(server.fed, fed, server.basePoint, logFrom);
      EncodeAppend(base, fed[logFrom..]);
    }

    /** At any moment: loading the file runs exactly the commands of the log that are wholly written. */
    method Recover() returns (o: Outcome)
      requires Valid() && server.state == On && server.file != []
      ensures var n := Contained(Log(), |server.file|);
              && |Encode(Log()[..n])| <= |server.file|
              && (n < |Log()| ==> |server.file| < |Encode(Log()[..n + 1])|)
              && o == if |Encode(Log()[..n])| == |server.file| then Complete(Log()[..n])
                      else Truncated(Log()[..n], |Encode(Log()[..n])|)
    {
      hide Encode, EncodeCommand, Printable, Contained, Load, Concat, LogHolds, BlocksFit, Records, AllPrintable;
      LogBytes();
      LoadWritten(Log(), server.file);
      o := LoadAppendOnlyFile(server.file);
    }
  }

  lemma PartOfLog(file: Bytes, buf: Bytes, n: nat)
    requires n <= |buf|
    ensures file + buf[..n] <= file + buf
  {
  }

  /** The same for any file that begins like the log, as an interrupted write leaves it. */
  lemma LoadWritten(cmds: seq<Command>, file: Bytes)
    requires AllPrintable(cmds) && file != [] && file <= Encode(cmds)
    ensures var n := Contained(cmds, |file|);
            && |Encode(cmds[..n])| <= |file|
            && (n < |cmds| ==> |file| < |Encode(cmds[..n + 1])|)
            && Load(file, [], 0) == if |Encode(cmds[..n])| == |file| then Complete(cmds[..n])
                                    else Truncated(cmds[..n], |Encode(cmds[..n])|)
  {
    hide Encode, EncodeCommand, Printable, Contained;
    assert file == Encode(cmds)[..|file|];
    LoadPrefix(cmds, |file|);
    ContainedIsMaximal(cmds, |file|);
  }
}
