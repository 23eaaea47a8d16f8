/**
  The append only file of aof.c while the server runs: commands are fed to a
  buffer, the buffer is flushed to the file with writes that may fail or fall
  short, and a child process rewrites the file while the parent sends it, over
  a pipe, the commands executed meanwhile.

  The operating system's choices (how many bytes a write or a read moves, whether
  ftruncate, rename and the like succeed) are parameters or nondeterministic.
 */
module AofServer {
  import opened Basics

  /** aofrwblock: `used` bytes of buf are in use. */
  datatype Block = Block(buf: seq<Byte>, free: nat)

  datatype AofState = Off | On | WaitRewrite

  /** The rewriting child: copying the data set, asked the parent to stop, done, or dead. */
  datatype Phase = Working | Asked | Finished | Failed

  function Concat(blocks: seq<Block>): seq<Byte>
  {
    if blocks == [] then [] else blocks[0].buf + Concat(blocks[1..])
  }

  lemma {:induction false} ConcatAppend(a: seq<Block>, b: seq<Block>)
    ensures Concat(a + b) == Concat(a) + Concat(b)
  {
    if a == [] {
      assert a + b == b;
    } else {
      assert (a + b)[1..] == a[1..] + b;
      ConcatAppend(a[1..], b);
    }
  }

  lemma Divided(file: seq<Byte>, buf: seq<Byte>, n: nat)
    requires n <= |buf|
    ensures (file + buf[..n]) + buf[n..] == file + buf
    ensures n == |buf| ==> buf[n..] == [] && (file + buf[..n]) + [] == file + buf
  {
    assert buf == buf[..n] + buf[n..];
  }

  lemma Joined(a: seq<Byte>, b: seq<Byte>, c: seq<Byte>)
    ensures (a + b) + c == a + (b + c) && b + [] == b
  {
  }

  lemma ConcatOne(b: Block)
    ensures Concat([b]) == b.buf
  {
    assert Concat([b]) == b.buf + Concat([b][1..]);
    assert [b][1..] == [];
  }

  lemma ConcatLast(blocks: seq<Block>)
    requires blocks != []
    ensures Concat(blocks) == Concat(blocks[..|blocks| - 1]) + blocks[|blocks| - 1].buf
  {
    hide Concat;
    var front, last := blocks[..|blocks| - 1], blocks[|blocks| - 1];
    ConcatSnoc(front, last);
    assert front + [last] == blocks;
  }

  lemma ConcatFirst(blocks: seq<Block>)
    requires blocks != []
    ensures Concat(blocks) == blocks[0].buf + Concat(blocks[1..])
  {
  }

  lemma NothingLeft(pipe: seq<Byte>, blocks: seq<Block>)
    ensures blocks == [] ==> Concat(blocks) == [] && pipe + Concat(blocks) == pipe
  {
  }

  /** The bytes of several commands. */
  function AllBytes(bufs: seq<seq<Byte>>): seq<Byte>
  {
    if bufs == [] then [] else AllBytes(bufs[..|bufs| - 1]) + bufs[|bufs| - 1]
  }

  lemma NoBytes(bufs: seq<seq<Byte>>, fed: seq<Byte>)
    ensures fed + AllBytes(bufs[..0]) == fed
  {
  }

  lemma MoreBytes(fed: seq<Byte>, bufs: seq<seq<Byte>>, i: nat)
    requires i < |bufs|
    ensures fed + AllBytes(bufs[..i + 1]) == (fed + AllBytes(bufs[..i])) + bufs[i]
  {
    assert bufs[..i + 1][..i] == bufs[..i] && bufs[..i + 1][i] == bufs[i];
    Joined(fed, AllBytes(bufs[..i]), bufs[i]);
  }

  lemma Suffix(a: seq<Byte>, b: seq<Byte>, c: seq<Byte>)
    ensures (a + b + c)[|a|..] == b + c
  {
  }

  lemma ConcatSnoc(front: seq<Block>, last: Block)
    ensures Concat(front + [last]) == Concat(front) + last.buf
  {
    hide Concat;
    ConcatAppend(front, [last]);
    ConcatOne(last);
  }

  ghost predicate LogHolds(state: AofState, file: seq<Byte>, aofBuf: seq<Byte>, currentSize: nat,
                           fed: seq<Byte>, base: seq<Byte>, basePoint: nat)
  {
    && basePoint <= |fed|
    && (state == On ==> file + aofBuf == base + fed[basePoint..] && currentSize == |file|)
  }

  lemma NewLog(file: seq<Byte>, fed: seq<Byte>, base: seq<Byte>, basePoint: nat)
    requires basePoint <= |fed| && file == base + fed[basePoint..]
    ensures LogHolds(On, file, [], |file|, fed, base, basePoint)
  {
  }

  /** While AOF is off nothing is said of the file. */
  lemma IdleLog(file: seq<Byte>, aofBuf: seq<Byte>, size: nat, fed: seq<Byte>, base: seq<Byte>, basePoint: nat, file': seq<Byte>)
    requires LogHolds(Off, file, aofBuf, size, fed, base, basePoint)
    ensures LogHolds(Off, file', aofBuf, size, fed, base, basePoint)
  {
  }

  ghost predicate BlocksFit(blockSize: nat, blocks: seq<Block>)
  {
    blockSize > 0 && forall i :: 0 <= i < |blocks| ==> |blocks[i].buf| + blocks[i].free <= blockSize
  }

  /** ftruncate: cut off or extended with zeros. */
  function Resized(file: seq<Byte>, size: nat): (r: seq<Byte>)
    ensures |r| == size
  {
    if size <= |file| then file[..size] else file + seq(size - |file|, _ => 0)
  }

  class Server {
    /** AOF_RW_BUF_BLOCK_SIZE */
    const blockSize: nat

    // server.aof_*
    var state: AofState
    var aofBuf: seq<Byte>
    var currentSize: nat
    var childRunning: bool
    var blocks: seq<Block>
    var stopSendingDiff: bool

    // the file behind aof_fd, and the three pipes
    var file: seq<Byte>
    var dataPipe: seq<Byte>
    var askPipe: bool
    var ackPipe: bool

    // the child process; `snapshot` is its copy of the data set, written as commands
    var phase: Phase
    var snapshot: seq<Byte>
    var childDiff: seq<Byte>
    var tmpFile: seq<Byte>

    /** Everything fed so far, and how much of it when the child was forked. */
    ghost var fed: seq<Byte>
    ghost var forkPoint: nat
    /** What the log must contain: some commands, and everything fed since some point. */
    ghost var base: seq<Byte>
    ghost var basePoint: nat

    /** The log as it must be: written plus buffered bytes. */
    ghost predicate LogOK()
      reads this
    {
      LogHolds(state, file, aofBuf, currentSize, fed, base, basePoint)
    }

    /** Bytes fed since the fork: received by the child, in the pipe, or still in blocks, in this order. */
    ghost predicate RewriteOK()
      reads this
    {
      && BlocksOK()
      && (!childRunning ==> blocks == [])
      && (childRunning ==> forkPoint <= |fed| && fed[forkPoint..] == childDiff + dataPipe + Concat(blocks))
    }

    /** Once the parent has acknowledged, nothing more enters the pipe; a finished child has emptied it. */
    ghost predicate HandshakeOK()
      reads this
    {
      childRunning ==>
        && (ackPipe ==> stopSendingDiff)
        && (phase == Finished ==> stopSendingDiff && dataPipe == [] && tmpFile == snapshot + childDiff)
    }

    ghost predicate Valid()
      reads this
    {
      LogOK() && RewriteOK() && HandshakeOK()
    }

    /** A server that has just loaded a file and has AOF on. */
    constructor (blockSize: nat, contents: seq<Byte>)
      requires blockSize > 0
      ensures Valid() && state == On && file == contents && aofBuf == [] && !childRunning
      ensures base == contents && fed == [] && basePoint == 0
    {
      this.blockSize := blockSize;
      state, aofBuf, currentSize := On, [], |contents|;
      childRunning, blocks, stopSendingDiff := false, [], false;
      file, dataPipe, askPipe, ackPipe := contents, [], false, false;
      phase, childDiff, tmpFile := Failed, [], [];
      fed, forkPoint, snapshot, base, basePoint := [], 0, [], contents, 0;
    }

    // -------------------------------------------------------------------
    // The parent: feeding and flushing

    ghost predicate BlocksOK()
      reads this
    {
      BlocksFit(blockSize, blocks)
    }

    /** Fill the free part of the last block; returns what did not fit. */
    method FillLastBlock(s: seq<Byte>) returns (rest: seq<Byte>)
      requires BlocksOK() && |blocks| > 0 && s != []
      modifies this`blocks
      ensures BlocksOK() && |blocks| == old(|blocks|) && Concat(blocks) + rest == old(Concat(blocks)) + s
      ensures |rest| <= |s| && (old(blocks[|blocks| - 1].free) > 0 ==> |rest| < |s|)
    {
      hide Concat;
      var last := |blocks| - 1;
      var block := blocks[last];
      var thislen := if block.free < |s| then block.free else |s|;
      rest := s[thislen..];
      ConcatLast(blocks);
      ghost var front := Concat(blocks[..last]);
      blocks := blocks[last := Block(block.buf + s[..thislen], block.free - thislen)];
      ConcatLast(blocks);
      assert blocks[..last] == old(blocks)[..last];
      assert s == s[..thislen] + rest;
      assert (front + block.buf) + (s[..thislen] + rest) == (front + (block.buf + s[..thislen])) + rest;
    }

    /** aofRewriteBufferAppend */
    method RewriteBufferAppend(s: seq<Byte>)
      requires BlocksOK()
      modifies this`blocks
      ensures BlocksOK() && Concat(blocks) == old(Concat(blocks)) + s
    {
      hide Concat;
      var rest := s;
      while rest != []
        invariant BlocksOK()
        invariant Concat(blocks) + rest == old(Concat(blocks)) + s
        decreases |rest|, if |blocks| > 0 && blocks[|blocks| - 1].free > 0 then 0 else 1
      {
        if |blocks| > 0 { rest := FillLastBlock(rest); }
        if rest != [] {
          ConcatAppend(blocks, [Block([], blockSize)]);
          ConcatEmpty(blockSize);
          blocks := blocks + [Block([], blockSize)];
        }
      }
      assert Concat(blocks) + [] == Concat(blocks);
    }

    /** The end of feedAppendOnlyFile; the caller has checked that AOF is not off. */
    method Feed(buf: seq<Byte>)
      requires Valid() && state != Off
      modifies this`aofBuf, this`blocks, this`fed
      ensures Valid() && fed == old(fed) + buf
      ensures aofBuf == if state == On then old(aofBuf) + buf else old(aofBuf)
      ensures Concat(blocks) == if childRunning then old(Concat(blocks)) + buf else old(Concat(blocks))
    {
      hide Concat;
      fed := fed + buf;
      assert fed[basePoint..] == old(fed)[basePoint..] + buf;
      if state == On {
        aofBuf := aofBuf + buf;
        assert file + aofBuf == (file + old(aofBuf)) + buf;
        assert base + fed[basePoint..] == (base + old(fed)[basePoint..]) + buf;
      }
      if childRunning {
        RewriteBufferAppend(buf);
        assert fed[forkPoint..] == old(fed)[forkPoint..] + buf;
        assert childDiff + dataPipe + Concat(blocks) == (childDiff + dataPipe + old(Concat(blocks))) + buf;
      }
    }

    /**
      flushAppendOnlyFile. `nwritten` is what write(2) returns, `truncated` whether ftruncate(2)
      can undo a short write. The result says whether the process exits, which it does after a
      failed write under the `always` policy.
     */
    method Flush(postponed: bool, nwritten: int, truncated: bool, fsyncAlways: bool) returns (exits: bool)
      requires Valid() && -1 <= nwritten <= |aofBuf|
      modifies this`file, this`aofBuf, this`currentSize
      ensures !exits ==> Valid()
      ensures exits <==> old(aofBuf) != [] && fsyncAlways && !postponed && nwritten < |old(aofBuf)|
      ensures |old(file)| == old(currentSize) ==>
                var n := if postponed || nwritten < 0 || (truncated && nwritten < |old(aofBuf)|) then 0 else nwritten;
                file == old(file) + old(aofBuf)[..n] && (!exits ==> aofBuf == old(aofBuf)[n..])
    {
      hide Concat, BlocksFit;
      if |aofBuf| == 0 || postponed { return false; }
      var n := nwritten;
      if n > 0 { file := file + aofBuf[..n]; }
      if n != |aofBuf| {
        if n != -1 && truncated {
          file := Resized(file, currentSize);
          n := -1;
        }
        if fsyncAlways { return true; }
        if n > 0 {
          currentSize := currentSize + n;
          Divided(old(file), aofBuf, n);
          aofBuf := aofBuf[n..];
        }
        return false;
      }
      currentSize := currentSize + n;
      Divided(old(file), aofBuf, n);
      aofBuf := [];
      return false;
    }

    // -------------------------------------------------------------------
    // The rewrite

    /** aofCreatePipes */
    method CreatePipes()
      requires !childRunning
      modifies this`stopSendingDiff, this`dataPipe, this`askPipe, this`ackPipe
      ensures dataPipe == [] && !askPipe && !ackPipe && !stopSendingDiff
    {
      dataPipe, askPipe, ackPipe := [], false, false;
      stopSendingDiff := false;
    }

    /**
      rewriteAppendOnlyFileBackground: the child's data set is `data`, written as commands; the
      pipes or the fork may fail.
     */
    method Fork(data: seq<Byte>, pipesOk: bool, forkOk: bool) returns (ok: bool)
      requires Valid()
      modifies this`childRunning, this`stopSendingDiff, this`dataPipe, this`askPipe, this`ackPipe,
               this`phase, this`childDiff, this`tmpFile, this`forkPoint, this`snapshot
      ensures Valid() && ok == (!old(childRunning) && pipesOk && forkOk)
      ensures ok ==> childRunning && phase == Working && forkPoint == |fed| && snapshot == data
      ensures ok ==> dataPipe == [] && !askPipe && !ackPipe && !stopSendingDiff
      ensures !ok ==> childRunning == old(childRunning) && phase == old(phase) && forkPoint == old(forkPoint)
                      && snapshot == old(snapshot) && childDiff == old(childDiff) && tmpFile == old(tmpFile)
      ensures old(childRunning) || !pipesOk ==> dataPipe == old(dataPipe) && stopSendingDiff == old(stopSendingDiff)
    {
      hide Concat, LogHolds, BlocksFit;
      if childRunning { return false; }
      if !pipesOk { return false; }
      CreatePipes();
      if !forkOk { return false; }
      StartChild(data);
      return true;
    }

    /** The child begins with nothing fed since the fork. */
    method StartChild(data: seq<Byte>)
      requires Valid() && !childRunning && dataPipe == [] && !ackPipe
      modifies this`childRunning, this`phase, this`childDiff, this`tmpFile, this`forkPoint, this`snapshot
      ensures Valid() && childRunning && phase == Working && forkPoint == |fed| && snapshot == data
    {
      hide Concat, LogHolds, BlocksFit;
      phase, childDiff, tmpFile := Working, [], [];
      childRunning := true;
      forkPoint, snapshot := |fed|, data;
      NothingFedYet(fed);
    }

    /** Every write of these takes a whole block. */
    ghost predicate AllComplete(writes: seq<int>)
      reads this
    {
      |writes| >= |blocks| && forall k :: 0 <= k < |blocks| ==> writes[k] >= blockSize
    }

    /**
      aofChildWriteDiffData; `writes` is how many bytes each write finds room for (none or less: it
      fails or would block, as it does after the last of them).
     */
    method WriteDiffData(writes: seq<int>)
      requires Valid() && childRunning
      modifies this`blocks, this`dataPipe
      ensures Valid()
      ensures stopSendingDiff ==> dataPipe == old(dataPipe) && blocks == old(blocks)
      ensures old(dataPipe) <= dataPipe && dataPipe + Concat(blocks) == old(dataPipe + Concat(blocks))
      ensures !stopSendingDiff && old(AllComplete(writes)) ==> blocks == [] && dataPipe == old(dataPipe + Concat(blocks))
    {
      hide LogHolds, Concat, BlocksFit;
      ghost var total, complete := dataPipe + Concat(blocks), AllComplete(writes);
      WholeBlocks();
      var k := 0;
      while true
        invariant Valid() && 0 <= k
        invariant stopSendingDiff ==> dataPipe == old(dataPipe) && blocks == old(blocks)
        invariant old(dataPipe) <= dataPipe && dataPipe + Concat(blocks) == total
        invariant complete ==> k + |blocks| <= |old(blocks)|
        decreases |Concat(blocks)| + |blocks|
      {
        if stopSendingDiff || |blocks| == 0 {
          NothingLeft(dataPipe, blocks);
          return;
        }
        if |blocks[0].buf| > 0 {
          WholeBlocks();
          assert complete ==> k < |writes| && writes[k] >= blockSize;
          var nwritten := if k < |writes| then writes[k] else -1;
          k := k + 1;
          if nwritten <= 0 { return; }
          MoveToPipe(nwritten);
        } else {
          DropEmptyBlock();
        }
      }
    }

    lemma WholeBlocks()
      requires BlocksOK()
      ensures blockSize > 0 && forall i :: 0 <= i < |blocks| ==> |blocks[i].buf| <= blockSize
    {
    }

    /** A write that finds room for n bytes of the first block; the block goes when it has become empty. */
    method MoveToPipe(n: nat)
      requires Valid() && childRunning && !stopSendingDiff && blocks != [] && blocks[0].buf != [] && n > 0
      modifies this`blocks, this`dataPipe
      ensures Valid() && old(dataPipe) <= dataPipe && dataPipe + Concat(blocks) == old(dataPipe + Concat(blocks))
      ensures |blocks| <= |old(blocks)| && (n >= |old(blocks)[0].buf| ==> |blocks| == |old(blocks)| - 1)
      ensures |Concat(blocks)| < |old(Concat(blocks))|
    {
      hide LogHolds, Concat;
      var block := blocks[0];
      var nwritten := if n > |block.buf| then |block.buf| else n;
      ghost var rest := blocks[1..];
      ConcatFirst(blocks);
      var sent, left := block.buf[..nwritten], block.buf[nwritten..];
      assert block.buf == sent + left;
      MovedAlong(childDiff, dataPipe, sent, left, Concat(rest));
      MovedOn(dataPipe, sent, left, Concat(rest));
      dataPipe := dataPipe + sent;
      block := block.(buf := left);
      blocks := [block] + blocks[1..];
      assert blocks[1..] == rest;
      ConcatFirst(blocks);
      if |block.buf| == 0 {
        assert left == [];
        blocks := blocks[1..];
      }
    }

    method DropEmptyBlock()
      requires Valid() && childRunning && blocks != [] && blocks[0].buf == []
      modifies this`blocks
      ensures Valid() && blocks == old(blocks)[1..] && Concat(blocks) == old(Concat(blocks))
    {
      hide LogHolds, Concat;
      ConcatFirst(blocks);
      assert [] + Concat(blocks[1..]) == Concat(blocks[1..]);
      blocks := blocks[1..];
    }

    /** aofReadDiffFromParent: read until nothing is left, in pieces of at most 64 KB. */
    method ReadDiffFromParent()
      requires Valid() && childRunning && phase != Finished
      modifies this`dataPipe, this`childDiff
      ensures Valid() && dataPipe == [] && childDiff == old(childDiff + dataPipe)
    {
      hide Concat, LogHolds, BlocksFit;
      assert childDiff + dataPipe == old(childDiff + dataPipe);
      while dataPipe != []
        invariant Valid() && childDiff + dataPipe == old(childDiff + dataPipe)
        decreases |dataPipe|
      {
        var nread: nat :| 1 <= nread <= |dataPipe| && nread <= 65536;
        assert dataPipe == dataPipe[..nread] + dataPipe[nread..];
        assert childDiff + dataPipe == (childDiff + dataPipe[..nread]) + dataPipe[nread..];
        childDiff := childDiff + dataPipe[..nread];
        dataPipe := dataPipe[nread..];
      }
      assert childDiff + [] == childDiff;
    }

    /** The child has written its data set and asks the parent to stop sending. */
    method ChildAsks()
      requires Valid() && childRunning && phase == Working
      modifies this`phase, this`askPipe
      ensures Valid() && phase == Asked && askPipe
    {
      hide Concat, LogHolds, BlocksFit;
      askPipe, phase := true, Asked;
    }

    /** aofChildPipeReadable; the acknowledgement may fail to be written. */
    method ChildPipeReadable(written: bool)
      requires Valid() && childRunning && askPipe
      modifies this`askPipe, this`ackPipe, this`stopSendingDiff
      ensures Valid() && stopSendingDiff && !askPipe && ackPipe == (written || old(ackPipe))
    {
      hide Concat, LogHolds, BlocksFit;
      askPipe := false;
      stopSendingDiff := true;
      if written { ackPipe := true; }
    }

    /** The end of rewriteAppendOnlyFile in the child, once the acknowledgement is there. */
    method ChildFinishes()
      requires Valid() && childRunning && phase == Asked && ackPipe
      modifies this`ackPipe, this`phase, this`tmpFile, this`dataPipe, this`childDiff
      ensures Valid() && phase == Finished && tmpFile == snapshot + childDiff && !ackPipe
      ensures dataPipe == [] && childDiff == old(childDiff + dataPipe)
    {
      hide Concat, LogHolds, BlocksFit;
      ackPipe := false;
      ReadDiffFromParent();
      tmpFile := snapshot + childDiff;
      phase := Finished;
    }

    /** The child gives up (no acknowledgement within the timeout, a write error, a signal). */
    method ChildFails()
      requires Valid() && childRunning && phase != Finished
      modifies this`phase
      ensures Valid() && phase == Failed
    {
      hide Concat, LogHolds, BlocksFit;
      phase := Failed;
    }

    /** aofRewriteBufferWrite: every block must be written completely. */
    method RewriteBufferWrite(tmp: seq<Byte>, allWritesComplete: bool) returns (ok: bool, out: seq<Byte>)
      ensures ok == (allWritesComplete || Concat(blocks) == [])
      ensures ok ==> out == tmp + Concat(blocks)
    {
      out := tmp;
      var i := 0;
      assert blocks[..0] == [] && out == tmp + Concat(blocks[..0]);
      while i < |blocks|
        invariant i <= |blocks| && out == tmp + Concat(blocks[..i])
        invariant !allWritesComplete ==> Concat(blocks[..i]) == []
      {
        ConcatLast(blocks[..i + 1]);
        assert blocks[..i + 1][..i] == blocks[..i];
        assert blocks == blocks[..i + 1] + blocks[i + 1..];
        ConcatAppend(blocks[..i + 1], blocks[i + 1..]);
        if |blocks[i].buf| > 0 {
          if !allWritesComplete { return false, out; }
          out := out + blocks[i].buf;
        }
        i := i + 1;
      }
      assert blocks[..i] == blocks;
      ok := true;
    }

    /**
      backgroundRewriteDoneHandler. On success the new log is the child's data set followed by
      exactly the bytes fed since the fork, in order; so emptying aof_buf loses nothing of what
      was fed and nothing is there twice.
     */
    method RewriteDone(exitOk: bool, openOk: bool, writesComplete: bool, renamed: bool) returns (switched: bool)
      requires Valid() && childRunning && (exitOk <==> phase == Finished)
      modifies this`state, this`file, this`aofBuf, this`currentSize, this`childRunning, this`blocks,
               this`dataPipe, this`base, this`basePoint
      ensures Valid() && !childRunning
      ensures switched <==> exitOk && openOk && renamed && (writesComplete || old(Concat(blocks)) == [])
      ensures switched ==> file == snapshot + fed[forkPoint..] && aofBuf == if state == Off then old(aofBuf) else []
      ensures switched && old(state) != Off ==> state == On && base == snapshot && basePoint == forkPoint
      ensures !switched ==> state == old(state) && file == old(file) && aofBuf == old(aofBuf)
                            && base == old(base) && basePoint == old(basePoint)
    {
      hide Concat, LogHolds, BlocksFit;
      switched := false;
      if exitOk && openOk {
        var ok, newFile := RewriteBufferWrite(tmpFile, writesComplete);
        if ok && renamed {
          Joined(snapshot, childDiff, Concat(blocks));
          SwitchFile(newFile);
          switched := true;
        }
      }
      EndChild();
    }

    /** The renamed file takes the place of the log. */
    method SwitchFile(newFile: seq<Byte>)
      requires Valid() && forkPoint <= |fed| && newFile == snapshot + fed[forkPoint..]
      modifies this`state, this`file, this`aofBuf, this`currentSize, this`base, this`basePoint
      ensures Valid() && file == newFile && aofBuf == if old(state) == Off then old(aofBuf) else []
      ensures old(state) == Off ==> state == Off && base == old(base) && basePoint == old(basePoint)
      ensures old(state) != Off ==> state == On && base == snapshot && basePoint == forkPoint
    {
      hide Concat, BlocksFit, LogHolds;
      NewLog(newFile, fed, snapshot, forkPoint);
      if state == Off { IdleLog(file, aofBuf, currentSize, fed, base, basePoint, newFile); }
      file := newFile;
      if state != Off {
        currentSize := |file|;
        aofBuf := [];
        base, basePoint := snapshot, forkPoint;
        state := On;
      }
    }

    /** The child is gone: its pipes are closed and the blocks dropped. */
    method EndChild()
      requires Valid()
      modifies this`blocks, this`dataPipe, this`childRunning
      ensures Valid() && !childRunning && blocks == [] && dataPipe == []
    {
      hide Concat, LogHolds;
      blocks := [];
      dataPipe := [];
      childRunning := false;
    }

    /** Several commands in a row. */
    method FeedAll(bufs: seq<seq<Byte>>)
      requires Valid() && state != Off
      modifies this`aofBuf, this`blocks, this`fed
      ensures Valid() && fed == old(fed) + AllBytes(bufs)
    {
      hide Concat, LogHolds, BlocksFit, AllBytes;
      var i := 0;
      NoBytes(bufs, fed);
      while i < |bufs|
        invariant i <= |bufs| && Valid() && fed == old(fed) + AllBytes(bufs[..i])
      {
        MoreBytes(old(fed), bufs, i);
        Feed(bufs[i]);
        i := i + 1;
      }
      assert bufs[..i] == bufs;
    }

    /**
      A rewrite in which nothing fails: commands come in before and after the parent has stopped
      sending, and in the end the new file has taken the place of the old one.
     */
    method CompleteRewrite(data: seq<Byte>, early: seq<seq<Byte>>, late: seq<seq<Byte>>) returns (switched: bool)
      requires Valid() && state != Off && !childRunning
      modifies this
      ensures switched && Valid() && state == On && !childRunning
      ensures fed == old(fed) + AllBytes(early) + AllBytes(late)
      ensures file == data + AllBytes(early) + AllBytes(late) && aofBuf == []
    {
      hide Concat, LogHolds, BlocksFit, AllBytes;
      SendDiff(data, early);
      Handshake();
      FeedAll(late);
      ChildFinishes();
      Suffix(old(fed), AllBytes(early), AllBytes(late));
      Joined(data, AllBytes(early), AllBytes(late));
      switched := RewriteDone(true, true, true, true);
    }

    /** The child is forked, and all that is fed then goes into the pipe. */
    method SendDiff(data: seq<Byte>, early: seq<seq<Byte>>)
      requires Valid() && state != Off && !childRunning
      modifies this
      ensures Valid() && childRunning && phase == Working && state == old(state) && !stopSendingDiff
      ensures snapshot == data && forkPoint == |old(fed)| && fed == old(fed) + AllBytes(early)
      ensures blocks == [] && file == old(file)
    {
      hide Concat, LogHolds, BlocksFit, AllBytes;
      var _ := Fork(data, true, true);
      FeedAll(early);
      var writes := seq(|blocks|, _ => blockSize);
      WriteDiffData(writes);
    }

    method Handshake()
      requires Valid() && childRunning && phase == Working
      modifies this`phase, this`askPipe, this`ackPipe, this`stopSendingDiff
      ensures Valid() && phase == Asked && ackPipe && stopSendingDiff
    {
      hide Concat, LogHolds, BlocksFit;
      ChildAsks();
      ChildPipeReadable(true);
    }

    /** startAppendOnly: rewrite first, log to the file afterwards; opening the file may fail. */
    method StartAppendOnly(data: seq<Byte>, openOk: bool, pipesOk: bool, forkOk: bool) returns (ok: bool)
      requires Valid() && state == Off
      modifies this
      ensures Valid() && ok == (openOk && !old(childRunning) && pipesOk && forkOk)
      ensures ok ==> state == WaitRewrite && childRunning && forkPoint == |fed| && snapshot == data
      ensures !ok ==> state == Off && childRunning == old(childRunning) && forkPoint == old(forkPoint) && snapshot == old(snapshot)
      ensures fed == old(fed) && file == old(file) && aofBuf == old(aofBuf)
    {
      hide Concat, BlocksFit;
      if !openOk { return false; }
      ok := Fork(data, pipesOk, forkOk);
      if ok { state := WaitRewrite; }
    }

    /**
      stopAppendOnly: a forced flush, which may fail and leave bytes in the buffer; a running
      child is killed. The result says whether the flush ended the process.
     */
    method StopAppendOnly(nwritten: int, truncated: bool, fsyncAlways: bool) returns (exits: bool)
      requires Valid() && state != Off && -1 <= nwritten <= |aofBuf|
      modifies this`file, this`aofBuf, this`currentSize, this`state, this`blocks, this`childRunning, this`dataPipe
      ensures exits <==> old(aofBuf) != [] && fsyncAlways && nwritten < |old(aofBuf)|
      ensures !exits ==> Valid() && state == Off && !childRunning
      ensures old(state) == On ==> old(file) <= file <= old(file + aofBuf) && (!exits ==> file + aofBuf == old(file + aofBuf))
    {
      hide Concat;
      exits := Flush(false, nwritten, truncated, fsyncAlways);
      if exits { return; }
      state := Off;
      EndChild();
    }
  }

  /** Moving bytes from the head of the blocks to the end of the pipe keeps the order. */
  lemma MovedAlong(diff: seq<Byte>, pipe: seq<Byte>, sent: seq<Byte>, left: seq<Byte>, rest: seq<Byte>)
    ensures diff + pipe + ((sent + left) + rest) == diff + (pipe + sent) + (left + rest)
  {
  }

  lemma MovedOn(pipe: seq<Byte>, sent: seq<Byte>, left: seq<Byte>, rest: seq<Byte>)
    ensures pipe + ((sent + left) + rest) == (pipe + sent) + (left + rest)
    ensures left == [] ==> left + rest == rest
  {
  }

  lemma NothingFedYet(fed: seq<Byte>)
    ensures fed[|fed|..] == [] + [] + Concat([])
  {
  }

  lemma ConcatEmpty(size: nat)
    ensures Concat([]) == [] && Concat([Block([], size)]) == []
  {
    assert [Block([], size)][1..] == [];
  }
}
