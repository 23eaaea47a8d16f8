# Redis 3.0.0 in Dafny

A model of the algorithms in Redis 3.0.0 whose guarantees range over all inputs or whole runs, with
proofs of those guarantees. Code that updates state step by step is modelled by classes, arrays and
loops; each method is proved against a specification function or an abstract value, and the main
results are stated about those.

| file | what it models |
|---|---|
| `Basics.dfy`, `Words.dfy` | shared types; machine words as numbers, C's bitwise operators bit by bit |
| `DictTable.dfy`, `Dict.dfy` | the dictionary with two tables and incremental rehashing: it is a finite map at every moment |
| `DictCursor.dfy`, `DictScan.dfy`, `DictShrink.dfy` | `dictScan`: the reversed-bit cursor, completeness and termination of an iteration over a changing table, and exactly when a shrink defeats it |
| `DictIterator.dfy` | safe iterators: every entry that stays is returned exactly once |
| `Lzf.dfy` | the LZF compressor and decompressor: round trip for any hash table contents, size bounds from above and for what compresses |
| `ClusterElection.dfy` | failover votes: at most one winner per epoch, and exactly how many late acks it takes to have two |
| `ClusterEpochs.dfy` | config epoch collisions: how often masters move, and when nothing is left to resolve |
| `ClusterSlots.dfy` | slot table, bitmaps and counters agree; claims give the same owners in any order |
| `HllDense.dfy`, `HllMacros.dfy`, `HllSparse.dfy`, `HllSum.dfy` | HyperLogLog: packed and run-length registers stand for one vector; sums and merges |
| `AofServer.dfy`, `AofFormat.dfy`, `AofRecovery.dfy` | append-only file: log integrity, the rewrite handshake, printing and loading, and what loading the file at any moment recovers |
| `Intset.dfy` | packed sorted integers that are widened in place: a mathematical set |
| `BitStrings.dfy`, `Popcount.dfy`, `BitScan.dfy`, `BitCombine.dfy` | word-at-a-time bit counting, searching and BITOP against bit-by-bit definitions |

Where the code and its documentation disagree, the model follows the code:

- The comment above `dictScan` (dict.c:830-915) promises that every element present throughout is
  returned whatever resizes happen. That is so for growing tables (`DictScan.GrowingScanComplete`) and
  for factors of two (`DictScan.DoublingScanComplete`). When a table starts to shrink by a factor of four
  or more while a client is scanning it, it depends on the client's cursor: the iteration returns every
  such element if and only if the cursor bits between the two masks are all ones
  (`DictShrink.IterationExact`; for a single call `DictShrink.CallExact`), which is the C test
  `(c & (c + 1)) == 0` (`DictCursor.AllOnesBitTest`). For every other cursor
  `DictShrink.ShrinkMissesKey` gives a run that never returns a key.
- `lzf.h` says the output is less than 104% of the input. Every output of `lzf_compress` is if the input
  has 26 to 32, 51 to 64, 76 to 96, or 101 or more bytes (`Lzf.CompressBelow`); for any other length the
  output of an input whose bytes do not repeat is not (`Lzf.CompressDistinct`).
- A failover ACK is counted if the voter's epoch is not below the candidate's `failover_auth_epoch`, but
  that epoch only moves when votes are asked for again, after the count has been reset. An ack of the
  attempt before that comes in between is counted as a vote of the next one. Two slaves can win one epoch
  if and only if as many such acks can be counted as a majority twice over exceeds the electorate: one for
  an odd number of masters, two for an even one (`ClusterElection.SafetyIff`).
- The comment above `clusterDelNodeSlots` says the number of deleted slots is returned; it is 16384 always
  (`ClusterSlots.Cluster.DelNodeSlots`).

Integers are unbounded; where C's width matters (cursor words, LZF offsets, `uint32_t` sums, two's
complement elements) it is written out. Hash functions, clocks, randomness and the outcomes of system
calls are parameters.

## Model

| member | source | states |
|---|---|---|
| DictCursor.ReverseWord | redis-3.0.0/src/dict.c:820-828 | the mask-and-shift loop reverses the bits of a word of any power-of-two width |
| DictCursor.AdvanceBlocks | redis-3.0.0/src/dict.c:977-991 | in reversed order one step adds one to the block number of the cursor at the smaller table's size, or returns to 0 after the last block |
| DictCursor.AdvanceForward | redis-3.0.0/src/dict.c:977-991 | a cursor that does not return to 0 moves strictly forward in reversed order |
| DictCursor.AdvanceLow | redis-3.0.0/src/dict.c:977-991 | a returned cursor has no bits above the smaller mask |
| DictCursor.SweptSharesBucket | redis-3.0.0/src/dict.c:977-991 | every hash the cursor passes in one step lies in the small bucket it was at |
| DictCursor.NextExpansionAdds | redis-3.0.0/src/dict.c:969-970 | the expression adds one to the bits above the small mask and keeps the others |
| DictCursor.BetweenMasks | redis-3.0.0/src/dict.c:973-974 | the loop test is whether the bits between the two masks are zero |
| DictCursor.AllOnesBitTest | redis-3.0.0/src/dict.c:959-974 | the safe middle bits are those with c & (c + 1) == 0 |
| DictCursor.SweptIsVisited | redis-3.0.0/src/dict.c:959-991 | with all-ones middle bits every large bucket the cursor passes is visited |
| DictCursor.SweptIsMissed | redis-3.0.0/src/dict.c:959-991 | with any other middle bits some hash is passed and never visited |
| DictCursor.ScanStepExact | redis-3.0.0/src/dict.c:938-991 | one call during a rehash visits all it passes if and only if the middle bits are all ones |
| DictCursor.DoublingIsSafe | redis-3.0.0/src/dict.c:938-991 | tables a factor of two apart always meet the condition |
| DictCursor.LowCursorIsSafe | redis-3.0.0/src/dict.c:938-991 | so does a cursor below the smaller size |
| DictTable.MoveChainFinds | redis-3.0.0/src/dict.c:294-305 | moving a chain into a table keeps every entry in its bucket, the counter exact, and adds exactly the chain's bindings |
| DictTable.MoveBucket | redis-3.0.0/src/dict.c:286-307 | moving one bucket changes no binding and keeps the representation invariant |
| DictTable.SwapTables | redis-3.0.0/src/dict.c:312-317 | replacing an empty ht[0] by ht[1] changes no binding |
| DictTable.ExpandWith | redis-3.0.0/src/dict.c:240-257 | a new table changes no binding |
| DictTable.InsertEntry | redis-3.0.0/src/dict.c:398-404 | linking into the table that takes insertions adds exactly one binding |
| DictTable.UnlinkEntry | redis-3.0.0/src/dict.c:466-481 | unlinking an entry of either table removes exactly its binding |
| DictTable.SetEntry | redis-3.0.0/src/dict.c:425-433 | overwriting a value changes exactly its binding |
| DictClass.NextPower | redis-3.0.0/src/dict.c:1023-1033 | a power of two, at least 4, not below the size and less than twice it |
| DictClass.RealSizeIsLeast | redis-3.0.0/src/dict.c:1023-1033 | that is the least power of two that will do |
| DictClass.SearchChain | redis-3.0.0/src/dict.c:546-551 | finds the entry of a key in a chain or shows that there is none |
| DictClass.Dict.constructor | redis-3.0.0/src/dict.c:173-190 | a new dictionary is the empty map |
| DictClass.Dict.Expand | redis-3.0.0/src/dict.c:228-258 | keeps all bindings; fails exactly when rehashing or when the size is below the number of entries or gives the present table; otherwise a first table or a rehash into one of the next power of two |
| DictClass.Dict.Resize | redis-3.0.0/src/dict.c:208-222 | keeps all bindings; creates the smallest table for the entries or starts a rehash into it, exactly when allowed, not rehashing and not that size already |
| DictClass.Dict.MoveBucketAt | redis-3.0.0/src/dict.c:291-307 | migrating the bucket at rehashidx empties it, keeps the other buckets of ht[0], the map and the invariant, and moves rehashidx on by one |
| DictClass.Dict.SkipEmptyBuckets | redis-3.0.0/src/dict.c:282-290 | passes empty buckets only, one for each visit used up, stops at the first other one unless the visits run out, and never runs off the table |
| DictClass.Dict.Rehash | redis-3.0.0/src/dict.c:271-322 | keeps the map; returns 0 exactly when no rehash is left; otherwise exactly n non-empty buckets have moved, or 10n empty ones have been passed, and the buckets further on are as before |
| DictClass.Dict.RehashToTheEnd | redis-3.0.0/src/dict.c:332-341 | repeated calls finish the migration with the map unchanged |
| DictClass.Dict.RehashStep | redis-3.0.0/src/dict.c:352-354 | without a safe iterator a running rehash ends or comes at least one bucket further; with one the state is as before |
| DictClass.RehashEnds | redis-3.0.0/src/dict.c:271-354 | as many operations (rehash step, add, find, replace, delete) as ht[0] has buckets end a rehash that no safe iterator holds up |
| DictClass.Dict.ExpandIfNeeded | redis-3.0.0/src/dict.c:998-1019 | never fails, leaves a table to insert into, and starts a rehash exactly at the load that calls for one; never shrinks |
| DictClass.Dict.Locate | redis-3.0.0/src/dict.c:1052-1066 | the two-table search finds a key exactly when it is bound, and its entry |
| DictClass.Dict.KeyIndex | redis-3.0.0/src/dict.c:1042-1068 | -1 exactly for bound keys, else the key's bucket in the table that takes insertions |
| DictClass.Dict.Add | redis-3.0.0/src/dict.c:358-409 | adds the binding exactly when the key is new; the map is otherwise unchanged; a running rehash comes further |
| DictClass.Dict.Find | redis-3.0.0/src/dict.c:534-555 | returns the map's value, or nothing for an unbound key; a running rehash comes further |
| DictClass.Dict.Replace | redis-3.0.0/src/dict.c:416-435 | the map with the key bound to the value; 1 exactly when the key was new; a running rehash comes further |
| DictClass.Dict.Delete | redis-3.0.0/src/dict.c:452-487 | the map without the key; success exactly when it was bound; a running rehash comes further |
| DictClass.Dict.Size | redis-3.0.0/src/dict.h:147-147 | the two counters add up to the number of bindings |
| DictScan.IncrementReversed | redis-3.0.0/src/dict.c:977-991 | the statements with rev() compute the reversed-cursor step |
| DictScan.EmitExpansions | redis-3.0.0/src/dict.c:959-974 | the loop emits the expansions of the small bucket from the cursor's own upward and comes back to it |
| DictScan.Scan | redis-3.0.0/src/dict.c:917-992 | hands over bindings of the dictionary only, none twice, which ones the two tables and the cursor say; the cursor returned; for an empty, a single and a rehashing table |
| DictScan.HandsOverBindings | redis-3.0.0/src/dict.c:933-975 | every entry of one call is a key with the value bound to it, and no key comes twice, whichever tables the entries are in |
| DictScan.SweptIsEmitted | redis-3.0.0/src/dict.c:917-992 | a bound key whose hash the cursor passes with a safe cursor is handed over, whichever table holds it |
| DictScan.BehindCursorIsEmitted | redis-3.0.0/src/dict.c:917-992 | invariant over every history: a key present throughout with rev(hash) < rev(cursor) has been emitted |
| DictScan.ScanComplete | redis-3.0.0/src/dict.c:830-992 | in every history whose calls have safe cursors, when the cursor returns to 0 every key present throughout has been emitted |
| DictScan.GrowingKeepsCursorLow | redis-3.0.0/src/dict.c:917-992 | if tables only grow, the cursor never has bits above the smaller mask |
| DictScan.GrowingScanComplete | redis-3.0.0/src/dict.c:830-992 | completeness for every history of adds, deletes, rehash steps and growing resizes |
| DictScan.DoublingScanComplete | redis-3.0.0/src/dict.c:830-992 | completeness when the rehashes that calls see are between sizes a factor of two apart |
| DictScan.ScanTerminates | redis-3.0.0/src/dict.c:917-992 | an iteration that has not returned to 0 has made fewer calls than the largest smaller table has buckets |
| DictScan.EmitsIff | redis-3.0.0/src/dict.c:917-992 | a call hands a bound key over if and only if it looks into its bucket |
| DictShrink.WaitingKey | redis-3.0.0/src/dict.c:938-975 | during a shrink a key that still waits in the old table is handed over if and only if its bucket is visited |
| DictShrink.CallExact | redis-3.0.0/src/dict.c:938-991 | one call hands over every key its cursor passes, in every dictionary with these two sizes, if and only if the middle bits are all ones |
| DictShrink.CursorStep | redis-3.0.0/src/dict.c:977-991 | the cursors of an iteration that meets the start of a shrink at a given cursor |
| DictShrink.MissedComesAfter | redis-3.0.0/src/dict.c:959-991 | the hash that is passed by lies after the cursor in the large table and in the same small bucket |
| DictShrink.NeverEmitted | redis-3.0.0/src/dict.c:917-992 | no call of that iteration, before or after, looks into its bucket |
| DictShrink.ShrinkMissesKey | redis-3.0.0/src/dict.c:208-222 | for every two sizes and every cursor whose middle bits are not all ones: a run with a dictResize step in which a key present throughout is never returned |
| DictShrink.IterationExact | redis-3.0.0/src/dict.c:830-992 | iterations that meet the start of such a shrink are complete if and only if the middle bits of the cursor at that time are all ones |
| DictIterator.SafeIterator.Next | redis-3.0.0/src/dict.c:627-662 | returns one pending key and leaves the others pending, or shows that none is left |
| DictIterator.SafeIterator.NextBucket | redis-3.0.0/src/dict.c:630-650 | moving to the next bucket or table loses no pending key |
| DictIterator.SafeIterator.FollowPointer | redis-3.0.0/src/dict.c:651-659 | following the saved next pointer returns the right entry or ends the chain |
| DictIterator.DeleteKeepsPending | redis-3.0.0/src/dict.c:452-487 | deleting the entry just returned changes nothing for the others |
| DictIterator.AddKeepsPending | redis-3.0.0/src/dict.c:383-409 | an insertion, even one that starts a rehash, changes nothing for the keys present |
| DictIterator.PendingOrReturned | redis-3.0.0/src/dict.c:619-662 | conservation: times returned plus still pending is one, after every step |
| DictIterator.SafeIterationExactlyOnce | redis-3.0.0/src/dict.c:619-662 | a finished iteration returned every entry present at its start and never deleted exactly once |
| DictIterator.SafeIterator.Release | redis-3.0.0/src/dict.c:664-676 | the dictionary counts one safe iterator less, if this one has been started |
| DictIterator.Keys | redis-3.0.0/src/dict.c:619-676 | a whole iteration over an unchanged dictionary returns exactly the bound keys, each once, and leaves no safe iterator counted |
| Lzf.DecodeAppend | redis-3.0.0/src/lzf_d.c:64-146 | instructions compose: a stream is read with the output of what precedes it |
| Lzf.CopyBackMatches | redis-3.0.0/src/lzf_d.c:133-143 | an overlapping back reference onto an equal stretch reproduces the input |
| Lzf.CopyLiterals | redis-3.0.0/src/lzf_d.c:86-92 | copies exactly the bytes of the run behind the output |
| Lzf.CopyReference | redis-3.0.0/src/lzf_d.c:133-143 | the two-then-loop copy is the byte-by-byte overlapping copy |
| Lzf.ReadInstruction | redis-3.0.0/src/lzf_d.c:64-145 | one instruction: output, position and each rejection as the format says |
| Lzf.Decompress | redis-3.0.0/src/lzf_d.c:55-149 | the decoded bytes, or E2BIG or EINVAL exactly when the format gives them |
| Lzf.DecodesIff | redis-3.0.0/src/lzf_d.c:64-146 | a stream is accepted if and only if every instruction is complete, every reference lies inside the output before it and there is room for the output, whose length is then the sum of its instructions' |
| Lzf.OffsetInWindow | redis-3.0.0/src/lzf_c.c:150-157 | whatever an uninitialised slot holds, a small unsigned offset points that far before the current byte |
| Lzf.MatchLength | redis-3.0.0/src/lzf_c.c:169-209 | the match is at least 3 bytes long, agrees on every byte, and is maximal: the next byte differs or a limit is reached |
| Lzf.PutLiteral | redis-3.0.0/src/lzf_c.c:262-272 | one more literal keeps the stream readable and within the size account |
| Lzf.StopRun | redis-3.0.0/src/lzf_c.c:173-174 | closing or undoing a run leaves a stream that reads back as the input so far |
| Lzf.PutReference | redis-3.0.0/src/lzf_c.c:211-225 | the encoded match extends what the stream reads back as, in two bytes below length 9 and three from there on, and a run header |
| Lzf.Reindex | redis-3.0.0/src/lzf_c.c:232-247 | exactly two positions are entered, the later one last, and the table stays a table of pointers; the rolling value is that of the next position |
| Lzf.NextSlot | redis-3.0.0/src/lzf_c.c:145-149 | the rolling value of the last two bytes gives the slot of the three bytes at a position, whatever came before |
| Lzf.RunIsFound | redis-3.0.0/src/lzf_c.c:147-174 | a byte in a run of equal bytes has the slot that the byte before was entered in, and that is a match for it |
| Lzf.MatchPays | redis-3.0.0/src/lzf_c.c:159-260 | each maximal match uses up a byte that is not in a run of equal bytes, or 264 bytes |
| Lzf.FinishRun | redis-3.0.0/src/lzf_c.c:276-293 | the tail completes the stream within the bound or returns 0 |
| Lzf.Compress | redis-3.0.0/src/lzf_c.c:98-294 | for any table contents the output decodes to the input, is at most in_len + ceil(in_len / 32) bytes and at most three bytes for each byte outside of runs of equal bytes and for each 264 bytes, and is not refused when there is room for either and a little more |
| Lzf.EqualOutside | redis-3.0.0/src/lzf_c.c:122-294 | of equal bytes all but the first two and the last four are in a run |
| Lzf.CompressEqual | redis-3.0.0/src/lzf_c.c:98-294 | 27 or more equal bytes are compressed to at most 18 bytes and three for every 264, even with four bytes less room than the input, as the caller gives (rdb.c:241-243) |
| Lzf.RoundTrip | redis-3.0.0/src/lzf_d.c:55-149 | decompressing what was compressed returns exactly the input |
| Lzf.NeedsHeaders | redis-3.0.0/src/lzf_c.c:262-293 | no stream for bytes that do not repeat is shorter than in_len + ceil(in_len / 32) |
| Lzf.FourPercent | redis-3.0.0/src/lzf.h:52-61 | the lengths for which in_len + ceil(in_len / 32) is below 104% |
| Lzf.CompressBelow | redis-3.0.0/src/lzf.h:52-61 | for these lengths every output of the compressor is below 104% of its input |
| Lzf.CompressDistinct | redis-3.0.0/src/lzf.h:52-61 | on bytes that do not repeat the output has exactly in_len + ceil(in_len / 32) bytes, which is 104% or more for every other length |
| Lzf.DistinctInput | redis-3.0.0/src/lzf.h:52-61 | every other length has such an input |
| ClusterElection.ClusterState.ProcessHeader | redis-3.0.0/src/cluster.c:1588-1589 | currentEpoch becomes the greater of the two and nothing else changes |
| ClusterElection.ClusterState.SendAuthIfNeeded | redis-3.0.0/src/cluster.c:2448-2548 | a vote is given exactly by a slot-serving master that is not ahead of the request and has not voted in its epoch, to a slave whose master is known and failed or the ack is forced, not again within the time limit, and if no claimed slot is served under a greater config epoch; it is recorded, and without one nothing changes |
| ClusterElection.ClusterState.ReceiveAck | redis-3.0.0/src/cluster.c:1910-1922 | only the count changes, by at most one, and exactly for a slot-serving master that is not behind the auth epoch |
| ClusterElection.ClusterState.HandleSlaveFailover | redis-3.0.0/src/cluster.c:2684-2849 | becomes master only in an open attempt with more than half the votes, under at least the epoch asked for; asks for votes exactly when currentEpoch moves, to a new auth epoch; a reset changes the count and the flag only; with an open attempt and nothing done the majority is missing |
| ClusterElection.Network.RequestArrives | redis-3.0.0/src/cluster.c:2448-2548 | the handlers, run on live nodes, perform exactly the model step of a request arriving |
| ClusterElection.RequestEffect | redis-3.0.0/src/cluster.c:2448-2548 | a delivered request adds one ack and one vote, for its own epoch, or changes nothing but a smaller currentEpoch |
| ClusterElection.Network.AckArrives | redis-3.0.0/src/cluster.c:1910-1922 | the same for an ack |
| ClusterElection.Network.CronRuns | redis-3.0.0/src/cluster.c:2684-2849 | the same for the periodic call |
| ClusterElection.Network.PacketArrives | redis-3.0.0/src/cluster.c:1588-1589 | the same for the header of any other packet |
| ClusterElection.VotesOnlyGrow | redis-3.0.0/src/cluster.c:2448-2548 | no master votes twice in an epoch and no vote is taken back |
| ClusterElection.EpochsStayOrdered | redis-3.0.0/src/cluster.c:2815-2827 | requests and acks never carry an epoch beyond the attempt of the slave they are for |
| ClusterElection.CountsStayHonest | redis-3.0.0/src/cluster.c:1910-1922 | the count is the number of distinct votes of this attempt plus late acks |
| ClusterElection.RunInv | redis-3.0.0/src/cluster.c:2448-2849 | the protocol invariant holds in every state of every run |
| ClusterElection.CurrentEpochMonotone | redis-3.0.0/src/cluster.c:1588-1589 | currentEpoch never goes back |
| ClusterElection.WinIsBacked | redis-3.0.0/src/cluster.c:2829-2845 | a winning count consists of votes for its epoch and of late acks: together a majority |
| ClusterElection.RunWinsAreBacked | redis-3.0.0/src/cluster.c:2829-2845 | so for every win of every run |
| ClusterElection.DisjointSupport | redis-3.0.0/src/cluster.c:2448-2548 | the masters that voted for two slaves in one epoch are different ones: together at most the electorate |
| ClusterElection.WinnersCountLateAcks | redis-3.0.0/src/cluster.c:2751-2827 | in every run two winners of one epoch have counted at least 2 (size / 2 + 1) - size late acks between them in the attempts they won |
| ClusterElection.ElectionSafety | redis-3.0.0/src/cluster.c:2684-2849 | in every run without late acks no two slaves win the same epoch |
| ClusterElection.LateAcksBreakSafety | redis-3.0.0/src/cluster.c:2751-2827 | for every electorate a run with two winners of one epoch and exactly that many late acks |
| ClusterElection.SafetyIff | redis-3.0.0/src/cluster.c:2751-2827 | for every electorate: two winners with at most a given number of late acks between them are reachable if and only if the number is that large |
| ClusterEpochs.MasterNode.HandleCollision | redis-3.0.0/src/cluster.c:1031-1046 | moves exactly for a larger sender known to have the same epoch, to the one after currentEpoch; what is known of others stays |
| ClusterEpochs.MasterNode.ProcessPacket | redis-3.0.0/src/cluster.c:1856-1861 | what is known of the sender only grows; the own epoch moves exactly when a larger sender has it, to one above every epoch seen |
| ClusterEpochs.Bus.DeliverPacket | redis-3.0.0/src/cluster.c:1856-1861 | the handlers, run on live masters, perform exactly the model step |
| ClusterEpochs.Bus.SendPacket | redis-3.0.0/src/cluster.c:1588-1595 | adds one packet, with the epochs its sender has when it is sent |
| ClusterEpochs.HonestStep | redis-3.0.0/src/cluster.c:1588-1595 | own configEpoch stays at most currentEpoch, epochs only grow, packets carry epochs their sender had |
| ClusterEpochs.GivenUpStep | redis-3.0.0/src/cluster.c:1031-1046 | an epoch is only given up for a larger node that has, or had, the same one |
| ClusterEpochs.HeldBound | redis-3.0.0/src/cluster.c:1031-1046 | the k largest masters together have held at most k different epochs |
| ClusterEpochs.RunInv | redis-3.0.0/src/cluster.c:1031-1046 | both invariants hold in every state of every run, stale packets included |
| ClusterEpochs.MovesBounded | redis-3.0.0/src/cluster.c:1031-1046 | a master with k larger peers moves at most k times, the largest never |
| ClusterEpochs.StableIffDifferent | redis-3.0.0/src/cluster.c:1856-1861 | nothing is left to resolve on fresh information if and only if all config epochs differ |
| ClusterSlots.BitsAfter | redis-3.0.0/src/cluster.c:3297-3315 | setting or clearing a bit changes that bit only |
| ClusterSlots.PopulationAfter | redis-3.0.0/src/cluster.c:3318-3331 | the population changes by one exactly when the bit does |
| ClusterSlots.Cluster.SetSlotBit | redis-3.0.0/src/cluster.c:3318-3323 | returns the old bit and keeps numslots the population |
| ClusterSlots.Cluster.ClearSlotBit | redis-3.0.0/src/cluster.c:3326-3331 | the same for clearing |
| ClusterSlots.Cluster.AddSlot | redis-3.0.0/src/cluster.c:3342-3347 | assigns a free slot and keeps table, bitmaps and counters in agreement; refuses a taken one |
| ClusterSlots.Cluster.DelSlot | redis-3.0.0/src/cluster.c:3352-3359 | frees the slot, keeps agreement; the assertion on the old bit cannot fail |
| ClusterSlots.Cluster.DelNodeSlots | redis-3.0.0/src/cluster.c:3363-3371 | frees exactly the node's slots and leaves its counter at zero; the result is the number of loop turns |
| ClusterSlots.Cluster.DelNode | redis-3.0.0/src/cluster.c:859-872 | strikes the node out of the three slot tables |
| ClusterSlots.Cluster.ReplaceMaster | redis-3.0.0/src/cluster.c:2656-2662 | exactly the old master's slots become this node's |
| ClusterSlots.Cluster.UpdateSlotsConfigWith | redis-3.0.0/src/cluster.c:1430-1503 | every claimed slot goes to the claimer exactly when it is not being imported and is unassigned or held under a smaller epoch, and every other keeps its owner; demotion is reported exactly when the current master lost a slot and has none left; without a current master the null pointer is followed exactly when an unassigned slot was claimed |
| ClusterSlots.Cluster.CheckSlots | redis-3.0.0/src/cluster.c:3857-3878 | accepts exactly when every slot is in range, free (or taken) and given once, and marks the slots given |
| ClusterSlots.Cluster.AddOrDelSlots | redis-3.0.0/src/cluster.c:3846-3892 | all or nothing: exactly the accepted slots change owner and stop being imported; the assertion cannot fail |
| ClusterSlots.GreatestClaimWins | redis-3.0.0/src/cluster.c:1453-1490 | after any claims a slot belongs to a greatest-epoch node among its first owner and its claimants |
| ClusterSlots.ClaimsCommute | redis-3.0.0/src/cluster.c:1453-1490 | with distinct epochs the order and number of claims do not matter |
| ClusterSlots.ProcessClaims | redis-3.0.0/src/cluster.c:1430-1490 | the same over whole tables for any sequence of messages about other nodes |
| HllMacros.GetIsMacro | redis-3.0.0/src/hyperloglog.c:337-345 | the get macro, with its shifts and masks on 64-bit words, is what the model computes |
| HllMacros.SetIsMacro | redis-3.0.0/src/hyperloglog.c:349-359 | the same for the two bytes the set macro stores |
| HllMacros.ReadOpcode | redis-3.0.0/src/hyperloglog.c:361-376 | the macros that tell opcodes apart and read their lengths and values compute what the model does |
| HllMacros.WriteOpcode | redis-3.0.0/src/hyperloglog.c:377-390 | so do the macros that write them |
| HllDense.GetAfterSet | redis-3.0.0/src/hyperloglog.c:337-359 | a set register is read back and no other register changes, across byte boundaries |
| HllDense.SetRegister | redis-3.0.0/src/hyperloglog.c:349-359 | the register vector with one entry replaced |
| HllDense.DenseAdd | redis-3.0.0/src/hyperloglog.c:485-498 | register := max(old, count); 1 exactly when that changed it |
| HllSparse.Append | redis-3.0.0/src/hyperloglog.c:361-390 | concatenated opcode strings describe concatenated registers |
| HllSparse.PatLen | redis-3.0.0/src/hyperloglog.c:444-470 | index and length of the 000..1 pattern of any hash, between 1 and 50 |
| HllSparse.SparseToDense | redis-3.0.0/src/hyperloglog.c:568-620 | the dense registers equal the decoded ones; an error exactly when they are not 16384 |
| HllSparse.ConvertOp | redis-3.0.0/src/hyperloglog.c:589-606 | one opcode fills exactly its run of registers |
| HllSparse.Locate | redis-3.0.0/src/hyperloglog.c:658-690 | the opcode that covers a register, where it starts and what precedes it |
| HllSparse.SplitRun | redis-3.0.0/src/hyperloglog.c:749-808 | the replacement opcodes describe the run with one register changed, for ZERO, XZERO and VAL |
| HllSparse.ReplaceOp | redis-3.0.0/src/hyperloglog.c:810-823 | putting them in place of the opcode changes that register only |
| HllSparse.PutCode | redis-3.0.0/src/hyperloglog.c:810-861 | replacing and merging change that register only and grow the string by no more than the new opcodes |
| HllSparse.MergeValues | redis-3.0.0/src/hyperloglog.c:825-861 | merging adjacent VAL opcodes changes no register; of the opcodes looked at none can still be merged with the next one, and five looks, merges included, are used up or the end is reached |
| HllSparse.EditSparse | redis-3.0.0/src/hyperloglog.c:709-861 | unchanged exactly when the register is large enough, else the one register raised within the size limit, or a promotion, only when the limit is at most three bytes away |
| HllSparse.HllObject.Promote | redis-3.0.0/src/hyperloglog.c:868-881 | the dense result has the register raised and the assertion on the return value cannot fail |
| HllSparse.HllObject.SparseAdd | redis-3.0.0/src/hyperloglog.c:638-882 | the represented registers with one raised to max(old, count); 1 exactly when changed; -1 only for a corrupted object; dense only for a count above 32 or at the size limit |
| HllSparse.HllObject.Add | redis-3.0.0/src/hyperloglog.c:1027-1034 | the same for a valid object in either representation, which stays valid |
| HllSparse.PatternLengthUnique | redis-3.0.0/src/hyperloglog.c:444-470 | a hash has one pattern length |
| HllSum.UnrolledReads | redis-3.0.0/src/hyperloglog.c:517-532 | the unrolled expressions read the registers |
| HllSum.PEPower | redis-3.0.0/src/hyperloglog.c:973-984 | entry r of the table times 2^r is one |
| HllSum.DenseSum | redis-3.0.0/src/hyperloglog.c:504-558 | sum of 2^-reg and number of zeros of the registers |
| HllSum.SparseSum | redis-3.0.0/src/hyperloglog.c:888-918 | the same from run lengths; invalid exactly when they do not add up |
| HllSum.RawSum | redis-3.0.0/src/hyperloglog.c:928-954 | the same with whole zero words skipped |
| HllSum.SumsAgree | redis-3.0.0/src/hyperloglog.c:504-954 | the three sums and zero counts, computed on representations of the same registers, are equal |
| HllSum.MergeDense | redis-3.0.0/src/hyperloglog.c:1048-1054 | pointwise maximum with a dense object |
| HllSum.MergeSparse | redis-3.0.0/src/hyperloglog.c:1055-1080 | pointwise maximum with a sparse object; an error exactly when it is not 16384 registers |
| HllSum.RaiseThenMerge | redis-3.0.0/src/hyperloglog.c:1044-1083 | adding an element and merging commute |
| AofServer.Server.RewriteBufferAppend | redis-3.0.0/src/aof.c:148-196 | the blocks hold their old bytes followed by the new ones |
| AofServer.Server.FillLastBlock | redis-3.0.0/src/aof.c:155-168 | fills free space in order and returns what did not fit |
| AofServer.Server.WriteDiffData | redis-3.0.0/src/aof.c:109-144 | bytes move from blocks to pipe in order, none lost or repeated, none after the stop; complete writes leave no block and everything in the pipe |
| AofServer.Server.MoveToPipe | redis-3.0.0/src/aof.c:124-142 | one write of any length moves the first bytes of the first block and drops it once empty |
| AofServer.Server.RewriteBufferWrite | redis-3.0.0/src/aof.c:202-222 | writes all blocks in order, or reports failure |
| AofServer.Server.Feed | redis-3.0.0/src/aof.c:587-605 | what is fed is appended to the log buffer exactly if AOF is on and to the rewrite blocks exactly if a child runs |
| AofServer.Server.Flush | redis-3.0.0/src/aof.c:309-457 | for every write and ftruncate outcome exactly the bytes that stay written move from buffer to file, so file ++ buffer is unchanged and the size field is the file length; exits exactly after a failed write under `always` |
| AofServer.Server.Fork | redis-3.0.0/src/aof.c:1406-1468 | starts a rewrite at work with empty pipes, exactly when none runs and neither the pipes nor the fork fail |
| AofServer.Server.ReadDiffFromParent | redis-3.0.0/src/aof.c:1108-1118 | the child's diff takes over all the pipe holds, in order |
| AofServer.Server.ChildAsks | redis-3.0.0/src/aof.c:1257-1261 | the child asks for the stop |
| AofServer.Server.ChildPipeReadable | redis-3.0.0/src/aof.c:1315-1338 | the parent has stopped sending, the request is consumed, and the acknowledgement is in the pipe exactly if the write succeeded |
| AofServer.Server.ChildFinishes | redis-3.0.0/src/aof.c:1262-1280 | the finished file is the snapshot followed by all the child received, including the rest of the pipe, which is then empty |
| AofServer.Server.RewriteDone | redis-3.0.0/src/aof.c:1517-1627 | on success the new file is the snapshot followed by exactly the bytes fed since the fork, so dropping the buffer loses nothing; otherwise the old log stands |
| AofServer.Server.CompleteRewrite | redis-3.0.0/src/aof.c:1406-1627 | a rewrite in which no call fails replaces the log by the data set followed by every command fed meanwhile, before and after the stop |
| AofServer.Server.StartAppendOnly | redis-3.0.0/src/aof.c:270-287 | waits for a rewrite that starts with the bytes fed so far, exactly when nothing fails; otherwise AOF stays off |
| AofServer.Server.StopAppendOnly | redis-3.0.0/src/aof.c:237-265 | a forced flush with any outcome, then AOF is off and no rewrite runs; the file stays part of the log, the rest is left in the buffer |
| AofFormat.CatCommand | redis-3.0.0/src/aof.c:486-509 | appends the multi-bulk encoding of a command |
| AofFormat.ReadArguments | redis-3.0.0/src/aof.c:723-748 | the argument loop computes the reading function and its position |
| AofFormat.LoadAppendOnlyFile | redis-3.0.0/src/aof.c:692-817 | the loading loop computes the loading function, with every exit |
| AofFormat.LoadEncoded | redis-3.0.0/src/aof.c:692-771 | loading the log of any commands runs exactly those commands |
| AofFormat.LoadOn | redis-3.0.0/src/aof.c:707-771 | behind any log loading goes on with what follows it |
| AofFormat.JunkAfterLog | redis-3.0.0/src/aof.c:714-714 | a byte other than * where a command should begin is the format error, behind any log |
| AofFormat.NoArgumentsAfterLog | redis-3.0.0/src/aof.c:715-717 | a command without arguments behind any log is the format error |
| AofFormat.BadArgumentAfterLog | redis-3.0.0/src/aof.c:723-730 | an argument that does not begin with $ behind any log is the format error |
| AofFormat.PingInFile | redis-3.0.0/src/aof.c:486-509 | the fourteen bytes of one command |
| AofFormat.ContainedIsMaximal | redis-3.0.0/src/aof.c:486-509 | the number of commands wholly inside a prefix: they fit and one more does not |
| AofFormat.LoadPrefix | redis-3.0.0/src/aof.c:692-817 | loading any non-empty prefix of a log runs exactly the commands it wholly contains, truncates behind the last and never ends in the format error |
| AofRecovery.Journal.Append | redis-3.0.0/src/aof.c:551-608 | feeding a command adds it to the log |
| AofRecovery.Journal.Flush | redis-3.0.0/src/aof.c:309-457 | a flush with any outcome leaves the log as it is and the file a prefix of it, even if the process exits |
| AofRecovery.Journal.RewriteDone | redis-3.0.0/src/aof.c:1517-1627 | after a rewrite the log is the snapshot and the commands since the fork, or as before |
| AofRecovery.LoadWritten | redis-3.0.0/src/aof.c:692-817 | loading any file that begins like the log runs exactly the commands wholly in it |
| AofRecovery.Journal.Recover | redis-3.0.0/src/aof.c:692-817 | at any moment of any run: loading the file runs exactly the wholly written commands of the log, in order, and cuts off the rest |
| AofFormat.RPushesRebuild | redis-3.0.0/src/aof.c:848-916 | the RPUSH commands of at most 64 elements rebuild the list |
| AofFormat.RewriteListObject | redis-3.0.0/src/aof.c:848-916 | the chunking loop writes exactly these commands: every header announces the elements that follow |
| Intset.SignedBytes | redis-3.0.0/src/intset.c:57-100 | storing and loading a value that fits the width returns it |
| Intset.ReadWrite | redis-3.0.0/src/intset.c:57-100 | a stored element is read back and no other element changes |
| Intset.ValueEncoding | redis-3.0.0/src/intset.c:46-53 | the least width a value fits |
| Intset.IntegerSet.Search | redis-3.0.0/src/intset.c:124-169 | membership, and the position before which all are smaller and after which all are greater |
| Intset.PlaceIsUnique | redis-3.0.0/src/intset.c:119-123 | that position is the only one, and found means member |
| Intset.IntegerSet.UpgradeAndAdd | redis-3.0.0/src/intset.c:173-202 | back-to-front widening in place overwrites nothing unread: the elements are the old ones with the value before or behind them |
| Intset.MovedElements | redis-3.0.0/src/intset.c:210-229 | moving the tail shifts the elements from `from` on and keeps those before |
| Intset.IntegerSet.Add | redis-3.0.0/src/intset.c:233-266 | the set with the value; success exactly when it is new; sorted, all values fit the width |
| Intset.IntegerSet.Remove | redis-3.0.0/src/intset.c:270-290 | the set without the value; success exactly when it was there |
| Intset.IntegerSet.Find | redis-3.0.0/src/intset.c:294-297 | membership |
| Intset.SortedIsCanonical | redis-3.0.0/src/intset.c:233-290 | equal sets are stored as equal element sequences |
| Intset.Run | redis-3.0.0/src/intset.c:233-297 | every run of additions, removals and queries answers as a mathematical set would |
| BitStrings.CountByte | redis-3.0.0/src/bitops.c:73-77 | a byte adds the number of its bits to the bit-by-bit count |
| Popcount.TableIsOnes | redis-3.0.0/src/bitops.c:66-66 | every entry of the table is the number of bits of its index |
| Popcount.SpreadFolded | redis-3.0.0/src/bitops.c:93-100 | the three masking steps replace each byte of a 32-bit word by the number of its bits |
| Popcount.Gather | redis-3.0.0/src/bitops.c:107-113 | byte sums of at most 56 are added exactly by the wrapping multiplication and shift |
| Popcount.CountBlock | redis-3.0.0/src/bitops.c:80-108 | the 28-byte step counts the bits of 28 bytes |
| Popcount.PopCount | redis-3.0.0/src/bitops.c:61-113 | the number of set bits, for every string and alignment |
| BitScan.WordBit | redis-3.0.0/src/bitops.c:155-171 | bit i from the left of a loaded word is bit i of its bytes |
| BitScan.LoadWord | redis-3.0.0/src/bitops.c:163-171 | the loop loads the next bytes, padded with zeros on the right |
| BitScan.SkipWord | redis-3.0.0/src/bitops.c:145-153 | a skipped word holds none of the bits looked for |
| BitScan.ScanWord | redis-3.0.0/src/bitops.c:180-200 | the mask loop finds the first such bit and the panic is unreachable |
| BitScan.BitPos | redis-3.0.0/src/bitops.c:122-200 | the first set (or clear) bit of the zero-padded string, -1 exactly when no bit is set, for every alignment and word size |
| BitCombine.WordIsBytes | redis-3.0.0/src/bitops.c:361-418 | a word operation is the operation on each of its bytes |
| BitCombine.FastPath | redis-3.0.0/src/bitops.c:348-419 | the four-words-at-a-time path computes the byte-wise fold of what it covers |
| BitCombine.SlowPath | redis-3.0.0/src/bitops.c:421-435 | the byte loop completes the fold over zero-extended strings |
| BitCombine.LookUp | redis-3.0.0/src/bitops.c:310-343 | the strings with missing keys as empty ones, their greatest and a least length; failure exactly for a wrong type |
| BitCombine.Bitop | redis-3.0.0/src/bitops.c:310-459 | failure exactly for a wrong type or NOT of several keys, else the fold over the longest string |
| BitCombine.ResultBits | redis-3.0.0/src/bitops.c:421-435 | each result bit: set in all strings, in some, in an odd number, or not in the only one |

## Left out

- DictScan.ScanComplete: the condition on the cursors is stated as sufficient for histories with any mixture of resizes, since a key missed by one call may be handed over by another; it is exact for one call (DictShrink.CallExact) and for an iteration that meets the start of one shrink (DictShrink.IterationExact).
- ClusterElection.ElectionSafety: the absence of late acks in the whole run is stated as sufficient; the exact number two winners need is ClusterElection.SafetyIff. Restarts, CLUSTER RESET, takeovers and changes of the electorate are not steps of the model.
- ClusterElection.ClusterState.HandleSlaveFailover: times, ranks and replication offsets are inputs that say which exit is taken before the epoch logic.
- ClusterEpochs.MovesBounded: epochs change through the collision handler only; the bound of k moves is smaller than the 2^k - 1 one might expect.
- ClusterSlots.Cluster.UpdateSlotsConfigWith: deleting the keys of lost slots and becoming a replica are not modelled.
- DictClass.Dict.Add: sizes are assumed to stay below LONG_MAX buckets, as are all table sizes; chains are sequences, entry pointers are keys, and memory is never exhausted or freed.
- DictClass.Dict.RehashToTheEnd: the time limit is not modelled.
- DictIterator.SafeIterator.Next: unsafe iterators with their fingerprint and direct dictRehash calls during an iteration are not modelled.
- Lzf.Compress: the output is a growing sequence, so that its room checks are modelled but not the addresses it writes to; input lengths are below 2^32.
- HllSparse.HllObject.SparseAdd: corrupted sparse strings are required not to describe more than 16384 registers, not to end before the register looked for, and not to end in the middle of an opcode; nothing in the function guards against them, and what it then reads or writes lies outside the string.
- HllSparse.SparseToDense: the same for strings of more than 16384 registers, which the source writes past the end of the dense registers.
- HllSparse.ConvertOp: the same strings are excluded.
- HllSum.MergeSparse: the same strings are excluded.
- HllSum.SparseSum: a string that ends in half an XZERO opcode, for which the source reads the terminator byte, is excluded.
- HllSparse.PatLen: the hash is any number; MurmurHash is not modelled.
- HllSum.DenseSum: sums are over exact reals; the cardinality estimate and its bias correction are not modelled, nor is the cached cardinality.
- AofServer.Server.Flush: the postponing of writes while fsync runs is an input, and the state of the last write and its log messages are not kept.
- AofServer.Server.ReadDiffFromParent: a read from the pipe that fails while bytes remain in it is not an outcome of the model.
- AofServer.Server.RewriteDone: fork, rename, fsync and signals are inputs that say how they ended; reading the old file's descriptor in the background is left out.
- AofFormat.LoadAppendOnlyFile: numbers that overflow, MULTI blocks, unknown commands and running the commands are left out, as is a failing truncate; aof-load-truncated is on.
- AofFormat.RewriteListObject: the other value types, whose loops have the same form, are left out.
- Intset.IntegerSet.Add: lengths are below 2^31, so that the int and uint32_t conversions are exact; big-endian hosts, which swap to the same layout, are left out.
- BitCombine.Bitop: parsing the operation name, looking keys up and storing the result are left out.
- Random sampling, gossip, MIGRATE and RESTORE, pub/sub, the event loop, sockets, expiry and the skip list are left out: they rest on I/O or chance, or would add easy members.
