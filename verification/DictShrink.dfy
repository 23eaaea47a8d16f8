/**
  Where dictScan's guarantee ends: a table that starts to shrink by a factor of four or more
  while the cursor has bits between the two masks that are not all ones. One call then passes
  keys without handing them over, and over the rest of the iteration they are not made up for.
 */
module DictShrink {
  import opened Basics
  import opened Words
  import opened DictTable
  import opened DictCursor
  import opened DictClass
  import opened DictScan

  // ---------------------------------------------------------------------
  // A dictionary of 2^k1 buckets that dictResize brings down to 2^k0

  /** Keys that are their own hashes. */
  function Same(x: nat): nat { x }

  /** n buckets, one key each in the first u and in bucket h. */
  function Filled(n: nat, u: nat, h: nat): (b: seq<Chain<nat, nat>>)
    ensures |b| == n
    ensures forall i :: 0 <= i < n ==> b[i] == if i < u || i == h then [Entry(i, 0)] else []
  {
    if n == 0 then [] else Filled(n - 1, u, h) + [if n - 1 < u || n - 1 == h then [Entry(n - 1, 0)] else []]
  }

  lemma {:induction false} TotalSnoc(b: seq<Chain<nat, nat>>, c: Chain<nat, nat>)
    ensures Total(b + [c]) == Total(b) + |c|
  {
    if b == [] {
      assert b + [c] == [c] && [c][1..] == [];
    } else {
      TotalSnoc(b[1..], c);
      assert (b + [c])[1..] == b[1..] + [c];
    }
  }

  lemma {:induction false} FilledTotal(n: nat, u: nat, h: nat)
    ensures Total(Filled(n, u, h)) == (if n < u then n else u) + (if u <= h < n then 1 else 0)
  {
    hide Total;
    if n > 0 {
      FilledTotal(n - 1, u, h);
      TotalSnoc(Filled(n - 1, u, h), if n - 1 < u || n - 1 == h then [Entry(n - 1, 0)] else []);
    } else {
      TotalOfEmpty(Filled(0, u, h));
    }
  }

  function Table2(k1: nat, u: nat, h: nat): Table<nat, nat>
  {
    var b := Filled(Pow2(k1), u, h);
    Table(b, Total(b))
  }

  function Before(k1: nat, u: nat, h: nat): State<nat, nat> { State(Table2(k1, u, h), Table([], 0), -1, 0) }

  /** The same dictionary once dictResize has put 2^k0 empty buckets next to it. */
  function Shrinking(k0: nat, k1: nat, u: nat, h: nat): State<nat, nat>
  {
    Before(k1, u, h).(ht1 := EmptyTable(Pow2(k0)), rehashidx := 0)
  }

  lemma Table2OK(k1: nat, u: nat, h: nat)
    requires h < Pow2(k1)
    ensures |Table2(k1, u, h).buckets| == Pow2(k1) && Log2(Pow2(k1)) == k1 && IsPow2(Pow2(k1))
    ensures TableOK(Same, Table2(k1, u, h)) && TableFind(Same, Table2(k1, u, h), h) == Some(0)
  {
    hide Total, Pow2, Lo, Log2;
    Log2Pow2(k1);
    var t := Table2(k1, u, h);
    forall i | 0 <= i < |t.buckets| ensures ChainOK(Same, |t.buckets|, i, t.buckets[i]) { LoId(i, k1); }
    LoId(h, k1);
    assert t.buckets[h] == [Entry(h, 0)];
  }

  lemma StatesOK(k0: nat, k1: nat, u: nat, h: nat)
    requires h < Pow2(k1)
    ensures DictOK(Same, Before(k1, u, h)) && Lookup(Same, Before(k1, u, h), h) == Some(0)
    ensures DictOK(Same, Shrinking(k0, k1, u, h)) && Lookup(Same, Shrinking(k0, k1, u, h), h) == Some(0)
    ensures TableFind(Same, Shrinking(k0, k1, u, h).ht0, h) == Some(0)
  {
    hide Total, Pow2, Lo, Log2, Index, ChainFind, EmptyTable, Table2;
    Table2OK(k1, u, h);
    EmptyDictTable();
    Log2Pow2(k0);
    EmptyTableOK<nat, nat>(Same, Pow2(k0));
    EmptyHasSize(Pow2(k0));
  }

  lemma EmptyDictTable()
    ensures var t: Table<nat, nat> := Table([], 0); TableOK(Same, t) && forall k :: TableFind(Same, t, k) == None
  {
  }

  lemma EmptyHasSize(size: nat)
    ensures |EmptyTable<nat, nat>(size).buckets| == size
  {
  }

  /** With 2^k0 - 1 keys besides h, the step between the two states is dictResize's. */
  lemma ResizeStep(k0: nat, k1: nat, h: nat)
    requires 2 <= k0 < k1 && h < Pow2(k1)
    ensures var s := Before(k1, Pow2(k0) - 1, h);
            IsRealSize(Max(s.ht0.used, DICT_HT_INITIAL_SIZE), Pow2(k0)) && |s.ht0.buckets| != Pow2(k0)
  {
    hide Total, Log2, Filled;
    FilledTotal(Pow2(k1), Pow2(k0) - 1, h);
    Pow2Mono(k0, k1);
    Log2Pow2(k0);
    assert Pow2(2) == 4;
    Pow2Mono(2, k0);
  }

  // ---------------------------------------------------------------------
  // One call

  /** A dictionary that is being rehashed from 2^k1 buckets to 2^k0. */
  ghost predicate ShrinksFrom<K, V>(s: State<K, V>, k0: nat, k1: nat)
  {
    s.IsRehashing() && |s.ht0.buckets| == Pow2(k1) && |s.ht1.buckets| == Pow2(k0)
  }

  /** A key that still waits in the old table is handed over if and only if its bucket is visited. */
  lemma WaitingKey<K(!new), V>(hash: K -> nat, s: State<K, V>, k0: nat, k1: nat, v: nat, k: K)
    requires k0 < k1 && DictOK(hash, s) && ShrinksFrom(s, k0, k1) && TableFind(hash, s.ht0, k) != None
    ensures EmitsKey(s, v, k) <==> Visited(k0, k1, v, hash(k))
  {
    hide Pow2, Log2, Visited, EmitsKey, Apart, TableFind, TableOK;
    Pow2Mono(k0, k1);
    Log2Pow2(k0);
    Log2Pow2(k1);
    Pow2Positive(k0);
    assert Small(s) == s.ht1 && Large(s) == s.ht0;
    OnlyOneTable(hash, s, k);
    EmitsIff(hash, s, v, k);
  }

  lemma Pow2Positive(k: nat)
    ensures Pow2(k) >= 1
  {
  }

  /** What one call with cursor v promises of all dictionaries with these sizes. */
  ghost predicate CallIsComplete(w: nat, k0: nat, k1: nat, v: nat)
  {
    forall s: State<nat, nat>, k: nat ::
      DictOK(Same, s) && ShrinksFrom(s, k0, k1) && Lookup(Same, s, k) != None && Swept(w, v, NextCursor(w, s, v), k)
      ==> EmitsKey(s, v, k)
  }

  /** The exact condition: a call hands over every key its cursor passes if and only if the middle bits are all ones. */
  lemma CallExact(w: nat, k0: nat, k1: nat, v: nat)
    requires k0 < k1 <= w
    ensures CallIsComplete(w, k0, k1, v) <==> AllOnes(Middle(k0, k1, v))
  {
    hide Rev, Pow2, Log2, Middle, AllOnes, Swept, EmitsKey, DictOK, Lookup, NextCursor, Visited, SafeCursor;
    if AllOnes(Middle(k0, k1, v)) {
      forall s: State<nat, nat>, k: nat |
        DictOK(Same, s) && ShrinksFrom(s, k0, k1) && Lookup(Same, s, k) != None && Swept(w, v, NextCursor(w, s, v), k)
        ensures EmitsKey(s, v, k)
      {
        SafeShrink(s, k0, k1, v);
        Log2Pow2(k0);
        Log2Pow2(k1);
        SweptIsEmitted(Same, w, s, v, k);
      }
    } else {
      var h := SweptIsMissed(w, k0, k1, v);
      var s := Shrinking(k0, k1, 0, h);
      StatesOK(k0, k1, 0, h);
      ShrinkingSizes(w, k0, k1, 0, h, v);
      WaitingKey(Same, s, k0, k1, v, h);
    }
  }

  lemma SafeShrink<K, V>(s: State<K, V>, k0: nat, k1: nat, v: nat)
    requires k0 < k1 && ShrinksFrom(s, k0, k1) && AllOnes(Middle(k0, k1, v))
    ensures SafeCursor(s, v)
  {
    hide Pow2, Log2, Middle, AllOnes;
    Pow2Mono(k0, k1);
    Log2Pow2(k0);
    Log2Pow2(k1);
  }

  lemma ShrinkingSizes(w: nat, k0: nat, k1: nat, u: nat, h: nat, v: nat)
    requires k0 < k1 && h < Pow2(k1)
    ensures ShrinksFrom(Shrinking(k0, k1, u, h), k0, k1)
    ensures NextCursor(w, Shrinking(k0, k1, u, h), v) == Advance(w, Pow2(k0) - 1, v)
    ensures NextCursor(w, Before(k1, u, h), v) == Advance(w, Pow2(k1) - 1, v)
  {
    hide Pow2, Total, Filled, Advance;
    EmptyHasSize(Pow2(k0));
    Pow2Mono(k0, k1);
    Pow2Positive(k0);
    SomeEntries(k1, u, h);
  }

  lemma SomeEntries(k1: nat, u: nat, h: nat)
    requires h < Pow2(k1)
    ensures Table2(k1, u, h).used > 0 && |Table2(k1, u, h).buckets| == Pow2(k1)
  {
    hide Pow2, Total;
    FilledTotal(Pow2(k1), u, h);
  }

  // ---------------------------------------------------------------------
  // Whole iterations

  lemma AdvanceTo(w: nat, k: nat, v: nat, u: nat)
    requires k <= w && u < Pow2(k) && Rev(k, u) == Rev(k, v) + 1
    ensures Advance(w, Pow2(k) - 1, v) == u
  {
    hide Rev, Pow2, Advance, Hi, Lo;
    var v' := Advance(w, Pow2(k) - 1, v);
    AdvanceBlocks(w, k, v);
    RevHi(w, u, w - k);
    LoId(u, k);
    RevConstants(w - k);
    HiLoExt(Rev(w, u), Rev(w, v'), w - k);
    RevEq(w, u, v');
    Pow2Mono(k, w);
    LoId(u, w);
    LoId(v', w);
  }

  lemma AdvanceToZero(w: nat, k: nat, v: nat)
    requires k <= w && Rev(k, v) + 1 == Pow2(k)
    ensures Advance(w, Pow2(k) - 1, v) == 0
  {
    hide Rev, Pow2, Advance;
    AdvanceBlocks(w, k, v);
  }

  /** Calls in the large table before the cursor is v, and in the small one from then on. */
  function CallsBefore(k1: nat, v: nat): nat { Rev(k1, v) }

  function CallsAfter(k0: nat, v: nat): (n: nat)
    ensures n > 0
  {
    Pow2(k0) - Rev(k0, v)
  }

  /** The cursor before call i: up to v in the order of 2^k1 buckets, then in that of 2^k0. */
  function CursorAt(k0: nat, k1: nat, v: nat, i: nat): nat
  {
    if i <= CallsBefore(k1, v) then Rev(k1, i)
    else if i < CallsBefore(k1, v) + CallsAfter(k0, v) then Rev(k0, Rev(k0, v) + (i - CallsBefore(k1, v)))
    else 0
  }

  lemma RevRev(k: nat, x: nat)
    requires x < Pow2(k)
    ensures Rev(k, Rev(k, x)) == x
  {
    hide Rev, Pow2, Lo;
    RevInvolution(k, x);
    LoId(x, k);
  }

  lemma CursorsStart(k0: nat, k1: nat, v: nat)
    requires v < Pow2(k1)
    ensures CursorAt(k0, k1, v, 0) == 0 && CursorAt(k0, k1, v, CallsBefore(k1, v)) == v
    ensures CursorAt(k0, k1, v, CallsBefore(k1, v) + CallsAfter(k0, v)) == 0
  {
    hide Rev, Pow2;
    RevConstants(k1);
    RevRev(k1, v);
  }

  lemma CursorBlock(k0: nat, k1: nat, v: nat, i: nat)
    requires v < Pow2(k1) && i < CallsBefore(k1, v) + CallsAfter(k0, v)
    ensures i < CallsBefore(k1, v) ==> Rev(k1, CursorAt(k0, k1, v, i)) == i
    ensures i >= CallsBefore(k1, v) ==> Rev(k0, CursorAt(k0, k1, v, i)) == Rev(k0, v) + (i - CallsBefore(k1, v)) < Pow2(k0)
  {
    hide Rev, Pow2;
    if i <= CallsBefore(k1, v) {
      RevRev(k1, i);
      RevRev(k1, v);
    } else {
      RevRev(k0, Rev(k0, v) + (i - CallsBefore(k1, v)));
    }
  }

  lemma CursorStep(w: nat, k0: nat, k1: nat, v: nat, i: nat)
    requires k0 < k1 <= w && v < Pow2(k1) && i < CallsBefore(k1, v) + CallsAfter(k0, v)
    ensures CursorAt(k0, k1, v, i + 1)
            == Advance(w, (if i < CallsBefore(k1, v) then Pow2(k1) else Pow2(k0)) - 1, CursorAt(k0, k1, v, i))
  {
    hide Rev, Pow2, Advance;
    var c, c', n := CursorAt(k0, k1, v, i), CursorAt(k0, k1, v, i + 1), CallsBefore(k1, v);
    CursorBlock(k0, k1, v, i);
    if i < n {
      RevRev(k1, i + 1);
      AdvanceTo(w, k1, c, c');
    } else if i + 1 < n + CallsAfter(k0, v) {
      CursorBlock(k0, k1, v, i + 1);
      AdvanceTo(w, k0, c, c');
    } else {
      AdvanceToZero(w, k0, c);
    }
  }

  function LossStates(k0: nat, k1: nat, v: nat, u: nat, h: nat): (r: seq<State<nat, nat>>)
    ensures |r| == CallsBefore(k1, v) + CallsAfter(k0, v)
  {
    seq(CallsBefore(k1, v), _ => Before(k1, u, h)) + seq(CallsAfter(k0, v), _ => Shrinking(k0, k1, u, h))
  }

  function LossScans(k0: nat, k1: nat, v: nat): (r: seq<bool>)
    ensures |r| == CallsBefore(k1, v) + CallsAfter(k0, v) && forall i :: 0 <= i < |r| ==> r[i]
  {
    seq(CallsBefore(k1, v) + CallsAfter(k0, v), _ => true)
  }

  function LossCursors(k0: nat, k1: nat, v: nat): (r: seq<nat>)
    ensures |r| == CallsBefore(k1, v) + CallsAfter(k0, v) + 1 && forall i :: 0 <= i < |r| ==> r[i] == CursorAt(k0, k1, v, i)
  {
    seq(CallsBefore(k1, v) + CallsAfter(k0, v) + 1, i requires i >= 0 => CursorAt(k0, k1, v, i))
  }

  lemma LossHistory(w: nat, k0: nat, k1: nat, v: nat, u: nat, h: nat)
    requires k0 < k1 <= w && v < Pow2(k1) && h < Pow2(k1)
    ensures History(Same, w, LossStates(k0, k1, v, u, h), LossScans(k0, k1, v), LossCursors(k0, k1, v))
    ensures PresentThroughout(Same, LossStates(k0, k1, v, u, h), h)
  {
    hide CallsBefore, CallsAfter, CursorAt, NextCursor, DictOK, Lookup, Log2, Pow2, Advance, Before, Shrinking;
    var states, scans, cursors := LossStates(k0, k1, v, u, h), LossScans(k0, k1, v), LossCursors(k0, k1, v);
    StatesOK(k0, k1, u, h);
    LossSizes(w, k0, k1, u, h);
    CursorsStart(k0, k1, v);
    forall i | 0 <= i < |scans| ensures cursors[i + 1] == NextCursor(w, states[i], cursors[i]) {
      CursorStep(w, k0, k1, v, i);
      ShrinkingSizes(w, k0, k1, u, h, cursors[i]);
    }
  }

  lemma LossSizes(w: nat, k0: nat, k1: nat, u: nat, h: nat)
    requires k0 < k1 <= w && h < Pow2(k1)
    ensures Log2(|Before(k1, u, h).ht0.buckets|) <= w && Log2(|Before(k1, u, h).ht1.buckets|) <= w
    ensures Log2(|Shrinking(k0, k1, u, h).ht0.buckets|) <= w && Log2(|Shrinking(k0, k1, u, h).ht1.buckets|) <= w
  {
    hide Pow2, Total, Filled;
    SomeEntries(k1, u, h);
    EmptyHasSize(Pow2(k0));
    Log2Pow2(k0);
    Log2Pow2(k1);
  }

  lemma VisitsItself(k0: nat, k1: nat, v: nat)
    requires k0 <= k1
    ensures Visited(k0, k1, v, v)
  {
  }

  lemma PassedIsNotBefore(w: nat, v: nat, v': nat, h: nat)
    requires Swept(w, v, v', h)
    ensures Rev(w, v) <= Rev(w, h)
  {
  }

  /** The missed hash comes after v in the order of the large table, in the same small bucket. */
  lemma MissedComesAfter(w: nat, k0: nat, k1: nat, v: nat, h: nat)
    requires k0 < k1 <= w && v < Pow2(k1) && h < Pow2(k1)
    requires Swept(w, v, Advance(w, Pow2(k0) - 1, v), h) && !Visited(k0, k1, v, h)
    ensures Rev(k1, v) < Rev(k1, h) && Rev(k0, h) == Rev(k0, v)
  {
    hide *;
    VisitsItself(k0, k1, v);
    SweptSharesBucket(w, k0, v, h);
    PassedIsNotBefore(w, v, Advance(w, Pow2(k0) - 1, v), h);
    RevEq(k0, h, v);
    RevHi(w, v, w - k1);
    RevHi(w, h, w - k1);
    HiMono(Rev(w, v), Rev(w, h), w - k1);
    RevEq(k1, v, h);
    LoId(v, k1);
    LoId(h, k1);
  }

  /** No call of that iteration looks into the bucket of the missed key. */
  lemma NeverEmitted(w: nat, k0: nat, k1: nat, v: nat, u: nat, h: nat, i: nat)
    requires k0 < k1 <= w && v < Pow2(k1) && h < Pow2(k1)
    requires Rev(k1, v) < Rev(k1, h) && Rev(k0, h) == Rev(k0, v) && !Visited(k0, k1, v, h)
    requires i < CallsBefore(k1, v) + CallsAfter(k0, v)
    ensures !EmitsKey(LossStates(k0, k1, v, u, h)[i], LossCursors(k0, k1, v)[i], h)
  {
    var c := CursorAt(k0, k1, v, i);
    hide Rev, Pow2, EmitsKey, Lo, Hi, DictOK, Lookup, TableFind, CursorAt, Log2, Before, Shrinking;
    StatesOK(k0, k1, u, h);
    CursorBlock(k0, k1, v, i);
    CursorsStart(k0, k1, v);
    if i < CallsBefore(k1, v) {
      EmitsBefore(k1, u, h, c);
      RevEq(k1, h, c);
    } else {
      ShrinkingSizes(w, k0, k1, u, h, c);
      WaitingKey(Same, Shrinking(k0, k1, u, h), k0, k1, c, h);
      if i > CallsBefore(k1, v) { RevEq(k0, h, c); }
    }
  }

  lemma EmitsBefore(k1: nat, u: nat, h: nat, c: nat)
    requires h < Pow2(k1)
    ensures EmitsKey(Before(k1, u, h), c, h) ==> Lo(h, k1) == Lo(c, k1)
  {
    hide Rev, Pow2, EmitsKey, Lo, Hi, Log2, Total, Filled, ChainFind;
    StatesOK(0, k1, u, h);
    Table2OK(k1, u, h);
    EmitsIff(Same, Before(k1, u, h), c, h);
  }

  /**
    For every pair of sizes, and every cursor with middle bits that are not all ones: a client
    scans 2^k1 buckets from 0 until it has that cursor, dictResize starts to bring the dictionary
    down to 2^k0 buckets, the client goes on until the cursor is 0 again, and a key that was
    there all the time has not been returned.
   */
  lemma ShrinkMissesKey(w: nat, k0: nat, k1: nat, v: nat)
    returns (states: seq<State<nat, nat>>, scans: seq<bool>, cursors: seq<nat>, n: nat, k: nat)
    requires 2 <= k0 < k1 <= w && v < Pow2(k1) && !AllOnes(Middle(k0, k1, v))
    ensures History(Same, w, states, scans, cursors) && PresentThroughout(Same, states, k)
    ensures 0 < |states| && scans[|states| - 1] && cursors[|states|] == 0
    ensures !EmittedBefore(states, scans, cursors, |states|, k)
    ensures ShrinkAt(states, cursors, n, k0, k1, v)
  {
    hide *;
    var h := SweptIsMissed(w, k0, k1, v);
    MissedComesAfter(w, k0, k1, v, h);
    var u := Pow2(k0) - 1;
    states, scans, cursors, n, k := LossStates(k0, k1, v, u, h), LossScans(k0, k1, v), LossCursors(k0, k1, v), CallsBefore(k1, v), h;
    LossHistory(w, k0, k1, v, u, h);
    CursorsStart(k0, k1, v);
    LossShape(k0, k1, v, u, h);
    MissedByAll(w, k0, k1, v, u, h);
  }

  lemma MissedByAll(w: nat, k0: nat, k1: nat, v: nat, u: nat, h: nat)
    requires k0 < k1 <= w && v < Pow2(k1) && h < Pow2(k1)
    requires Rev(k1, v) < Rev(k1, h) && Rev(k0, h) == Rev(k0, v) && !Visited(k0, k1, v, h)
    ensures var states, cursors := LossStates(k0, k1, v, u, h), LossCursors(k0, k1, v);
            !EmittedBefore(states, LossScans(k0, k1, v), cursors, |states|, h)
  {
    hide *;
    var states, scans, cursors := LossStates(k0, k1, v, u, h), LossScans(k0, k1, v), LossCursors(k0, k1, v);
    forall i: nat | i < |states| ensures !EmitsKey(states[i], cursors[i], h) {
      NeverEmitted(w, k0, k1, v, u, h, i);
    }
    NotEmitted(states, scans, cursors, h);
  }

  lemma NotEmitted(states: seq<State<nat, nat>>, scans: seq<bool>, cursors: seq<nat>, k: nat)
    requires |states| == |scans| && |cursors| == |scans| + 1
    requires forall i: nat :: i < |states| ==> !EmitsKey(states[i], cursors[i], k)
    ensures !EmittedBefore(states, scans, cursors, |states|, k)
  {
    hide EmitsKey;
  }

  lemma LossShape(k0: nat, k1: nat, v: nat, u: nat, h: nat)
    requires 2 <= k0 < k1 && v < Pow2(k1) && h < Pow2(k1) && !AllOnes(Middle(k0, k1, v)) && u == Pow2(k0) - 1
    ensures ShrinkAt(LossStates(k0, k1, v, u, h), LossCursors(k0, k1, v), CallsBefore(k1, v), k0, k1, v)
  {
    ResizeStep(k0, k1, h);
    hide Rev, Pow2, Middle, AllOnes, CursorAt, CallsAfter, Total, Filled;
    MiddleOfZero(k0, k1);
    RevConstants(k1);
    RevEq(k1, v, 0);
    HiZero(k1);
    LoId(v, k1);
    CursorsStart(k0, k1, v);
    ShrinkingSizes(k1, k0, k1, u, h, v);
    SomeEntries(k1, u, h);
  }

  lemma MiddleOfZero(k0: nat, k1: nat)
    requires k0 < k1
    ensures AllOnes(Middle(k0, k1, 0))
  {
    HiZero(k0);
    HiZero(k1 - k0);
  }

  /** dictResize puts 2^k0 empty buckets next to the table, the number it chooses for the entries there are. */
  ghost predicate ResizeStarts<K, V>(s: State<K, V>, s': State<K, V>, k0: nat)
  {
    s' == s.(ht1 := EmptyTable(Pow2(k0)), rehashidx := 0) && IsRealSize(Max(s.ht0.used, DICT_HT_INITIAL_SIZE), Pow2(k0))
  }

  /**
    Up to step n the dictionary has 2^k1 buckets; in that step dictResize starts to bring it down
    to 2^k0, which goes on from then on. The client's cursor is v at that time.
   */
  ghost predicate ShrinkAt<K, V>(states: seq<State<K, V>>, cursors: seq<nat>, n: nat, k0: nat, k1: nat, v: nat)
  {
    && 0 < n < |states| && |cursors| == |states| + 1 && cursors[n] == v
    && ResizeStarts(states[n - 1], states[n], k0)
    && (forall i :: 0 <= i < n ==> !states[i].IsRehashing() && |states[i].ht0.buckets| == Pow2(k1))
    && (forall i :: n <= i < |states| ==> ShrinksFrom(states[i], k0, k1))
  }

  /** In every such history a finished iteration has returned every key that was there all the time. */
  ghost predicate IterationIsComplete(w: nat, k0: nat, k1: nat, v: nat)
  {
    forall states: seq<State<nat, nat>>, scans, cursors, n: nat, m: nat, k: nat ::
      History(Same, w, states, scans, cursors) && ShrinkAt(states, cursors, n, k0, k1, v) && PresentThroughout(Same, states, k)
      && 0 < m <= |states| && scans[m - 1] && cursors[m] == 0
      ==> EmittedBefore(states, scans, cursors, m, k)
  }

  /** The exact condition over whole iterations: the cursor's middle bits when the shrink starts. */
  lemma IterationExact(w: nat, k0: nat, k1: nat, v: nat)
    requires 2 <= k0 < k1 <= w && v < Pow2(k1)
    ensures IterationIsComplete(w, k0, k1, v) <==> AllOnes(Middle(k0, k1, v))
  {
    hide Pow2, Middle, AllOnes, DictOK, Log2, NextCursor, PresentThroughout, ShrinkAt, EmittedBefore, CallsBefore, CallsAfter;
    if AllOnes(Middle(k0, k1, v)) {
      forall states: seq<State<nat, nat>>, scans, cursors, n: nat, m: nat, k: nat |
        History(Same, w, states, scans, cursors) && ShrinkAt(states, cursors, n, k0, k1, v) && PresentThroughout(Same, states, k)
        && 0 < m <= |states| && scans[m - 1] && cursors[m] == 0
        ensures EmittedBefore(states, scans, cursors, m, k)
      {
        CallsAreSafe(Same, w, states, scans, cursors, n, k0, k1, v);
        ScanComplete(Same, w, states, scans, cursors, m, k);
      }
    } else {
      var states, scans, cursors, n, k := ShrinkMissesKey(w, k0, k1, v);
      assert !EmittedBefore(states, scans, cursors, |states|, k);
    }
  }

  lemma {:induction false} CursorAfterShrink<K(!new), V>(hash: K -> nat, w: nat, states: seq<State<K, V>>, scans: seq<bool>,
                                                         cursors: seq<nat>, n: nat, k0: nat, k1: nat, v: nat, i: nat)
    requires History(hash, w, states, scans, cursors) && ShrinkAt(states, cursors, n, k0, k1, v)
    requires k0 < k1 <= w && n <= i < |states|
    ensures cursors[i] == v || cursors[i] < Pow2(k0)
  {
    hide DictOK, Log2, Pow2, Advance, ResizeStarts;
    if i > n {
      CursorAfterShrink(hash, w, states, scans, cursors, n, k0, k1, v, i - 1);
      Pow2Mono(k0, k1);
      Pow2Positive(k0);
      AdvanceLow(w, k0, cursors[i - 1]);
      assert cursors[i - 1 + 1] == if scans[i - 1] then NextCursor(w, states[i - 1], cursors[i - 1]) else cursors[i - 1];
    }
  }

  lemma CallsAreSafe<K(!new), V>(hash: K -> nat, w: nat, states: seq<State<K, V>>, scans: seq<bool>,
                                 cursors: seq<nat>, n: nat, k0: nat, k1: nat, v: nat)
    requires History(hash, w, states, scans, cursors) && ShrinkAt(states, cursors, n, k0, k1, v)
    requires k0 < k1 <= w && AllOnes(Middle(k0, k1, v))
    ensures SafeCalls(states, scans, cursors)
  {
    hide DictOK, Log2, Pow2, NextCursor, ResizeStarts, SafeCursor, Middle, AllOnes;
    forall i | 0 <= i < |states| && scans[i] ensures SafeCursor(states[i], cursors[i]) {
      if i < n {
        QuietIsSafe(states[i], cursors[i]);
      } else {
        CursorAfterShrink(hash, w, states, scans, cursors, n, k0, k1, v, i);
        if cursors[i] < Pow2(k0) { LowCursorIsSafe(k0, k1, cursors[i]); }
        SafeShrink(states[i], k0, k1, cursors[i]);
      }
    }
  }

  lemma QuietIsSafe<K, V>(s: State<K, V>, v: nat)
    requires !s.IsRehashing()
    ensures SafeCursor(s, v)
  {
  }
}
