/**
  Safe iterators of dict.c. While one is running the rehash stands still, so a
  client may add, look up and delete the entry just returned between calls of
  dictNext and still see every entry that stays, exactly once.

  An entry pointer is represented by the key of the entry: no two entries of a
  dictionary have the same key.
 */
module DictIterator {
  import opened Basics
  import opened DictTable
  import opened DictClass

  /** dictIterator: entry and nextEntry are NULL (None) or the key of an entry. */
  datatype Iter<K> = Iter(table: nat, index: int, entry: Option<K>, nextEntry: Option<K>)

  function FreshIter<K>(): Iter<K> { Iter(0, -1, None, None) }

  function TableAt<K, V>(s: State<K, V>, n: nat): Table<K, V>
  {
    if n == 0 then s.ht0 else s.ht1
  }

  predicate At<K(==), V>(t: Table<K, V>, i: int, q: int, k: K)
  {
    0 <= i < |t.buckets| && 0 <= q < |t.buckets[i]| && t.buckets[i][q].key == k
  }

  ghost predicate InTable<K, V>(t: Table<K, V>, k: K)
  {
    exists i, q :: At(t, i, q, k)
  }

  /** The place of k is still ahead of the iterator within its current table. */
  ghost predicate AheadInTable<K, V>(t: Table<K, V>, it: Iter<K>, k: K)
  {
    exists i, q :: At(t, i, q, k) && AheadOf(t, it, i, q)
  }

  ghost predicate AheadOf<K, V>(t: Table<K, V>, it: Iter<K>, i: int, q: int)
  {
    || i > it.index
    || (i == it.index && it.entry != None && it.nextEntry != None && exists p :: p <= q && At(t, i, p, it.nextEntry.value))
  }

  /** k has still to be returned. */
  ghost predicate Pending<K, V>(s: State<K, V>, it: Iter<K>, k: K)
  {
    || AheadInTable(TableAt(s, it.table), it, k)
    || (it.table == 0 && s.IsRehashing() && InTable(s.ht1, k))
  }

  /** The iterator's pointers lead into the dictionary. */
  ghost predicate IterOK<K, V>(s: State<K, V>, it: Iter<K>)
  {
    && it.table <= 1 && it.index >= -1
    && (it.table == 1 ==> s.IsRehashing())
    && (it.entry != None ==>
          && 0 <= it.index < |TableAt(s, it.table).buckets|
          && it.nextEntry != it.entry
          && (it.nextEntry != None ==> exists p :: At(TableAt(s, it.table), it.index, p, it.nextEntry.value)))
  }

  /** What dictNext does: return one pending key and leave the others, or report that none is left. */
  ghost predicate NextStep<K(!new), V>(s: State<K, V>, it: Iter<K>, it': Iter<K>, r: Option<K>)
  {
    && IterOK(s, it')
    && (r != None ==> it'.entry == r && Pending(s, it, r.value))
    && (forall k :: Pending(s, it', k) <==> Pending(s, it, k) && r != Some(k))
    && (r == None ==> forall k :: !Pending(s, it, k))
  }

  // ---------------------------------------------------------------------
  // Keys have one place

  lemma OnePlace<K(!new), V>(hash: K -> nat, t: Table<K, V>, k: K, i: int, q: int, i': int, q': int)
    requires TableOK(hash, t) && At(t, i, q, k) && At(t, i', q', k)
    ensures i == i' && q == q'
  {
    hide Total, Log2;
    assert ChainOK(hash, |t.buckets|, i, t.buckets[i]);
    assert ChainOK(hash, |t.buckets|, i', t.buckets[i']);
  }

  lemma InTableFinds<K(!new), V>(hash: K -> nat, t: Table<K, V>, k: K)
    requires TableOK(hash, t)
    ensures InTable(t, k) <==> TableFind(hash, t, k) != None
  {
    hide Total, Log2, ChainFind;
    if InTable(t, k) {
      var i, q :| At(t, i, q, k);
      assert ChainOK(hash, |t.buckets|, i, t.buckets[i]);
      ChainFindAt(t.buckets[i], q);
    }
    if TableFind(hash, t, k) != None {
      var i := Index(|t.buckets|, hash(k));
      var q := ChainFindIn(t.buckets[i], k);
      assert At(t, i, q, k);
    }
  }

  lemma TablesApart<K(!new), V>(hash: K -> nat, s: State<K, V>, k: K)
    requires DictOK(hash, s)
    ensures !(InTable(s.ht0, k) && InTable(s.ht1, k))
    ensures Lookup(hash, s, k) != None <==> InTable(s.ht0, k) || InTable(s.ht1, k)
  {
    hide TableOK;
    InTableFinds(hash, s.ht0, k);
    InTableFinds(hash, s.ht1, k);
  }

  // ---------------------------------------------------------------------
  // The steps of dictNext

  /** Moving on to an empty next bucket. */
  lemma SkipEmptyBucket<K(!new), V>(s: State<K, V>, it: Iter<K>, it': Iter<K>)
    requires IterOK(s, it) && it.entry == None
    requires it'.table == it.table && it'.index == it.index + 1 && it'.entry == None
    requires it'.index < |TableAt(s, it.table).buckets| ==> TableAt(s, it.table).buckets[it'.index] == []
    ensures IterOK(s, it')
    ensures forall k :: Pending(s, it', k) <==> Pending(s, it, k)
  {
    var t := TableAt(s, it.table);
    forall k ensures AheadInTable(t, it', k) <==> AheadInTable(t, it, k) {
      if AheadInTable(t, it, k) {
        var i, q :| At(t, i, q, k) && AheadOf(t, it, i, q);
        assert AheadOf(t, it', i, q);
      }
      if AheadInTable(t, it', k) {
        var i, q :| At(t, i, q, k) && AheadOf(t, it', i, q);
        assert AheadOf(t, it, i, q);
      }
    }
  }

  /** Reaching the end of ht[0] during a rehash: go on with ht[1]. */
  lemma EnterSecondTable<K(!new), V>(s: State<K, V>, it: Iter<K>)
    requires IterOK(s, it) && it.entry == None && it.table == 0 && s.IsRehashing()
    requires it.index + 1 >= |s.ht0.buckets|
    ensures forall k :: Pending(s, Iter(1, -1, None, None), k) <==> Pending(s, it, k)
  {
    var it1 := Iter(1, -1, None, None);
    forall k ensures AheadInTable(s.ht1, it1, k) <==> InTable(s.ht1, k) {
      if InTable(s.ht1, k) {
        var i, q :| At(s.ht1, i, q, k);
        assert AheadOf(s.ht1, it1, i, q);
      }
    }
  }

  lemma NothingLeft<K(!new), V>(s: State<K, V>, it: Iter<K>)
    requires IterOK(s, it) && it.entry == None && !(it.table == 0 && s.IsRehashing())
    requires it.index + 1 >= |TableAt(s, it.table).buckets|
    ensures forall k :: !Pending(s, it, k)
  {
  }

  /** nextEntry was NULL: the rest of this bucket is empty. */
  lemma ChainExhausted<K(!new), V>(s: State<K, V>, it: Iter<K>, it': Iter<K>)
    requires IterOK(s, it) && it.entry != None && it.nextEntry == None
    requires it' == it.(entry := None)
    ensures IterOK(s, it')
    ensures forall k :: Pending(s, it', k) <==> Pending(s, it, k)
  {
    var t := TableAt(s, it.table);
    forall k ensures AheadInTable(t, it', k) <==> AheadInTable(t, it, k) {
      if AheadInTable(t, it, k) {
        var i, q :| At(t, i, q, k) && AheadOf(t, it, i, q);
        assert AheadOf(t, it', i, q);
      }
      if AheadInTable(t, it', k) {
        var i, q :| At(t, i, q, k) && AheadOf(t, it', i, q);
        assert AheadOf(t, it, i, q);
      }
    }
  }

  /** The iterator positioned on the p-th entry of bucket (table, index). */
  function OnEntry<K, V>(s: State<K, V>, table: nat, index: nat, p: nat): Iter<K>
    requires index < |TableAt(s, table).buckets| && p < |TableAt(s, table).buckets[index]|
  {
    var c := TableAt(s, table).buckets[index];
    Iter(table, index, Some(c[p].key), if p + 1 < |c| then Some(c[p + 1].key) else None)
  }

  /** Returning the p-th entry of a bucket when what is ahead starts exactly there. */
  lemma ReturnEntry<K(!new), V>(hash: K -> nat, s: State<K, V>, it: Iter<K>, p: nat)
    requires DictOK(hash, s) && IterOK(s, it)
    requires 0 <= it.index < |TableAt(s, it.table).buckets| && p < |TableAt(s, it.table).buckets[it.index]|
    requires it.entry != None && it.nextEntry == Some(TableAt(s, it.table).buckets[it.index][p].key)
    ensures NextStep(s, it, OnEntry(s, it.table, it.index, p), Some(TableAt(s, it.table).buckets[it.index][p].key))
  {
    hide TableOK;
    var t := TableAt(s, it.table);
    var x := it.index;
    var n := t.buckets[x][p].key;
    var it' := OnEntry(s, it.table, x, p);
    assert At(t, x, p, n);
    assert p + 1 < |t.buckets[x]| ==> At(t, x, p + 1, t.buckets[x][p + 1].key);
    if it'.nextEntry == it'.entry { OnePlace(hash, t, n, x, p, x, p + 1); }
    assert AheadOf(t, it, x, p);
    assert Pending(s, it, n);
    forall k ensures AheadInTable(t, it', k) <==> AheadInTable(t, it, k) && k != n {
      if AheadInTable(t, it', k) {
        var i, q :| At(t, i, q, k) && AheadOf(t, it', i, q);
        if i == x {
          var p' :| p' <= q && At(t, x, p', it'.nextEntry.value);
          OnePlace(hash, t, it'.nextEntry.value, x, p', x, p + 1);
        }
        assert AheadOf(t, it, i, q);
        if k == n { OnePlace(hash, t, n, x, p, i, q); }
      }
      if AheadInTable(t, it, k) && k != n {
        var i, q :| At(t, i, q, k) && AheadOf(t, it, i, q);
        if i == x {
          var p' :| p' <= q && At(t, x, p', n);
          OnePlace(hash, t, n, x, p', x, p);
          assert q > p;
        }
        assert AheadOf(t, it', i, q);
      }
    }
    if it.table == 0 {
      TablesApart(hash, s, n);
      assert InTable(s.ht0, n);
    }
  }

  /** Entering a non-empty bucket is the same as being about to follow a pointer to its head. */
  lemma EnterBucket<K(!new), V>(hash: K -> nat, s: State<K, V>, it: Iter<K>)
    requires DictOK(hash, s) && IterOK(s, it) && it.entry == None
    requires it.index + 1 < |TableAt(s, it.table).buckets| && TableAt(s, it.table).buckets[it.index + 1] != []
    ensures NextStep(s, it, OnEntry(s, it.table, it.index + 1, 0),
                     Some(TableAt(s, it.table).buckets[it.index + 1][0].key))
  {
    hide TableOK;
    var t := TableAt(s, it.table);
    var x := it.index + 1;
    var n := t.buckets[x][0].key;
    var it' := OnEntry(s, it.table, x, 0);
    assert At(t, x, 0, n);
    assert 1 < |t.buckets[x]| ==> At(t, x, 1, t.buckets[x][1].key);
    if it'.nextEntry == it'.entry { OnePlace(hash, t, n, x, 0, x, 1); }
    assert AheadOf(t, it, x, 0);
    assert Pending(s, it, n);
    forall k ensures AheadInTable(t, it', k) <==> AheadInTable(t, it, k) && k != n {
      if AheadInTable(t, it', k) {
        var i, q :| At(t, i, q, k) && AheadOf(t, it', i, q);
        assert AheadOf(t, it, i, q);
        if k == n {
          OnePlace(hash, t, n, x, 0, i, q);
          var p' :| p' <= q && At(t, x, p', it'.nextEntry.value);
          OnePlace(hash, t, it'.nextEntry.value, x, p', x, 1);
        }
      }
      if AheadInTable(t, it, k) && k != n {
        var i, q :| At(t, i, q, k) && AheadOf(t, it, i, q);
        if i == x { assert q >= 1; }
        assert AheadOf(t, it', i, q);
      }
    }
    if it.table == 0 {
      TablesApart(hash, s, n);
      assert InTable(s.ht0, n);
    }
  }

  class SafeIterator<K(==,!new), V> {
    const d: Dict<K, V>
    var it: Iter<K>

    /** dictGetSafeIterator */
    constructor (d: Dict<K, V>)
      ensures this.d == d && it == FreshIter()
    {
      this.d := d;
      it := FreshIter();
    }

    /** The end of the current chain, or of the table: move on to the next bucket. */
    method NextBucket() returns (done: bool, r: Option<K>)
      requires d.Valid() && IterOK(d.State(), it) && it.entry == None
      modifies this`it
      ensures it.index >= 0 && (done ==> NextStep(d.State(), old(it), it, r))
      ensures !done ==> Skipped(d.State(), old(it), it)
    {
      hide DictOK, Pending;
      ghost var here := it;
      var ht := TableAt(d.State(), it.table);
      if it.index + 1 >= |ht.buckets| {
        if d.IsRehashing() && it.table == 0 {
          EnterSecondTable(d.State(), it);
          here := Iter(1, -1, None, None);
          it := Iter(1, 0, None, it.nextEntry);
          ht := d.ht1;
          SecondIsNotEmpty(d);
        } else {
          NothingLeft(d.State(), it);
          it := it.(index := it.index + 1);
          SkipEmptyBucket(d.State(), here, it);
          return true, None;
        }
      } else {
        it := it.(index := it.index + 1);
      }
      var c := ht.buckets[it.index];
      if c == [] {
        SkipEmptyBucket(d.State(), here, it);
        return false, None;
      }
      EnterBucket(d.hash, d.State(), here);
      it := it.(entry := Some(c[0].key), nextEntry := if 1 < |c| then Some(c[1].key) else None);
      return true, it.entry;
    }

    /** Follow nextEntry. */
    method FollowPointer() returns (done: bool, r: Option<K>)
      requires d.Valid() && IterOK(d.State(), it) && it.entry != None
      modifies this`it
      ensures it.index >= 0 && (done ==> NextStep(d.State(), old(it), it, r))
      ensures !done ==> Skipped(d.State(), old(it), it)
    {
      hide DictOK, Pending;
      if it.nextEntry == None {
        ghost var here := it;
        it := it.(entry := it.nextEntry);
        ChainExhausted(d.State(), here, it);
        return false, None;
      }
      var c := TableAt(d.State(), it.table).buckets[it.index];
      var p := SearchChain(c, it.nextEntry.value);
      PointerIsFound(d.State(), it, p);
      ReturnEntry(d.hash, d.State(), it, p);
      it := it.(entry := it.nextEntry, nextEntry := if p + 1 < |c| then Some(c[p + 1].key) else None);
      return true, it.entry;
    }

    /** dictNext on a safe iterator */
    method Next() returns (r: Option<K>)
      requires d.Valid() && IterOK(d.State(), it)
      modifies this`it, d`iterators
      ensures d.Valid()
      ensures d.iterators == old(d.iterators) + if old(it) == FreshIter() then 1 else 0
      ensures NextStep(d.State(), old(it), it, r) && it.index >= 0
    {
      hide DictOK, Pending, IterOK, NextStep;
      if it == FreshIter() {
        IterIgnoresCount(d.State(), d.State().(iterators := d.iterators + 1), it);
        d.Retain();
      }
      ghost var start := it;
      var done := false;
      r := None;
      while !done
        invariant d.Valid() && d.iterators == old(d.iterators) + if old(it) == FreshIter() then 1 else 0
        invariant !done ==> IterOK(d.State(), it) && forall k :: Pending(d.State(), it, k) <==> Pending(d.State(), start, k)
        invariant done ==> NextStep(d.State(), start, it, r) && it.index >= 0
        decreases !done, 1 - it.table, |TableAt(d.State(), it.table).buckets| - it.index, if it.entry == None then 0 else 1
      {
        ghost var before := it;
        if it.entry == None {
          done, r := NextBucket();
        } else {
          done, r := FollowPointer();
        }
        if done { NextFrom(d.State(), start, before, it, r); }
      }
    }

    /** dictReleaseIterator on a safe iterator */
    method Release()
      requires d.Valid() && ((it.index == -1 && it.table == 0) || d.iterators > 0)
      modifies d`iterators
      ensures d.Valid()
      ensures d.iterators == old(d.iterators) - if it.index == -1 && it.table == 0 then 0 else 1
    {
      if !(it.index == -1 && it.table == 0) { d.Release(); }
    }
  }

  /** What is pending is bound. */
  lemma PendingIsBound<K(!new), V>(hash: K -> nat, s: State<K, V>, it: Iter<K>, k: K)
    requires DictOK(hash, s) && Pending(s, it, k)
    ensures Lookup(hash, s, k) != None
  {
    hide DictOK, AheadOf;
    TablesApart(hash, s, k);
  }

  /** At the start everything bound is pending and nothing else. */
  lemma AllPending<K(!new), V>(d: Dict<K, V>)
    requires d.Valid()
    ensures IterOK(d.State(), FreshIter())
    ensures forall k :: Pending(d.State(), FreshIter(), k) <==> k in d.Contents
  {
    hide DictOK, Lookup, Pending, IterOK;
    FreshIterOK(d.State());
    forall k ensures Pending(d.State(), FreshIter(), k) <==> k in d.Contents {
      KeyIsBound(d, k);
      if Pending(d.State(), FreshIter(), k) { PendingIsBound(d.hash, d.State(), FreshIter(), k); }
      if k in d.Contents { FreshIterHasAllPending(d.hash, d.State(), k); }
    }
  }

  lemma FreshIterOK<K, V>(s: State<K, V>)
    ensures IterOK(s, FreshIter<K>())
  {
  }

  lemma KeyIsBound<K(!new), V>(d: Dict<K, V>, k: K)
    requires d.Valid()
    ensures DictOK(d.hash, d.State()) && (Lookup(d.hash, d.State(), k) != None <==> k in d.Contents)
  {
  }

  /** The keys taken so far, the one just returned, and what is pending make up the bound keys. */
  ghost predicate Collected<K(!new), V>(s: State<K, V>, it: Iter<K>, bound: set<K>, keys: seq<K>, r: Option<K>)
  {
    && (forall k :: k in keys ==> k in bound)
    && (forall i, j :: 0 <= i < j < |keys| ==> keys[i] != keys[j])
    && (r != None ==> r.value in bound && r.value !in keys)
    && (forall k :: Pending(s, it, k) <==> k in bound && k !in keys && r != Some(k))
    && (r == None ==> forall k :: k in bound ==> k in keys)
  }

  lemma CollectFirst<K(!new), V>(s: State<K, V>, it: Iter<K>, it': Iter<K>, bound: set<K>, r: Option<K>)
    requires NextStep(s, it, it', r) && forall k :: Pending(s, it, k) <==> k in bound
    ensures Collected(s, it', bound, [], r) && IterOK(s, it')
  {
    hide Pending, IterOK;
  }

  lemma CollectNext<K(!new), V>(s: State<K, V>, it: Iter<K>, it': Iter<K>, bound: set<K>, keys: seq<K>, r: Option<K>, r': Option<K>)
    requires Collected(s, it, bound, keys, r) && r != None && NextStep(s, it, it', r')
    ensures Collected(s, it', bound, keys + [r.value], r') && IterOK(s, it')
  {
    hide Pending, IterOK;
  }

  ghost function Left<K>(bound: set<K>, keys: seq<K>): set<K> { bound - (set k | k in keys) }

  lemma OneLess<K(!new), V>(s: State<K, V>, it: Iter<K>, bound: set<K>, keys: seq<K>, r: Option<K>)
    requires Collected(s, it, bound, keys, r) && r != None
    ensures |Left(bound, keys + [r.value])| < |Left(bound, keys)|
  {
    hide Pending;
    assert Left(bound, keys + [r.value]) == Left(bound, keys) - {r.value};
  }

  lemma AllCollected<K(!new), V>(s: State<K, V>, it: Iter<K>, bound: set<K>, keys: seq<K>)
    requires Collected(s, it, bound, keys, None)
    ensures (forall k :: k in keys <==> k in bound) && forall i, j :: 0 <= i < j < |keys| ==> keys[i] != keys[j]
  {
    hide Pending;
  }

  /** A whole iteration over an unchanging dictionary: every key once, and rehash steps may go on afterwards. */
  method Keys<K(==,!new), V>(d: Dict<K, V>) returns (keys: seq<K>)
    requires d.Valid()
    modifies d`iterators
    ensures d.Valid() && d.iterators == old(d.iterators)
    ensures forall k :: k in keys <==> k in d.Contents
    ensures forall i, j :: 0 <= i < j < |keys| ==> keys[i] != keys[j]
  {
    hide DictOK, Lookup, Pending, IterOK, NextStep, Collected, Left;
    var iter := new SafeIterator(d);
    keys := [];
    AllPending(d);
    var r := iter.Next();
    AllPending(d);
    CollectFirst(d.State(), FreshIter(), iter.it, d.Contents.Keys, r);
    while r != None
      invariant d.Valid() && IterOK(d.State(), iter.it) && iter.d == d
      invariant d.iterators == old(d.iterators) + 1 && iter.it.index >= 0
      invariant Collected(d.State(), iter.it, d.Contents.Keys, keys, r)
      decreases |Left(d.Contents.Keys, keys)|
    {
      ghost var it0, s := iter.it, d.State();
      var r0 := r;
      OneLess(s, it0, d.Contents.Keys, keys, r0);
      r := iter.Next();
      CollectNext(s, it0, iter.it, d.Contents.Keys, keys, r0, r);
      keys := keys + [r0.value];
    }
    AllCollected(d.State(), iter.it, d.Contents.Keys, keys);
    iter.Release();
  }

  /** A step from an equivalent position. */
  lemma NextFrom<K(!new), V>(s: State<K, V>, start: Iter<K>, it: Iter<K>, it': Iter<K>, r: Option<K>)
    requires NextStep(s, it, it', r) && forall k :: Pending(s, it, k) <==> Pending(s, start, k)
    ensures NextStep(s, start, it', r)
  {
    hide Pending, IterOK;
  }

  /** One turn of dictNext's loop that returns nothing. */
  ghost predicate Skipped<K(!new), V>(s: State<K, V>, it: Iter<K>, it': Iter<K>)
  {
    && IterOK(s, it')
    && (forall k :: Pending(s, it', k) <==> Pending(s, it, k))
    && it'.entry == None
    && it.table <= it'.table <= 1
    && (it'.table == it.table ==> it.index <= it'.index && (it'.index == it.index ==> it.entry != None))
    && it'.index < |TableAt(s, it'.table).buckets|
  }

  lemma PointerIsFound<K(!new), V>(s: State<K, V>, it: Iter<K>, p: nat)
    requires IterOK(s, it) && it.entry != None && it.nextEntry != None
    requires var c := TableAt(s, it.table).buckets[it.index];
             p <= |c| && (p == |c| ==> ChainFind(c, it.nextEntry.value) == None)
    ensures p < |TableAt(s, it.table).buckets[it.index]|
  {
    var t := TableAt(s, it.table);
    var c := t.buckets[it.index];
    var q :| At(t, it.index, q, it.nextEntry.value);
    FoundSomewhere(c, q);
  }

  lemma {:induction false} FoundSomewhere<K, V>(c: Chain<K, V>, q: nat)
    requires q < |c|
    ensures ChainFind(c, c[q].key) != None
    decreases q
  {
    if q != 0 { FoundSomewhere(c[1..], q - 1); }
  }

  lemma IterIgnoresCount<K(!new), V>(s: State<K, V>, s': State<K, V>, it: Iter<K>)
    requires s' == s.(iterators := s'.iterators)
    ensures IterOK(s, it) ==> IterOK(s', it)
    ensures forall k :: Pending(s', it, k) <==> Pending(s, it, k)
  {
  }

  lemma SecondIsNotEmpty<K(!new), V>(d: Dict<K, V>)
    requires d.Valid() && d.IsRehashing()
    ensures |d.ht1.buckets| > 0
  {
  }

  // ---------------------------------------------------------------------
  // What the client may do in between

  /** Unlinking the entry just returned leaves the place of every other key relative to the iterator. */
  lemma DeleteKeepsPending<K(!new), V>(s: State<K, V>, s': State<K, V>, it: Iter<K>, key: K)
    requires IterOK(s, it) && it.entry == Some(key) && Removed(s, s', key)
    ensures IterOK(s', it)
    ensures forall k :: k != key ==> (Pending(s', it, k) <==> Pending(s, it, k))
  {
    hide ChainsRemoved;
    PlacesAfterRemoval(s.ht0, s'.ht0, key, it);
    PlacesAfterRemoval(s.ht1, s'.ht1, key, it);
    assert |TableAt(s', it.table).buckets| == |TableAt(s, it.table).buckets| by {
      ChainsRemovedSize(s.ht0.buckets, s'.ht0.buckets, key);
      ChainsRemovedSize(s.ht1.buckets, s'.ht1.buckets, key);
    }
  }

  lemma ChainsRemovedSize<K, V>(b: seq<Chain<K, V>>, b': seq<Chain<K, V>>, key: K)
    requires ChainsRemoved(b, b', key)
    ensures |b'| == |b|
  {
  }

  /** The place of an entry after another one has been unlinked, and back. */
  function NewPlace(j: int, q: int): int { if q < j then q else q - 1 }

  lemma PlacesAfterRemoval<K(!new), V>(t: Table<K, V>, t': Table<K, V>, key: K, it: Iter<K>)
    requires ChainsRemoved(t.buckets, t'.buckets, key) && it.nextEntry != Some(key)
    ensures forall k :: k != key ==> (InTable(t', k) <==> InTable(t, k))
    ensures forall k :: k != key ==> (AheadInTable(t', it, k) <==> AheadInTable(t, it, k))
    ensures it.nextEntry != None && (exists p :: At(t, it.index, p, it.nextEntry.value)) ==>
              exists p :: At(t', it.index, p, it.nextEntry.value)
  {
    forall k, i, q | At(t, i, q, k) && k != key
      ensures exists q' :: At(t', i, q', k) && (AheadOf(t, it, i, q) ==> AheadOf(t', it, i, q'))
    {
      RemovalForward(t, t', key, it, k, i, q);
    }
    forall k, i, q' | At(t', i, q', k)
      ensures exists q :: At(t, i, q, k) && (AheadOf(t', it, i, q') ==> AheadOf(t, it, i, q))
    {
      RemovalBackward(t, t', key, it, k, i, q');
    }
  }

  lemma RemovalForward<K(!new), V>(t: Table<K, V>, t': Table<K, V>, key: K, it: Iter<K>, k: K, i: int, q: int)
    requires ChainsRemoved(t.buckets, t'.buckets, key) && At(t, i, q, k) && k != key && it.nextEntry != Some(key)
    ensures exists q' :: At(t', i, q', k) && (AheadOf(t, it, i, q) ==> AheadOf(t', it, i, q'))
  {
    hide ChainsRemoved;
    var j := WhereRemoved(t.buckets, t'.buckets, key, i);
    var q' := NewPlace(j, q);
    assert At(t', i, q', k);
    if AheadOf(t, it, i, q) && i <= it.index {
      var p :| p <= q && At(t, i, p, it.nextEntry.value);
      assert At(t', i, NewPlace(j, p), it.nextEntry.value);
      assert AheadOf(t', it, i, q');
    }
  }

  /** The place j of the entry that has left bucket i, or the end: every other entry has moved to its new place. */
  lemma WhereRemoved<K, V>(b: seq<Chain<K, V>>, b': seq<Chain<K, V>>, key: K, i: int) returns (j: nat)
    requires ChainsRemoved(b, b', key) && 0 <= i < |b|
    ensures |b'| == |b| && (j < |b[i]| ==> b[i][j].key == key)
    ensures forall q :: 0 <= q < |b[i]| && q != j ==> 0 <= NewPlace(j, q) < |b'[i]| && b'[i][NewPlace(j, q)] == b[i][q]
  {
    hide Unlink;
    var c, c' := b[i], b'[i];
    if c' == c {
      j := |c|;
    } else {
      j :| j < |c| && c[j].key == key && c' == Unlink(c, j);
      UnlinkPlaces(c, j);
    }
  }

  lemma UnlinkPlaces<K, V>(c: Chain<K, V>, j: nat)
    requires j < |c|
    ensures forall q :: 0 <= q < |c| && q != j ==> 0 <= NewPlace(j, q) < |Unlink(c, j)| && Unlink(c, j)[NewPlace(j, q)] == c[q]
  {
  }

  lemma RemovalBackward<K(!new), V>(t: Table<K, V>, t': Table<K, V>, key: K, it: Iter<K>, k: K, i: int, q': int)
    requires ChainsRemoved(t.buckets, t'.buckets, key) && At(t', i, q', k)
    ensures exists q :: At(t, i, q, k) && (AheadOf(t', it, i, q') ==> AheadOf(t, it, i, q))
  {
    var c, c' := t.buckets[i], t'.buckets[i];
    var j := if c' == c then |c| else var j :| 0 <= j < |c| && c[j].key == key && c' == Unlink(c, j); j;
    var q := if q' < j then q' else q' + 1;
    assert At(t, i, q, k);
    if AheadOf(t', it, i, q') && i <= it.index {
      var p' :| p' <= q' && At(t', i, p', it.nextEntry.value);
      var p := if p' < j then p' else p' + 1;
      assert At(t, i, p, it.nextEntry.value);
      assert AheadOf(t, it, i, q);
    }
  }

  /** Linking a new entry at a chain head changes nothing for the keys that were there. */
  lemma InsertKeepsPlaces<K(!new), V>(t: Table<K, V>, t': Table<K, V>, e: Entry<K, V>, it: Iter<K>)
    requires ChainsInserted(t.buckets, t'.buckets, e)
    ensures forall k :: InTable(t, k) ==> InTable(t', k)
    ensures forall k :: AheadInTable(t, it, k) ==> AheadInTable(t', it, k)
    ensures it.nextEntry != None && (exists p :: At(t, it.index, p, it.nextEntry.value)) ==>
              exists p :: At(t', it.index, p, it.nextEntry.value)
  {
    forall k, i, q | At(t, i, q, k)
      ensures exists q' :: At(t', i, q', k) && (AheadOf(t, it, i, q) ==> AheadOf(t', it, i, q'))
    {
      var shift := |t'.buckets[i]| - |t.buckets[i]|;
      assert At(t', i, q + shift, k);
      if AheadOf(t, it, i, q) && i <= it.index {
        var p :| p <= q && At(t, i, p, it.nextEntry.value);
        assert At(t', i, p + shift, it.nextEntry.value);
        assert AheadOf(t', it, i, q + shift);
      }
    }
  }

  /** ... and an entry that was behind the iterator stays behind. */
  lemma InsertKeepsBehind<K(!new), V>(hash: K -> nat, t: Table<K, V>, t': Table<K, V>, e: Entry<K, V>, it: Iter<K>, k: K)
    requires TableOK(hash, t') && ChainsInserted(t.buckets, t'.buckets, e) && InTable(t, k)
    requires it.entry != None && it.nextEntry != None ==> exists p :: At(t, it.index, p, it.nextEntry.value)
    ensures AheadInTable(t', it, k) ==> AheadInTable(t, it, k)
  {
    hide TableOK;
    if AheadInTable(t', it, k) {
      var i', q' :| At(t', i', q', k) && AheadOf(t', it, i', q');
      var i, q :| At(t, i, q, k);
      var shift := |t'.buckets[i]| - |t.buckets[i]|;
      assert At(t', i, q + shift, k);
      OnePlace(hash, t', k, i, q + shift, i', q');
      if i <= it.index {
        var p' :| p' <= q' && At(t', i, p', it.nextEntry.value);
        var p :| At(t, i, p, it.nextEntry.value);
        assert At(t', i, p + shift, it.nextEntry.value);
        OnePlace(hash, t', it.nextEntry.value, i, p + shift, i, p');
        assert p <= q;
      }
      assert AheadOf(t, it, i, q);
    }
  }

  lemma AddKeepsPending<K(!new), V>(hash: K -> nat, s: State<K, V>, s': State<K, V>, it: Iter<K>, e: Entry<K, V>, k: K)
    requires DictOK(hash, s) && DictOK(hash, s') && IterOK(s, it) && Inserted(s, s', e)
    requires Lookup(hash, s, k) != None
    ensures IterOK(s', it) && Lookup(hash, s', k) != None
    ensures Pending(s', it, k) <==> Pending(s, it, k)
  {
    hide TableOK, Apart, Lookup;
    TablesApart(hash, s, k);
    TablesApart(hash, s', k);
    InsertKeepsPlaces(s.ht0, s'.ht0, e, it);
    if s.IsRehashing() { InsertKeepsPlaces(s.ht1, s'.ht1, e, it); }
    if InTable(s.ht1, k) { assert s.IsRehashing(); }
    var t, t' := TableAt(s, it.table), TableAt(s', it.table);
    if InTable(t, k) {
      InsertKeepsBehind(hash, t, t', e, it, k);
    } else {
      assert InTable(TableAt(s', 1 - it.table), k);
      NotHereNotAhead(t', it, k);
      NotHereNotAhead(t, it, k);
    }
  }

  lemma NotHereNotAhead<K(!new), V>(t: Table<K, V>, it: Iter<K>, k: K)
    requires !InTable(t, k)
    ensures !AheadInTable(t, it, k)
  {
  }

  // ---------------------------------------------------------------------
  // Whole iterations

  datatype Op<K, V> =
    | NextOp(r: Option<K>)
    | AddOp(e: Entry<K, V>)
    | DeleteOp(key: K)
    | FindOp

  datatype Config<K, V> = Config(s: State<K, V>, it: Iter<K>)

  /** One step of a client that holds a safe iterator; between calls of dictNext, `iterators` is positive. */
  ghost predicate Step<K(!new), V>(hash: K -> nat, c: Config<K, V>, op: Op<K, V>, c': Config<K, V>)
  {
    && DictOK(hash, c'.s)
    && match op
       case NextOp(r) =>
         && c'.s == c.s.(iterators := c'.s.iterators) && c'.s.iterators > 0
         && NextStep(c'.s, c.it, c'.it, r)
       case AddOp(e) => c.s.iterators > 0 && Inserted(c.s, c'.s, e) && c'.it == c.it
       case DeleteOp(key) => c.s.iterators > 0 && c.it.entry == Some(key) && Removed(c.s, c'.s, key) && c'.it == c.it
       case FindOp => c.s.iterators > 0 && c' == c
  }

  ghost predicate Iteration<K(!new), V>(hash: K -> nat, cs: seq<Config<K, V>>, ops: seq<Op<K, V>>)
  {
    && |cs| == |ops| + 1
    && DictOK(hash, cs[0].s) && cs[0].it == FreshIter()
    && forall i :: 0 <= i < |ops| ==> Step(hash, cs[i], ops[i], cs[i + 1])
  }

  /** How often dictNext returned k in the first n steps. */
  function Returned<K(==), V(==)>(ops: seq<Op<K, V>>, n: nat, k: K): nat
    requires n <= |ops|
  {
    if n == 0 then 0 else Returned(ops, n - 1, k) + if ops[n - 1] == NextOp(Some(k)) then 1 else 0
  }

  lemma FreshIterHasAllPending<K(!new), V>(hash: K -> nat, s: State<K, V>, k: K)
    requires DictOK(hash, s) && Lookup(hash, s, k) != None
    ensures IterOK(s, FreshIter()) && Pending(s, FreshIter(), k)
  {
    hide TableOK, Apart, Lookup;
    TablesApart(hash, s, k);
    if InTable(s.ht0, k) {
      var i, q :| At(s.ht0, i, q, k);
      assert AheadOf(s.ht0, FreshIter(), i, q);
    } else {
      var i, q :| At(s.ht1, i, q, k);
    }
  }

  /** Conservation: an entry that stays is either still pending or has been returned, and only once. */
  lemma {:induction false} PendingOrReturned<K(!new), V>(
      hash: K -> nat, cs: seq<Config<K, V>>, ops: seq<Op<K, V>>, k: K, n: nat)
    requires Iteration(hash, cs, ops) && n <= |ops|
    requires Lookup(hash, cs[0].s, k) != None && DeleteOp(k) !in ops
    ensures DictOK(hash, cs[n].s) && IterOK(cs[n].s, cs[n].it) && Lookup(hash, cs[n].s, k) != None
    ensures Returned(ops, n, k) + (if Pending(cs[n].s, cs[n].it, k) then 1 else 0) == 1
    decreases n
  {
    hide DictOK, Lookup, Pending, IterOK, Inserted, Removed;
    if n == 0 {
      FreshIterHasAllPending(hash, cs[0].s, k);
    } else {
      PendingOrReturned(hash, cs, ops, k, n - 1);
      var c, op, c' := cs[n - 1], ops[n - 1], cs[n];
      assert Step(hash, cs[n - 1], ops[n - 1], cs[n - 1 + 1]);
      match op
      case NextOp(r) =>
        IterIgnoresCount(c.s, c'.s, c.it);
        LookupIgnoresCount(hash, c.s, c'.s, k);
      case AddOp(e) =>
        AddKeepsPending(hash, c.s, c'.s, c.it, e, k);
      case DeleteOp(key) =>
        assert ops[n - 1] in ops;
        DeleteKeepsPending(c.s, c'.s, c.it, key);
        DeleteKeepsKey(hash, c.s, c'.s, c.it, key, k);
      case FindOp =>
    }
  }

  lemma LookupIgnoresCount<K(!new), V>(hash: K -> nat, s: State<K, V>, s': State<K, V>, k: K)
    requires s' == s.(iterators := s'.iterators) && DictOK(hash, s)
    ensures DictOK(hash, s') && Lookup(hash, s', k) == Lookup(hash, s, k)
  {
  }

  lemma DeleteKeepsKey<K(!new), V>(hash: K -> nat, s: State<K, V>, s': State<K, V>, it: Iter<K>, key: K, k: K)
    requires DictOK(hash, s) && DictOK(hash, s') && Removed(s, s', key) && k != key
    requires IterOK(s, it) && it.entry == Some(key)
    requires Lookup(hash, s, k) != None
    ensures Lookup(hash, s', k) != None
  {
    hide DictOK, Lookup, ChainsRemoved;
    TablesApart(hash, s, k);
    TablesApart(hash, s', k);
    PlacesAfterRemoval(s.ht0, s'.ht0, key, it);
    PlacesAfterRemoval(s.ht1, s'.ht1, key, it);
  }

  /**
    A safe iterator returns every entry that was there at its start and is never deleted
    exactly once by the time dictNext returns NULL, whatever is added, looked up or (as the
    entry just returned) deleted meanwhile.
   */
  lemma SafeIterationExactlyOnce<K(!new), V>(
      hash: K -> nat, cs: seq<Config<K, V>>, ops: seq<Op<K, V>>, k: K)
    requires Iteration(hash, cs, ops)
    requires Lookup(hash, cs[0].s, k) != None && DeleteOp(k) !in ops
    ensures Returned(ops, |ops|, k) <= 1
    ensures |ops| > 0 && ops[|ops| - 1] == NextOp(None) ==> Returned(ops, |ops|, k) == 1
  {
    hide DictOK, Lookup, Pending, IterOK;
    var n := |ops|;
    PendingOrReturned(hash, cs, ops, k, n);
    if n > 0 && ops[n - 1] == NextOp(None) {
      PendingOrReturned(hash, cs, ops, k, n - 1);
      assert Step(hash, cs[n - 1], ops[n - 1], cs[n - 1 + 1]);
    }
  }
}
