/**
  The two chained hash tables of dict.c as values: chains, tables, what a
  lookup sees, and how moving, inserting and unlinking entries changes it.
 */
module DictTable {
  import opened Basics
  import opened Words

  datatype Entry<K, V> = Entry(key: K, val: V)

  /** A chain lists the entries of one bucket from the head on. */
  type Chain<K, V> = seq<Entry<K, V>>

  /** dictht: no buckets at all when `table` is NULL. */
  datatype Table<K, V> = Table(buckets: seq<Chain<K, V>>, used: nat)

  /** struct dict, without the type and privdata pointers. */
  datatype State<K, V> = State(ht0: Table<K, V>, ht1: Table<K, V>, rehashidx: int, iterators: nat)
  {
    predicate IsRehashing() { rehashidx != -1 }

    /** The size of the table dictScan calls t0. */
    function SmallSize(): nat
    {
      if IsRehashing() && |ht1.buckets| < |ht0.buckets| then |ht1.buckets| else |ht0.buckets|
    }

    function LargeSize(): nat
    {
      if IsRehashing() && |ht1.buckets| > |ht0.buckets| then |ht1.buckets| else |ht0.buckets|
    }
  }

  // ---------------------------------------------------------------------
  // Sizes and indices

  function Log2(size: nat): nat
  {
    if size <= 1 then 0 else 1 + Log2(size / 2)
  }

  predicate IsPow2(size: nat) { size == Pow2(Log2(size)) }

  lemma {:induction false} Log2Pow2(k: nat)
    ensures Log2(Pow2(k)) == k && IsPow2(Pow2(k))
  {
    if k != 0 { Log2Pow2(k - 1); }
  }

  lemma {:induction false} Log2Mono(a: nat, b: nat)
    requires a <= b
    ensures Log2(a) <= Log2(b)
    decreases b
  {
    if a > 1 { Log2Mono(a / 2, b / 2); }
  }

  /** The bucket of hash h in a table of `size` buckets. */
  function Index(size: nat, h: nat): (i: nat)
    requires size > 0 && IsPow2(size)
    ensures i < size
  {
    Lo(h, Log2(size))
  }

  // ---------------------------------------------------------------------
  // Lookups

  function ChainFind<K(==), V>(c: Chain<K, V>, k: K): Option<V>
  {
    if c == [] then None
    else if c[0].key == k then Some(c[0].val)
    else ChainFind(c[1..], k)
  }

  ghost predicate Distinct<K, V>(c: Chain<K, V>)
  {
    forall i, j :: 0 <= i < j < |c| ==> c[i].key != c[j].key
  }

  function Total<K, V>(b: seq<Chain<K, V>>): nat
  {
    if b == [] then 0 else |b[0]| + Total(b[1..])
  }

  ghost predicate ChainOK<K(!new), V>(hash: K -> nat, size: nat, i: nat, c: Chain<K, V>)
    requires size > 0 && IsPow2(size)
  {
    && Distinct(c)
    && forall j :: 0 <= j < |c| ==> Index(size, hash(c[j].key)) == i
  }

  /** Power-of-two size, every entry in its own bucket, `used` exact. */
  ghost predicate TableOK<K(!new), V>(hash: K -> nat, t: Table<K, V>)
  {
    && t.used == Total(t.buckets)
    && (|t.buckets| > 0 ==> IsPow2(|t.buckets|)
                            && forall i :: 0 <= i < |t.buckets| ==> ChainOK(hash, |t.buckets|, i, t.buckets[i]))
  }

  ghost function TableFind<K(!new), V>(hash: K -> nat, t: Table<K, V>, k: K): Option<V>
    requires TableOK(hash, t)
  {
    if |t.buckets| == 0 then None else ChainFind(t.buckets[Index(|t.buckets|, hash(k))], k)
  }

  /** No key is in both tables. */
  ghost predicate Apart<K(!new), V>(hash: K -> nat, t0: Table<K, V>, t1: Table<K, V>)
    requires TableOK(hash, t0) && TableOK(hash, t1)
  {
    forall k :: TableFind(hash, t0, k) == None || TableFind(hash, t1, k) == None
  }

  /** The representation invariant of struct dict. */
  ghost predicate DictOK<K(!new), V>(hash: K -> nat, s: State<K, V>)
  {
    && TableOK(hash, s.ht0) && TableOK(hash, s.ht1)
    && Apart(hash, s.ht0, s.ht1)
    && (s.rehashidx == -1 ==> s.ht1 == Table([], 0))
    && (s.rehashidx != -1 ==>
          && 0 <= s.rehashidx <= |s.ht0.buckets|
          && |s.ht0.buckets| > 0 && |s.ht1.buckets| > 0
          && forall i :: 0 <= i < s.rehashidx ==> s.ht0.buckets[i] == [])
  }

  /** What dictFind sees: ht[0] first, then ht[1]. */
  ghost function Lookup<K(!new), V>(hash: K -> nat, s: State<K, V>, k: K): Option<V>
    requires DictOK(hash, s)
  {
    var r := TableFind(hash, s.ht0, k);
    if r != None then r else TableFind(hash, s.ht1, k)
  }

  // ---------------------------------------------------------------------
  // Chains

  lemma {:induction false} ChainFindAt<K, V>(c: Chain<K, V>, j: nat)
    requires Distinct(c) && j < |c|
    ensures ChainFind(c, c[j].key) == Some(c[j].val)
    decreases j
  {
    if j != 0 {
      assert c[0].key != c[j].key;
      ChainFindAt(c[1..], j - 1);
    }
  }

  lemma {:induction false} ChainFindIn<K, V>(c: Chain<K, V>, k: K) returns (j: nat)
    requires ChainFind(c, k) != None
    ensures j < |c| && c[j].key == k && ChainFind(c, k) == Some(c[j].val)
  {
    if c[0].key == k {
      j := 0;
    } else {
      j := ChainFindIn(c[1..], k);
      j := j + 1;
    }
  }

  lemma {:induction false} ChainFindNone<K, V>(c: Chain<K, V>, k: K)
    requires forall j :: 0 <= j < |c| ==> c[j].key != k
    ensures ChainFind(c, k) == None
  {
    if c != [] {
      assert c[0].key != k;
      ChainFindNone(c[1..], k);
    }
  }

  lemma {:induction false} ChainFindAppend<K, V>(a: Chain<K, V>, b: Chain<K, V>, k: K)
    ensures ChainFind(a + b, k) == if ChainFind(a, k) != None then ChainFind(a, k) else ChainFind(b, k)
  {
    if a == [] {
      assert a + b == b;
    } else {
      assert (a + b)[1..] == a[1..] + b;
      ChainFindAppend(a[1..], b, k);
    }
  }

  /** The chain without its j-th entry, as the unlinking code leaves it. */
  function Unlink<K, V>(c: Chain<K, V>, j: nat): (r: Chain<K, V>)
    requires j < |c|
    ensures |r| == |c| - 1
  {
    c[..j] + c[j + 1..]
  }

  lemma {:induction false} UnlinkFind<K, V>(c: Chain<K, V>, j: nat, k: K)
    requires Distinct(c) && j < |c|
    ensures ChainFind(Unlink(c, j), k) == if k == c[j].key then None else ChainFind(c, k)
    decreases j
  {
    var r := Unlink(c, j);
    if j == 0 {
      assert r == c[1..];
      if k == c[0].key { ChainFindNone(r, k); }
    } else {
      assert r[0] == c[0] && r[1..] == Unlink(c[1..], j - 1);
      assert c[0].key != c[j].key;
      UnlinkFind(c[1..], j - 1, k);
    }
  }

  /** The chain with a new value in its j-th entry. */
  function SetVal<K, V>(c: Chain<K, V>, j: nat, v: V): Chain<K, V>
    requires j < |c|
  {
    c[j := Entry(c[j].key, v)]
  }

  lemma {:induction false} SetValFind<K, V>(c: Chain<K, V>, j: nat, v: V, k: K)
    requires Distinct(c) && j < |c|
    ensures ChainFind(SetVal(c, j, v), k) == if k == c[j].key then Some(v) else ChainFind(c, k)
    decreases j
  {
    var r := SetVal(c, j, v);
    if j == 0 {
      assert r[1..] == c[1..];
    } else {
      assert r[1..] == SetVal(c[1..], j - 1, v);
      assert c[0].key != c[j].key;
      SetValFind(c[1..], j - 1, v, k);
    }
  }

  // ---------------------------------------------------------------------
  // Tables

  lemma {:induction false} TotalUpdate<K, V>(b: seq<Chain<K, V>>, i: nat, c: Chain<K, V>)
    requires i < |b|
    ensures Total(b[i := c]) == Total(b) - |b[i]| + |c|
    ensures Total(b) >= |b[i]|
  {
    if i == 0 {
      assert b[i := c][1..] == b[1..];
    } else {
      assert b[i := c][1..] == b[1..][i - 1 := c];
      TotalUpdate(b[1..], i - 1, c);
    }
  }

  lemma {:induction false} TotalPositive<K, V>(b: seq<Chain<K, V>>) returns (i: nat)
    requires Total(b) > 0
    ensures i < |b| && b[i] != []
  {
    if b[0] != [] {
      i := 0;
    } else {
      i := TotalPositive(b[1..]);
      i := i + 1;
    }
  }

  lemma {:induction false} TotalZero<K, V>(b: seq<Chain<K, V>>, i: nat)
    requires Total(b) == 0 && i < |b|
    ensures b[i] == []
  {
    TotalUpdate(b, i, []);
  }

  lemma {:induction false} TotalOfEmpty<K, V>(b: seq<Chain<K, V>>)
    requires forall i :: 0 <= i < |b| ==> b[i] == []
    ensures Total(b) == 0
  {
    if b != [] { TotalOfEmpty(b[1..]); }
  }

  /** Replacing the chain of one bucket: what lookups see afterwards. */
  lemma BucketUpdate<K(!new), V>(hash: K -> nat, t: Table<K, V>, i: nat, c: Chain<K, V>, t': Table<K, V>)
    requires TableOK(hash, t) && i < |t.buckets| && ChainOK(hash, |t.buckets|, i, c)
    requires t'.buckets == t.buckets[i := c] && t'.used == t.used - |t.buckets[i]| + |c|
    ensures TableOK(hash, t')
    ensures forall k :: TableFind(hash, t', k) ==
                        if Index(|t.buckets|, hash(k)) == i then ChainFind(c, k) else TableFind(hash, t, k)
  {
    hide Total, Log2, Index, ChainFind;
    TotalUpdate(t.buckets, i, c);
  }

  /** An entry found in a table sits in its own bucket. */
  lemma FindElsewhere<K(!new), V>(hash: K -> nat, t: Table<K, V>, i: nat, k: K)
    requires TableOK(hash, t) && i < |t.buckets| && Index(|t.buckets|, hash(k)) != i
    ensures ChainFind(t.buckets[i], k) == None
  {
    var c := t.buckets[i];
    forall j | 0 <= j < |c| ensures c[j].key != k {
      assert ChainOK(hash, |t.buckets|, i, c);
    }
    ChainFindNone(c, k);
  }

  /** Linking a new entry at the head of its bucket. */
  function Push<K, V>(hash: K -> nat, t: Table<K, V>, e: Entry<K, V>): Table<K, V>
    requires |t.buckets| > 0 && IsPow2(|t.buckets|)
  {
    var i := Index(|t.buckets|, hash(e.key));
    Table(t.buckets[i := [e] + t.buckets[i]], t.used + 1)
  }

  lemma PushFinds<K(!new), V>(hash: K -> nat, t: Table<K, V>, e: Entry<K, V>)
    requires TableOK(hash, t) && |t.buckets| > 0 && TableFind(hash, t, e.key) == None
    ensures TableOK(hash, Push(hash, t, e))
    ensures forall k :: TableFind(hash, Push(hash, t, e), k) ==
                        if k == e.key then Some(e.val) else TableFind(hash, t, k)
  {
    var i := Index(|t.buckets|, hash(e.key));
    var c := [e] + t.buckets[i];
    var old_ := t.buckets[i];
    assert ChainOK(hash, |t.buckets|, i, old_);
    forall j | 0 <= j < |old_| ensures old_[j].key != e.key {
      ChainFindAt(old_, j);
    }
    assert ChainOK(hash, |t.buckets|, i, c);
    BucketUpdate(hash, t, i, c, Push(hash, t, e));
    assert c[1..] == old_;
  }

  /** The inner loop of dictRehash: every entry of a chain goes to the head of its new bucket. */
  function MoveChain<K, V>(hash: K -> nat, t: Table<K, V>, c: Chain<K, V>): (r: Table<K, V>)
    requires |t.buckets| > 0 && IsPow2(|t.buckets|)
    ensures |r.buckets| == |t.buckets| && r.used == t.used + |c|
    decreases |c|
  {
    if c == [] then t else
      var last := |c| - 1;
      Push(hash, MoveChain(hash, t, c[..last]), c[last])
  }

  lemma {:induction false} MoveChainFinds<K(!new), V>(hash: K -> nat, t: Table<K, V>, c: Chain<K, V>)
    requires TableOK(hash, t) && |t.buckets| > 0 && Distinct(c)
    requires forall j :: 0 <= j < |c| ==> TableFind(hash, t, c[j].key) == None
    ensures TableOK(hash, MoveChain(hash, t, c))
    ensures forall k :: TableFind(hash, MoveChain(hash, t, c), k) ==
                        if ChainFind(c, k) != None then ChainFind(c, k) else TableFind(hash, t, k)
    decreases |c|
  {
    assert IsPow2(|t.buckets|);
    hide TableOK, TableFind, Push, Log2, IsPow2;
    if c != [] {
      var last := |c| - 1;
      var front, e := c[..last], c[last];
      assert c == front + [e];
      forall j | 0 <= j < |front| ensures TableFind(hash, t, front[j].key) == None {
        assert front[j] == c[j];
      }
      MoveChainFinds(hash, t, front);
      forall j | 0 <= j < |front| ensures front[j].key != e.key { }
      ChainFindNone(front, e.key);
      PushFinds(hash, MoveChain(hash, t, front), e);
      forall k ensures ChainFind(c, k) ==
                       if ChainFind(front, k) != None then ChainFind(front, k)
                       else if k == e.key then Some(e.val) else None {
        ChainFindAppend(front, [e], k);
        assert [e][1..] == [];
      }
    }
  }

  // ---------------------------------------------------------------------
  // Whole-dictionary steps

  /** Moving bucket r of ht[0] over to ht[1] changes no binding. */
  lemma MoveBucket<K(!new), V>(hash: K -> nat, s: State<K, V>, r: nat, s': State<K, V>)
    requires DictOK(hash, s) && s.IsRehashing() && r < |s.ht0.buckets|
    requires forall i :: 0 <= i < r ==> s.ht0.buckets[i] == []
    requires var c := s.ht0.buckets[r];
             && s'.ht0.buckets == s.ht0.buckets[r := []] && s'.ht0.used == s.ht0.used - |c|
             && s'.ht1 == MoveChain(hash, s.ht1, c) && s'.rehashidx == r + 1
    ensures DictOK(hash, s')
    ensures forall k :: Lookup(hash, s', k) == Lookup(hash, s, k)
  {
    hide Total, Log2, Index, MoveChain;
    var c := s.ht0.buckets[r];
    assert ChainOK(hash, |s.ht0.buckets|, r, c);
    forall j | 0 <= j < |c| ensures TableFind(hash, s.ht1, c[j].key) == None {
      ChainFindAt(c, j);
      assert TableFind(hash, s.ht0, c[j].key) != None;
    }
    MoveChainFinds(hash, s.ht1, c);
    BucketUpdate(hash, s.ht0, r, [], s'.ht0);
    forall k ensures Index(|s.ht0.buckets|, hash(k)) != r ==> ChainFind(c, k) == None {
      if Index(|s.ht0.buckets|, hash(k)) != r { FindElsewhere(hash, s.ht0, r, k); }
    }
  }

  /** Dropping an empty ht[0] and letting ht[1] take its place. */
  lemma SwapTables<K(!new), V>(hash: K -> nat, s: State<K, V>, s': State<K, V>)
    requires DictOK(hash, s) && s.IsRehashing() && s.ht0.used == 0
    requires s'.ht0 == s.ht1 && s'.ht1 == Table([], 0) && s'.rehashidx == -1
    ensures DictOK(hash, s')
    ensures forall k :: Lookup(hash, s', k) == Lookup(hash, s, k)
  {
    hide Log2, Index;
    forall k ensures TableFind(hash, s.ht0, k) == None {
      TotalZero(s.ht0.buckets, Index(|s.ht0.buckets|, hash(k)));
    }
  }

  /** Only skipping empty buckets. */
  lemma SkipBuckets<K(!new), V>(hash: K -> nat, s: State<K, V>, s': State<K, V>)
    requires DictOK(hash, s) && s.IsRehashing()
    requires s'.ht0 == s.ht0 && s'.ht1 == s.ht1 && s.rehashidx <= s'.rehashidx <= |s.ht0.buckets|
    requires forall i :: 0 <= i < s'.rehashidx ==> s.ht0.buckets[i] == []
    ensures DictOK(hash, s')
    ensures forall k :: Lookup(hash, s', k) == Lookup(hash, s, k)
  {
  }

  /** A new, empty table of a given power-of-two size. */
  function EmptyTable<K, V>(size: nat): (t: Table<K, V>)
    ensures |t.buckets| == size && t.used == 0
  {
    Table(seq(size, _ => []), 0)
  }

  lemma EmptyTableOK<K(!new), V>(hash: K -> nat, size: nat)
    requires size > 0 && IsPow2(size)
    ensures TableOK(hash, EmptyTable<K, V>(size))
    ensures forall k :: TableFind(hash, EmptyTable<K, V>(size), k) == None
  {
    hide Log2, Index, IsPow2;
    TotalOfEmpty(EmptyTable<K, V>(size).buckets);
  }

  /** A first table, or a second one next to a first. */
  lemma ExpandWith<K(!new), V>(hash: K -> nat, s: State<K, V>, size: nat, s': State<K, V>)
    requires DictOK(hash, s) && !s.IsRehashing() && size > 0 && IsPow2(size)
    requires if |s.ht0.buckets| == 0
             then s' == s.(ht0 := EmptyTable(size))
             else s' == s.(ht1 := EmptyTable(size), rehashidx := 0)
    ensures DictOK(hash, s') && s'.ht0.used == s.ht0.used
    ensures forall k :: Lookup(hash, s', k) == Lookup(hash, s, k)
  {
    assert |s.ht0.buckets| == 0 ==> s.ht0.used == 0;
    hide Log2, Index, IsPow2, Total, ChainFind;
    EmptyTableOK<K, V>(hash, size);
  }

  /** The table an insertion goes to. */
  lemma InsertEntry<K(!new), V>(hash: K -> nat, s: State<K, V>, e: Entry<K, V>, s': State<K, V>)
    requires DictOK(hash, s) && |s.ht0.buckets| > 0 && Lookup(hash, s, e.key) == None
    requires s'.rehashidx == s.rehashidx
    requires if s.IsRehashing() then s'.ht0 == s.ht0 && s'.ht1 == Push(hash, s.ht1, e)
             else s'.ht0 == Push(hash, s.ht0, e) && s'.ht1 == s.ht1
    ensures DictOK(hash, s')
    ensures forall k :: Lookup(hash, s', k) == if k == e.key then Some(e.val) else Lookup(hash, s, k)
  {
    hide Log2, Index, Total;
    if s.IsRehashing() { PushFinds(hash, s.ht1, e); } else { PushFinds(hash, s.ht0, e); }
  }

  /** Changing one chain of one table so that only key k0 is affected. */
  lemma EditChain<K(!new), V>(hash: K -> nat, s: State<K, V>, inFirst: bool, i: nat, c: Chain<K, V>,
                              k0: K, r: Option<V>, s': State<K, V>)
    requires DictOK(hash, s) && s'.rehashidx == s.rehashidx
    requires var t := if inFirst then s.ht0 else s.ht1;
             var t' := if inFirst then s'.ht0 else s'.ht1;
             && i < |t.buckets| && i == Index(|t.buckets|, hash(k0))
             && ChainOK(hash, |t.buckets|, i, c)
             && ChainFind(t.buckets[i], k0) != None
             && t'.buckets == t.buckets[i := c] && t'.used == t.used - |t.buckets[i]| + |c|
             && forall k :: ChainFind(c, k) == if k == k0 then r else ChainFind(t.buckets[i], k)
    requires if inFirst then s'.ht1 == s.ht1 else s'.ht0 == s.ht0
    ensures DictOK(hash, s')
    ensures forall k :: Lookup(hash, s', k) == if k == k0 then r else Lookup(hash, s, k)
  {
    hide Log2, Index, Total;
    if inFirst {
      BucketUpdate(hash, s.ht0, i, c, s'.ht0);
      assert TableFind(hash, s.ht0, k0) != None;
      forall j | 0 <= j < s.rehashidx ensures s'.ht0.buckets[j] == [] { }
    } else {
      BucketUpdate(hash, s.ht1, i, c, s'.ht1);
      assert TableFind(hash, s.ht1, k0) != None;
    }
  }

  /** The state after putting chain c in bucket i of one of the two tables. */
  ghost function WithChain<K, V>(s: State<K, V>, inFirst: bool, i: nat, c: Chain<K, V>): State<K, V>
    requires i < |(if inFirst then s.ht0 else s.ht1).buckets|
    requires (if inFirst then s.ht0 else s.ht1).used >= |(if inFirst then s.ht0 else s.ht1).buckets[i]|
  {
    if inFirst
    then s.(ht0 := Table(s.ht0.buckets[i := c], s.ht0.used - |s.ht0.buckets[i]| + |c|))
    else s.(ht1 := Table(s.ht1.buckets[i := c], s.ht1.used - |s.ht1.buckets[i]| + |c|))
  }

  /** The j-th entry of a chain is what a lookup of its key finds. */
  lemma EntryIsBound<K(!new), V>(hash: K -> nat, s: State<K, V>, inFirst: bool, i: nat, j: nat)
    requires DictOK(hash, s)
    requires var t := if inFirst then s.ht0 else s.ht1;
             i < |t.buckets| && j < |t.buckets[i]|
    ensures var t := if inFirst then s.ht0 else s.ht1;
            && t.used >= |t.buckets[i]|
            && i == Index(|t.buckets|, hash(t.buckets[i][j].key))
            && ChainOK(hash, |t.buckets|, i, t.buckets[i])
            && Lookup(hash, s, t.buckets[i][j].key) == Some(t.buckets[i][j].val)
            && ChainFind(t.buckets[i], t.buckets[i][j].key) == Some(t.buckets[i][j].val)
  {
    hide Log2, Index, Total, ChainFind;
    var t := if inFirst then s.ht0 else s.ht1;
    var c := t.buckets[i];
    assert ChainOK(hash, |t.buckets|, i, c);
    ChainFindAt(c, j);
    TotalUpdate(t.buckets, i, []);
    assert TableFind(hash, t, c[j].key) == Some(c[j].val);
  }

  lemma UnlinkEntry<K(!new), V>(hash: K -> nat, s: State<K, V>, inFirst: bool, i: nat, j: nat, s': State<K, V>)
    requires DictOK(hash, s)
    requires var t := if inFirst then s.ht0 else s.ht1;
             && i < |t.buckets| && j < |t.buckets[i]| && t.used >= |t.buckets[i]|
             && s' == WithChain(s, inFirst, i, Unlink(t.buckets[i], j))
    ensures DictOK(hash, s')
    ensures var k0 := (if inFirst then s.ht0 else s.ht1).buckets[i][j].key;
            forall k :: Lookup(hash, s', k) == if k == k0 then None else Lookup(hash, s, k)
  {
    hide Log2, Index, Total, ChainFind, DictOK, Lookup;
    var t := if inFirst then s.ht0 else s.ht1;
    EntryIsBound(hash, s, inFirst, i, j);
    var c := t.buckets[i];
    var c' := Unlink(c, j);
    forall k ensures ChainFind(c', k) == if k == c[j].key then None else ChainFind(c, k) {
      UnlinkFind(c, j, k);
    }
    forall m | 0 <= m < |c'| ensures c'[m] == (if m < j then c[m] else c[m + 1]) { }
    EditChain(hash, s, inFirst, i, c', c[j].key, None, s');
  }

  lemma SetEntry<K(!new), V>(hash: K -> nat, s: State<K, V>, inFirst: bool, i: nat, j: nat, v: V, s': State<K, V>)
    requires DictOK(hash, s)
    requires var t := if inFirst then s.ht0 else s.ht1;
             && i < |t.buckets| && j < |t.buckets[i]| && t.used >= |t.buckets[i]|
             && s' == WithChain(s, inFirst, i, SetVal(t.buckets[i], j, v))
    ensures DictOK(hash, s')
    ensures var k0 := (if inFirst then s.ht0 else s.ht1).buckets[i][j].key;
            forall k :: Lookup(hash, s', k) == if k == k0 then Some(v) else Lookup(hash, s, k)
  {
    hide Log2, Index, Total, ChainFind, DictOK, Lookup;
    var t := if inFirst then s.ht0 else s.ht1;
    EntryIsBound(hash, s, inFirst, i, j);
    var c := t.buckets[i];
    var c' := SetVal(c, j, v);
    forall k ensures ChainFind(c', k) == if k == c[j].key then Some(v) else ChainFind(c, k) {
      SetValFind(c, j, v, k);
    }
    forall m | 0 <= m < |c'| ensures c'[m].key == c[m].key { }
    EditChain(hash, s, inFirst, i, c', c[j].key, Some(v), s');
  }
}
