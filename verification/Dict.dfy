/**
  dict.c: a dictionary that is resized incrementally. Every method states that
  the dictionary still is the finite map `Contents`, however far the current
  rehash has got.
 */
module DictClass {
  import opened Basics
  import opened Words
  import opened DictTable

  const DICT_HT_INITIAL_SIZE: nat := 4
  const DICT_FORCE_RESIZE_RATIO: nat := 5

  /** A table being rehashed into a larger one. */
  predicate Growing<K, V>(s: State<K, V>)
  {
    s.IsRehashing() ==> |s.ht0.buckets| < |s.ht1.buckets|
  }

  /** The operation neither starts nor continues a shrink, and the smaller table does not get smaller. */
  ghost predicate GrowStep<K, V>(s: State<K, V>, s': State<K, V>)
  {
    Growing(s) ==> Growing(s') && s.SmallSize() <= s'.SmallSize()
  }

  /**
    One operation on a dictionary that is being rehashed, with no safe iterator: the rehash has
    ended, so that ht[1] has taken the place of ht[0], or it has come further.
   */
  ghost predicate Progress<K, V>(s: State<K, V>, s': State<K, V>)
  {
    s.IsRehashing() && s.iterators == 0 ==>
      || |s'.ht0.buckets| == |s.ht1.buckets|
      || (&& s'.IsRehashing() && s.rehashidx < s'.rehashidx < |s'.ht0.buckets| == |s.ht0.buckets|
          && |s'.ht1.buckets| == |s.ht1.buckets|)
  }

  /** Same table sizes and position: only chains and counters may differ. */
  ghost predicate SameShape<K, V>(s: State<K, V>, s': State<K, V>)
  {
    s'.rehashidx == s.rehashidx && |s'.ht0.buckets| == |s.ht0.buckets| && |s'.ht1.buckets| == |s.ht1.buckets|
  }

  lemma NoProgress<K, V>(s: State<K, V>, s': State<K, V>)
    ensures !s.IsRehashing() ==> Progress(s, s')
  {
  }

  lemma ProgressKeeps<K, V>(s: State<K, V>, mid: State<K, V>, s': State<K, V>)
    requires Progress(s, mid) && SameShape(mid, s')
    ensures Progress(s, s')
  {
  }

  /** A rehash that starts right after one has ended. */
  lemma ProgressRestarts<K, V>(s: State<K, V>, mid: State<K, V>, s': State<K, V>)
    requires Progress(s, mid) && (mid.IsRehashing() ==> s' == mid)
    requires |mid.ht0.buckets| > 0 ==> |s'.ht0.buckets| == |mid.ht0.buckets|
    requires s.IsRehashing() ==> |s.ht1.buckets| > 0
    ensures Progress(s, s')
  {
  }

  /** As many operations as ht[0] has buckets end the rehash. */
  lemma RehashEnds<K, V>(states: seq<State<K, V>>)
    requires |states| > 0 && |states| == |states[0].ht0.buckets| + 1
    requires states[0].IsRehashing() && states[0].rehashidx >= 0 && |states[0].ht0.buckets| > 0
    requires forall i :: 0 <= i < |states| - 1 ==> states[i].iterators == 0 && Progress(states[i], states[i + 1])
    ensures exists i :: 0 < i < |states| && |states[i].ht0.buckets| == |states[0].ht1.buckets|
  {
    if forall i :: 0 < i < |states| ==> |states[i].ht0.buckets| != |states[0].ht1.buckets| {
      ComesFurther(states, |states| - 1);
    }
  }

  lemma {:induction false} ComesFurther<K, V>(states: seq<State<K, V>>, n: nat)
    requires n < |states| && states[0].IsRehashing() && states[0].rehashidx >= 0
    requires forall i :: 0 <= i < n ==> states[i].iterators == 0 && Progress(states[i], states[i + 1])
    requires forall i :: 0 < i <= n ==> |states[i].ht0.buckets| != |states[0].ht1.buckets|
    ensures states[n].IsRehashing() && states[n].rehashidx >= n
    ensures |states[n].ht0.buckets| == |states[0].ht0.buckets| && |states[n].ht1.buckets| == |states[0].ht1.buckets|
    ensures n > 0 ==> states[n].rehashidx < |states[0].ht0.buckets|
  {
    if n > 0 {
      ComesFurther(states, n - 1);
      assert Progress(states[n - 1], states[n - 1 + 1]);
    }
  }

  /** How many of the buckets from i to j are empty. */
  function Empties<K, V>(b: seq<Chain<K, V>>, i: int, j: int): nat
    requires 0 <= i <= j <= |b|
    decreases j
  {
    if i == j then 0 else Empties(b, i, j - 1) + if b[j - 1] == [] then 1 else 0
  }

  lemma NoEmpties<K, V>(b: seq<Chain<K, V>>, i: int, j: int)
    requires 0 <= i <= j <= |b|
    ensures i == j ==> Empties(b, i, j) == 0
    ensures j < |b| && b[j] != [] ==> Empties(b, i, j + 1) == Empties(b, i, j)
  {
  }

  lemma {:induction false} AllEmpty<K, V>(b: seq<Chain<K, V>>, i: int, j: int, k: int)
    requires 0 <= i <= j <= k <= |b| && forall m :: j <= m < k ==> b[m] == []
    ensures Empties(b, i, k) == Empties(b, i, j) + (k - j)
    decreases k
  {
    if j < k { AllEmpty(b, i, j, k - 1); }
  }

  lemma IndexIsAnd(w: nat, size: nat, h: nat)
    requires size > 0 && IsPow2(size) && Log2(size) <= w
    ensures And(w, h, size - 1) == Index(size, h)
  {
    hide And, Lo, Log2;
    AndMask(w, h, Log2(size));
  }

  /** i is the number of buckets of a table for `size` entries: a power of two, at least 4, less than twice the size. */
  ghost predicate IsRealSize(size: nat, i: nat)
  {
    IsPow2(i) && size <= i && DICT_HT_INITIAL_SIZE <= i && (i == DICT_HT_INITIAL_SIZE || i < 2 * size)
  }

  /** There is one such number, the least power of two that will do. */
  lemma RealSizeIsLeast(size: nat, i: nat, k: nat)
    requires IsRealSize(size, i) && IsPow2(k) && size <= k && DICT_HT_INITIAL_SIZE <= k
    ensures i <= k
  {
    hide Log2;
    if k < i { Pow2Order(Log2(k), Log2(i)); }
  }

  lemma RealSizeIs(size: nat, i: nat, k: nat)
    requires IsRealSize(size, i)
    ensures IsRealSize(size, k) <==> k == i
    ensures i > 0 && IsPow2(i) && size <= i && (i == DICT_HT_INITIAL_SIZE || i < 2 * size)
  {
    hide Log2, Pow2;
    if IsRealSize(size, k) {
      RealSizeIsLeast(size, i, k);
      RealSizeIsLeast(size, k, i);
    }
  }

  lemma Pow2Order(a: nat, b: nat)
    requires Pow2(a) < Pow2(b)
    ensures a < b && 2 * Pow2(a) <= Pow2(b)
  {
    if b <= a { Pow2Mono(b, a); } else { Pow2Mono(a, b); }
  }

  /** _dictNextPower, for sizes below LONG_MAX */
  method NextPower(size: nat) returns (i: nat)
    ensures IsRealSize(size, i)
  {
    i := DICT_HT_INITIAL_SIZE;
    ghost var e := 2;
    while i < size
      invariant i == Pow2(e) && DICT_HT_INITIAL_SIZE <= i
      invariant i == DICT_HT_INITIAL_SIZE || i < 2 * size
      decreases size - i
    {
      i := i * 2;
      e := e + 1;
    }
    Log2Pow2(e);
  }

  lemma InitialSizeFits(logLong: nat)
    requires logLong >= 3
    ensures Pow2(logLong) >= 8 && DICT_HT_INITIAL_SIZE < Pow2(Pow2(logLong) - 1)
  {
    assert Pow2(3) == 8;
    Pow2Mono(3, logLong);
    Pow2Mono(3, Pow2(logLong) - 1);
  }

  lemma NewSizeFits(w: nat, size: nat, realsize: nat)
    requires w >= 8 && size < Pow2(w - 1)
    requires realsize == DICT_HT_INITIAL_SIZE || realsize < 2 * size
    ensures Log2(realsize) <= w
  {
    hide Log2;
    assert Pow2(2) == 4;
    Pow2Mono(2, w);
    Log2Mono(realsize, Pow2(w));
    Log2Pow2(w);
  }

  /** Walk a chain looking for a key; |c| when it is not there. */
  method SearchChain<K(==), V>(c: Chain<K, V>, key: K) returns (j: nat)
    ensures j <= |c|
    ensures j < |c| ==> c[j].key == key && ChainFind(c, key) == Some(c[j].val)
    ensures j == |c| ==> ChainFind(c, key) == None
  {
    j := 0;
    while j < |c| && c[j].key != key
      invariant j <= |c|
      invariant ChainFind(c, key) == ChainFind(c[j..], key)
    {
      j := j + 1;
    }
  }

  class Dict<K(==,!new), V> {
    /** log2 of the number of bits of an unsigned long */
    const logLong: nat
    const hash: K -> nat
    var ht0: Table<K, V>
    var ht1: Table<K, V>
    var rehashidx: int
    var iterators: nat
    ghost var Contents: map<K, V>

    function State(): State<K, V>
      reads this
    {
      DictTable.State(ht0, ht1, rehashidx, iterators)
    }

    function W(): nat { Pow2(logLong) }

    ghost predicate Fits()
      reads this
    {
      && logLong >= 3
      && Log2(|ht0.buckets|) <= W() && Log2(|ht1.buckets|) <= W()
      && (rehashidx != -1 ==> |ht0.buckets| != |ht1.buckets|)
    }

    ghost predicate Represents(m: map<K, V>)
      requires DictOK(hash, State())
      reads this
    {
      && (forall k :: Lookup(hash, State(), k) == if k in m then Some(m[k]) else None)
      && |m| == ht0.used + ht1.used
    }

    ghost predicate Valid()
      reads this
    {
      DictOK(hash, State()) && Fits() && Represents(Contents)
    }

    /** There is room to double the table without reaching LONG_MAX buckets. */
    ghost predicate RoomToGrow()
      reads this
    {
      logLong >= 3 && 2 * |Contents| < Pow2(W() - 1)
    }

    constructor (logLong: nat, hash: K -> nat)
      requires logLong >= 3
      ensures Valid() && Contents == map[] && iterators == 0 && !State().IsRehashing()
      ensures this.logLong == logLong && this.hash == hash
    {
      this.logLong, this.hash := logLong, hash;
      ht0, ht1 := Table([], 0), Table([], 0);
      rehashidx, iterators := -1, 0;
      Contents := map[];
    }

    function IsRehashing(): bool
      reads this
    {
      rehashidx != -1
    }

    /** A safe iterator starts: rehash steps stop. */
    method Retain()
      requires Valid()
      modifies this`iterators
      ensures Valid() && iterators == old(iterators) + 1
    {
      hide Log2, Pow2, Total, Apart, TableOK, TableFind;
      iterators := iterators + 1;
    }

    /** ... and is released. */
    method Release()
      requires Valid() && iterators > 0
      modifies this`iterators
      ensures Valid() && iterators == old(iterators) - 1
    {
      hide Log2, Index, Total, ChainFind;
      iterators := iterators - 1;
      assert DictOK(hash, State());
    }

    /** dictSize */
    method Size() returns (n: nat)
      requires Valid()
      ensures n == |Contents|
    {
      n := ht0.used + ht1.used;
    }

    lemma EmptyIsUnused()
      requires Valid() && |ht0.buckets| == 0
      ensures ht0.used == 0 && !IsRehashing()
    {
      hide Log2, Pow2, Apart, Represents;
    }

    /** dictExpand; `size` is below LONG_MAX */
    method Expand(size: nat) returns (ok: bool)
      requires Valid() && size < Pow2(W() - 1)
      modifies this`ht0, this`ht1, this`rehashidx
      ensures Valid()
      ensures ok <==> !old(IsRehashing()) && old(ht0.used) <= size && !IsRealSize(size, |old(ht0).buckets|)
      ensures !ok ==> State() == old(State())
      ensures ok && |old(ht0).buckets| == 0 ==> !IsRehashing() && IsRealSize(size, |ht0.buckets|)
      ensures ok && |old(ht0).buckets| > 0 ==> rehashidx == 0 && ht0 == old(ht0) && IsRealSize(size, |ht1.buckets|)
      ensures ok && |old(ht0).buckets| > 0 ==> |ht1.buckets| != |ht0.buckets|
    {
      hide IsRealSize, And, Log2, Lo, Pow2, Total, ChainFind, Index, IsPow2, TableOK, Apart, TableFind, EmptyTable, GrowStep;
      if |ht0.buckets| == 0 { EmptyIsUnused(); }
      ghost var s := State();
      var realsize := NextPower(size);
      RealSizeIs(size, realsize, |ht0.buckets|);
      if IsRehashing() || ht0.used > size { return false; }
      if realsize == |ht0.buckets| { return false; }
      InitialSizeFits(logLong);
      NewSizeFits(W(), size, realsize);
      var n := EmptyTable<K, V>(realsize);
      if |ht0.buckets| == 0 {
        ht0 := n;
        ExpandWith(hash, s, realsize, State());
        return true;
      }
      ht1 := n;
      rehashidx := 0;
      ExpandWith(hash, s, realsize, State());
      return true;
    }

    /** dictResize */
    method Resize(canResize: bool) returns (ok: bool)
      requires Valid() && RoomToGrow()
      modifies this`ht0, this`ht1, this`rehashidx
      ensures Valid()
      ensures var minimal := Max(old(ht0.used), DICT_HT_INITIAL_SIZE);
              && (ok <==> canResize && !old(IsRehashing()) && !IsRealSize(minimal, |old(ht0).buckets|))
              && (ok && |old(ht0).buckets| > 0 ==> rehashidx == 0 && ht0 == old(ht0) && IsRealSize(minimal, |ht1.buckets|))
              && (ok && |old(ht0).buckets| == 0 ==> !IsRehashing() && IsRealSize(minimal, |ht0.buckets|))
      ensures !ok ==> State() == old(State())
    {
      hide IsRealSize;
      if !canResize || IsRehashing() { return false; }
      var minimal := ht0.used;
      if minimal < DICT_HT_INITIAL_SIZE { minimal := DICT_HT_INITIAL_SIZE; }
      InitialSizeFits(logLong);
      ok := Expand(minimal);
    }

    /** The move loop of dictRehash for the bucket at rehashidx. */
    method MoveBucketAt()
      requires Valid() && IsRehashing() && rehashidx < |ht0.buckets|
      modifies this`ht0, this`ht1, this`rehashidx
      ensures Valid()
      ensures rehashidx == old(rehashidx) + 1
      ensures ht0.buckets == old(ht0.buckets)[old(rehashidx) := []] && |ht1.buckets| == old(|ht1.buckets|)
    {
      hide And, Log2, Lo, Pow2, Total, ChainFind, Index, Apart, TableFind;
      ghost var s := State();
      var r := rehashidx;
      var c := ht0.buckets[r];
      TotalUpdate(ht0.buckets, r, []);
      var i := 0;
      while i < |c|
        invariant i <= |c|
        invariant ht0.buckets == s.ht0.buckets && ht0.used == s.ht0.used - i
        invariant ht1 == MoveChain(hash, s.ht1, c[..i])
        invariant rehashidx == r && |ht1.buckets| == |s.ht1.buckets|
      {
        var e := c[i];
        IndexIsAnd(W(), |ht1.buckets|, hash(e.key));
        var h := And(W(), hash(e.key), |ht1.buckets| - 1);
        assert c[..i + 1][..i] == c[..i];
        ht1 := Table(ht1.buckets[h := [e] + ht1.buckets[h]], ht1.used + 1);
        ht0 := ht0.(used := ht0.used - 1);
        i := i + 1;
      }
      assert c[..i] == c;
      ht0 := ht0.(buckets := ht0.buckets[r := []]);
      rehashidx := rehashidx + 1;
      MoveBucket(hash, s, r, State());
    }

    /** The inner loop of dictRehash: skip empty buckets; 0 is returned when the visits run out. */
    method SkipEmptyBuckets(visits: nat) returns (left: nat)
      requires Valid() && IsRehashing() && ht0.used != 0 && visits > 0
      modifies this`rehashidx
      ensures Valid() && IsRehashing() && old(rehashidx) <= rehashidx < |ht0.buckets|
      ensures left <= visits && rehashidx - old(rehashidx) == visits - left
      ensures forall i :: old(rehashidx) <= i < rehashidx ==> ht0.buckets[i] == []
      ensures left > 0 ==> ht0.buckets[rehashidx] != []
    {
      hide And, Log2, Lo, Pow2, Total, ChainFind, Index, Apart, TableOK, TableFind;
      ghost var s := State();
      ghost var p := TotalIsPositive();
      left := visits;
      while ht0.buckets[rehashidx] == []  // in bounds: the assertion at line 284
        invariant s.rehashidx <= rehashidx <= p < |ht0.buckets|
        invariant forall i :: 0 <= i < rehashidx ==> ht0.buckets[i] == []
        invariant 0 < left <= visits && rehashidx - s.rehashidx == visits - left
        decreases p - rehashidx
      {
        rehashidx := rehashidx + 1;
        left := left - 1;
        if left == 0 { break; }
      }
      SkipBuckets(hash, s, State());
    }

    lemma TotalIsPositive() returns (p: nat)
      requires Valid() && IsRehashing() && ht0.used != 0
      ensures rehashidx <= p < |ht0.buckets| && ht0.buckets[p] != []
    {
      hide Log2, Pow2, Total;
      p := TotalPositive(ht0.buckets);
    }

    /**
      dictRehash. Unless it ends the rehash it gets exactly as far as its argument says: `steps`
      non-empty buckets have moved, or ten times as many empty ones have been passed.
     */
    method Rehash(steps: nat) returns (more: bool)
      requires Valid()
      modifies this`ht0, this`ht1, this`rehashidx
      ensures Valid()
      ensures !old(IsRehashing()) ==> !more && State() == old(State())
      ensures !more <==> !IsRehashing()
      ensures more ==> && |ht0.buckets| == old(|ht0.buckets|) && |ht1.buckets| == old(|ht1.buckets|)
                       && old(rehashidx) <= rehashidx < |ht0.buckets|
                       && (steps > 0 ==> old(rehashidx) < rehashidx)
                       && (forall i :: rehashidx <= i < |ht0.buckets| ==> ht0.buckets[i] == old(ht0.buckets[i]))
      ensures more ==> var passed := Empties(old(ht0.buckets), old(rehashidx), rehashidx);
                       if passed < 10 * steps then rehashidx - old(rehashidx) == steps + passed
                       else passed == 10 * steps && rehashidx - old(rehashidx) <= steps + passed
      ensures old(IsRehashing()) && !more ==> |ht0.buckets| == old(|ht1.buckets|)
      ensures GrowStep(old(State()), State())
    {
      hide And, Log2, Lo, Pow2, Total, ChainFind, Index, Apart, TableOK, TableFind, Empties, Represents;
      var emptyVisits := steps * 10;
      if !IsRehashing() { return false; }
      ghost var b, r := ht0.buckets, rehashidx;
      NoEmpties(b, r, r);
      var n := steps;
      while n > 0 && ht0.used != 0
        invariant Valid() && IsRehashing() && r <= rehashidx <= |b|
        invariant 0 <= n <= steps && 0 <= emptyVisits && (steps > 0 ==> emptyVisits > 0)
        invariant |ht0.buckets| == |b| && |ht1.buckets| == old(|ht1.buckets|)
        invariant forall i :: rehashidx <= i < |b| ==> ht0.buckets[i] == b[i]
        invariant Empties(b, r, rehashidx) == steps * 10 - emptyVisits && rehashidx - r == (steps - n) + (steps * 10 - emptyVisits)
        decreases n
      {
        n := n - 1;
        ghost var from := rehashidx;
        emptyVisits := SkipEmptyBuckets(emptyVisits);
        AllEmpty(b, r, from, rehashidx);
        if emptyVisits == 0 { return true; }
        NoEmpties(b, r, rehashidx);
        MoveBucketAt();
      }
      if ht0.used == 0 {
        DropFirst();
        return false;
      }
      ghost var _ := TotalIsPositive();
      return true;
    }

    /** The end of a rehash: ht[1] takes the place of the now empty ht[0]. */
    method DropFirst()
      requires Valid() && IsRehashing() && ht0.used == 0
      modifies this`ht0, this`ht1, this`rehashidx
      ensures Valid() && !IsRehashing() && ht0 == old(ht1)
    {
      assert Log2(0) == 0;
      hide And, Log2, Lo, Pow2, Total, ChainFind, Index, Apart, TableOK, TableFind, Lookup, DictOK;
      ghost var s := State();
      ht0 := ht1;
      ht1 := Table([], 0);
      rehashidx := -1;
      SwapTables(hash, s, State());
    }

    /** dictRehashMilliseconds with enough time: repeated dictRehash calls finish the migration. */
    method RehashToTheEnd()
      requires Valid()
      modifies this`ht0, this`ht1, this`rehashidx
      ensures Valid() && !IsRehashing()
      ensures |ht0.buckets| == if old(IsRehashing()) then old(|ht1.buckets|) else old(|ht0.buckets|)
    {
      hide And, Log2, Lo, Pow2, Total, ChainFind, Index;
      var more := Rehash(100);
      while more
        invariant Valid()
        invariant more <==> IsRehashing()
        invariant IsRehashing() ==> old(IsRehashing()) && |ht0.buckets| == old(|ht0.buckets|) && |ht1.buckets| == old(|ht1.buckets|)
        invariant !IsRehashing() ==> |ht0.buckets| == if old(IsRehashing()) then old(|ht1.buckets|) else old(|ht0.buckets|)
        decreases if more then |ht0.buckets| - rehashidx + 1 else 0
      {
        more := Rehash(100);
      }
    }

    /** _dictRehashStep */
    method RehashStep()
      requires Valid()
      modifies this`ht0, this`ht1, this`rehashidx
      ensures Valid()
      ensures iterators > 0 ==> State() == old(State())
      ensures iterators == 0 && old(IsRehashing()) ==> !IsRehashing() || rehashidx > old(rehashidx)
      ensures Progress(old(State()), State())
      ensures |old(ht0).buckets| > 0 ==> |ht0.buckets| > 0
      ensures GrowStep(old(State()), State())
    {
      hide And, Log2, Lo, Pow2, Total, ChainFind, Index;
      if iterators == 0 {
        var _ := Rehash(1);
      }
    }

    /** _dictExpandIfNeeded: never fails */
    method ExpandIfNeeded(canResize: bool) returns (ok: bool)
      requires Valid() && RoomToGrow()
      modifies this`ht0, this`ht1, this`rehashidx
      ensures Valid() && ok && |ht0.buckets| > 0
      ensures old(IsRehashing()) ==> State() == old(State())
      ensures |old(ht0).buckets| > 0 ==> ht0 == old(ht0)
      ensures |old(ht0).buckets| > 0 && !old(IsRehashing()) ==>
                if ht0.used >= |ht0.buckets| && (canResize || ht0.used / |ht0.buckets| > DICT_FORCE_RESIZE_RATIO)
                then rehashidx == 0 && IsRealSize(2 * ht0.used, |ht1.buckets|)
                else State() == old(State())
      ensures GrowStep(old(State()), State())
    {
      if IsRehashing() { return true; }
      if |ht0.buckets| == 0 {
        InitialSizeFits(logLong);
        ok := Expand(DICT_HT_INITIAL_SIZE);
        return;
      }
      if ht0.used >= |ht0.buckets| && (canResize || ht0.used / |ht0.buckets| > DICT_FORCE_RESIZE_RATIO) {
        ok := Expand(ht0.used * 2);
        return;
      }
      return true;
    }

    /**
      The search loop over ht[0] and then, while rehashing, ht[1] that _dictKeyIndex,
      dictFind and dictGenericDelete share. A key that is not found leaves `idx` at its
      bucket in the table that takes insertions.
     */
    method Locate(key: K) returns (found: bool, inFirst: bool, idx: nat, j: nat)
      requires Valid() && |ht0.buckets| > 0
      ensures found <==> key in Contents
      ensures var t := if inFirst then ht0 else ht1;
              && idx < |t.buckets| && (found ==> j < |t.buckets[idx]|)
              && (found ==> t.buckets[idx][j] == Entry(key, Contents[key]))
              && (!found ==> inFirst == !IsRehashing() && idx == Index(|t.buckets|, hash(key)))
    {
      hide And, Log2, Lo, Pow2, Total, ChainFind;
      var h := hash(key);
      assert Lookup(hash, State(), key) == if key in Contents then Some(Contents[key]) else None;
      IndexIsAnd(W(), |ht0.buckets|, h);
      idx := And(W(), h, |ht0.buckets| - 1);
      inFirst := true;
      j := SearchChain(ht0.buckets[idx], key);
      if j < |ht0.buckets[idx]| { return true, true, idx, j; }
      if !IsRehashing() { return false, true, idx, j; }
      IndexIsAnd(W(), |ht1.buckets|, h);
      idx := And(W(), h, |ht1.buckets| - 1);
      inFirst := false;
      j := SearchChain(ht1.buckets[idx], key);
      found := j < |ht1.buckets[idx]|;
    }

    /** _dictKeyIndex: -1 if the key exists, else the bucket in the table that takes insertions */
    method KeyIndex(key: K, canResize: bool) returns (idx: int)
      requires Valid() && RoomToGrow()
      modifies this`ht0, this`ht1, this`rehashidx
      ensures Valid() && |ht0.buckets| > 0
      ensures idx == -1 <==> key in Contents
      ensures idx != -1 ==> idx == Index(if IsRehashing() then |ht1.buckets| else |ht0.buckets|, hash(key))
      ensures old(IsRehashing()) ==> State() == old(State())
      ensures |old(ht0).buckets| > 0 ==> ht0 == old(ht0)
      ensures GrowStep(old(State()), State())
    {
      hide And, Log2, Lo, Pow2, Total, ChainFind, Index;
      var ok := ExpandIfNeeded(canResize);
      if !ok { return -1; }
      var found, inFirst, i, _ := Locate(key);
      idx := if found then -1 else i;
    }

    lemma TablesExist()
      requires Valid()
      ensures IsRehashing() ==> |ht0.buckets| > 0 && |ht1.buckets| > 0
    {
    }

    /** dictAdd (dictAddRaw followed by setting the value) */
    method Add(key: K, val: V, canResize: bool) returns (ok: bool)
      requires Valid() && RoomToGrow()
      modifies this`ht0, this`ht1, this`rehashidx, this`Contents
      ensures Valid() && |ht0.buckets| > 0
      ensures ok <==> key !in old(Contents)
      ensures Contents == if ok then old(Contents)[key := val] else old(Contents)
      ensures Progress(old(State()), State())
      ensures GrowStep(old(State()), State())
      ensures old(iterators) > 0 && |old(ht0).buckets| > 0 ==> Inserted(old(State()), State(), Entry(key, val))
    {
      hide And, Log2, Lo, Pow2, Total, ChainFind, Index, DictOK, Progress, Lookup, Represents, Fits, SameShape;
      TablesExist();
      ghost var s := State();
      NoProgress(s, s);
      if IsRehashing() { RehashStep(); }
      ghost var stepped := State();
      var index := KeyIndex(key, canResize);
      ProgressRestarts(s, stepped, State());
      if index == -1 { return false; }
      ghost var found := State();
      Link(index, key, val);
      ProgressKeeps(s, found, State());
      ok := true;
    }

    /** The second half of dictAddRaw: link a new entry at the head of its bucket. */
    method Link(index: nat, key: K, val: V)
      requires Valid() && key !in Contents && |ht0.buckets| > 0
      requires index == Index(if IsRehashing() then |ht1.buckets| else |ht0.buckets|, hash(key))
      modifies this`ht0, this`ht1, this`Contents
      ensures Valid() && Contents == old(Contents)[key := val]
      ensures SameShape(old(State()), State())
      ensures Inserted(old(State()), State(), Entry(key, val))
    {
      hide And, Log2, Lo, Pow2, Total, ChainFind, Index, Apart, TableFind;
      ghost var s := State();
      assert Lookup(hash, s, key) == None;
      var e := Entry(key, val);
      if IsRehashing() {
        ht1 := Table(ht1.buckets[index := [e] + ht1.buckets[index]], ht1.used + 1);
        assert ht1 == Push(hash, s.ht1, e);
      } else {
        ht0 := Table(ht0.buckets[index := [e] + ht0.buckets[index]], ht0.used + 1);
        assert ht0 == Push(hash, s.ht0, e);
      }
      InsertEntry(hash, s, e, State());
      Contents := Contents[key := val];
    }

    /** dictFind */
    method Find(key: K) returns (r: Option<V>)
      requires Valid()
      modifies this`ht0, this`ht1, this`rehashidx
      ensures Valid()
      ensures r == if key in Contents then Some(Contents[key]) else None
      ensures iterators > 0 ==> State() == old(State())
      ensures iterators == 0 && old(IsRehashing()) ==> !IsRehashing() || rehashidx > old(rehashidx)
      ensures Progress(old(State()), State())
      ensures GrowStep(old(State()), State())
    {
      hide And, Log2, Lo, Pow2, Total, ChainFind, Index;
      if |ht0.buckets| == 0 {
        EmptyHasNoKeys(key);
        return None;
      }
      if IsRehashing() { RehashStep(); }
      var found, inFirst, idx, j := Locate(key);
      if !found { return None; }
      var t := if inFirst then ht0 else ht1;
      return Some(t.buckets[idx][j].val);
    }

    lemma EmptyHasNoKeys(key: K)
      requires Valid() && |ht0.buckets| == 0
      ensures key !in Contents
    {
      hide Log2, Pow2, Total;
      assert Lookup(hash, State(), key) == None;
    }

    /** Overwrite the j-th value of a chain: dictSetVal on an entry that dictFind returned. */
    method SetValue(inFirst: bool, idx: nat, j: nat, val: V)
      requires Valid()
      requires var t := if inFirst then ht0 else ht1;
               && idx < |t.buckets| && j < |t.buckets[idx]|
      modifies this`ht0, this`ht1, this`Contents
      ensures Valid()
      ensures var key := (if inFirst then old(ht0) else old(ht1)).buckets[idx][j].key;
              key in old(Contents) && Contents == old(Contents)[key := val]
      ensures SameShape(old(State()), State()) && GrowStep(old(State()), State())
    {
      hide And, Log2, Lo, Pow2, Total, ChainFind, Index, Apart, TableOK, TableFind;
      ghost var s := State();
      var t := if inFirst then ht0 else ht1;
      var c := t.buckets[idx];
      EntryIsBound(hash, s, inFirst, idx, j);
      if inFirst {
        ht0 := ht0.(buckets := ht0.buckets[idx := SetVal(c, j, val)]);
      } else {
        ht1 := ht1.(buckets := ht1.buckets[idx := SetVal(c, j, val)]);
      }
      SetEntry(hash, s, inFirst, idx, j, val, State());
      Contents := Contents[c[j].key := val];
    }

    /** dictReplace */
    method Replace(key: K, val: V, canResize: bool) returns (added: bool)
      requires Valid() && RoomToGrow()
      modifies this`ht0, this`ht1, this`rehashidx, this`Contents
      ensures Valid()
      ensures added <==> key !in old(Contents)
      ensures Contents == old(Contents)[key := val]
      ensures added ==> Progress(old(State()), State())
      ensures !added ==> exists s :: Progress(old(State()), s) && Progress(s, State())
      ensures GrowStep(old(State()), State())
    {
      hide And, Log2, Lo, Pow2, Total, ChainFind, Index, DictOK, Progress, Lookup, Represents, Fits, SameShape;
      added := Add(key, val, canResize);
      if added { return; }
      ghost var s := State();
      NoProgress(s, s);
      if IsRehashing() { RehashStep(); }
      ghost var stepped := State();
      var found, inFirst, idx, j := Locate(key);
      SetValue(inFirst, idx, j, val);
      ProgressKeeps(s, stepped, State());
    }

    /** Unlink the j-th entry of a chain. */
    method UnlinkAt(inFirst: bool, idx: nat, j: nat)
      requires Valid()
      requires var t := if inFirst then ht0 else ht1;
               && idx < |t.buckets| && j < |t.buckets[idx]|
      modifies this`ht0, this`ht1, this`Contents
      ensures Valid()
      ensures var key := (if inFirst then old(ht0) else old(ht1)).buckets[idx][j].key;
              key in old(Contents) && Contents == old(Contents) - {key}
      ensures Removed(old(State()), State(), (if inFirst then old(ht0) else old(ht1)).buckets[idx][j].key)
      ensures SameShape(old(State()), State()) && GrowStep(old(State()), State())
    {
      hide And, Log2, Lo, Pow2, Total, ChainFind, Index, Apart, TableOK, TableFind, Unlink;
      ghost var s := State();
      var t := if inFirst then ht0 else ht1;
      var c := t.buckets[idx];
      EntryIsBound(hash, s, inFirst, idx, j);
      if inFirst {
        ht0 := Table(ht0.buckets[idx := Unlink(c, j)], ht0.used - 1);
      } else {
        ht1 := Table(ht1.buckets[idx := Unlink(c, j)], ht1.used - 1);
      }
      UnlinkEntry(hash, s, inFirst, idx, j, State());
      Contents := Contents - {c[j].key};
    }

    /** dictDelete / dictDeleteNoFree */
    method Delete(key: K) returns (ok: bool)
      requires Valid()
      modifies this`ht0, this`ht1, this`rehashidx, this`Contents
      ensures Valid()
      ensures ok <==> key in old(Contents)
      ensures Contents == old(Contents) - {key}
      ensures iterators == 0 && old(IsRehashing()) ==> !IsRehashing() || rehashidx > old(rehashidx)
      ensures Progress(old(State()), State())
      ensures GrowStep(old(State()), State())
      ensures iterators > 0 ==> Removed(old(State()), State(), key)
    {
      hide And, Log2, Lo, Pow2, Total, ChainFind, Index, DictOK, Progress, Lookup, Represents, Fits, SameShape;
      TablesExist();
      ghost var s := State();
      NoProgress(s, s);
      if |ht0.buckets| == 0 {
        EmptyHasNoKeys(key);
        return false;
      }
      if IsRehashing() { RehashStep(); }
      ghost var stepped := State();
      var found, inFirst, idx, j := Locate(key);
      if found { UnlinkAt(inFirst, idx, j); }
      ProgressKeeps(s, stepped, State());
      return found;
    }
  }

  /** Chains that differ at most by an entry linked at the head of one of them. */
  ghost predicate ChainsInserted<K, V>(b: seq<Chain<K, V>>, b': seq<Chain<K, V>>, e: Entry<K, V>)
  {
    && |b'| == |b|
    && forall i :: 0 <= i < |b| ==> b'[i] == b[i] || b'[i] == [e] + b[i]
  }

  /**
    With a safe iterator running an insertion moves nothing: it links an entry at a chain
    head, and may start a rehash.
   */
  ghost predicate Inserted<K, V>(s: State<K, V>, s': State<K, V>, e: Entry<K, V>)
  {
    && s'.iterators == s.iterators
    && ChainsInserted(s.ht0.buckets, s'.ht0.buckets, e)
    && (s.IsRehashing() ==> s'.rehashidx == s.rehashidx && ChainsInserted(s.ht1.buckets, s'.ht1.buckets, e))
  }

  /** With a safe iterator running a deletion unlinks one entry and moves nothing. */
  ghost predicate Removed<K, V>(s: State<K, V>, s': State<K, V>, key: K)
  {
    && s'.iterators == s.iterators && s'.rehashidx == s.rehashidx
    && ChainsRemoved(s.ht0.buckets, s'.ht0.buckets, key)
    && ChainsRemoved(s.ht1.buckets, s'.ht1.buckets, key)
  }

  ghost predicate ChainsRemoved<K, V>(b: seq<Chain<K, V>>, b': seq<Chain<K, V>>, key: K)
  {
    && |b'| == |b|
    && forall i :: 0 <= i < |b| ==>
         || b'[i] == b[i]
         || exists j :: 0 <= j < |b[i]| && b[i][j].key == key && b'[i] == Unlink(b[i], j)
  }
}
