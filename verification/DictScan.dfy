/**
  dictScan and what it promises over a whole iteration: the cursor sweeps the
  hash space in reversed-bit order while the dictionary is resized, rehashed
  and modified between the calls.
 */
module DictScan {
  import opened Basics
  import opened Words
  import opened DictTable
  import opened DictCursor
  import opened DictClass

  // ---------------------------------------------------------------------
  // One call

  function Small<K, V>(s: State<K, V>): Table<K, V>
  {
    if |s.ht0.buckets| > |s.ht1.buckets| then s.ht1 else s.ht0
  }

  function Large<K, V>(s: State<K, V>): Table<K, V>
  {
    if |s.ht0.buckets| > |s.ht1.buckets| then s.ht0 else s.ht1
  }

  /** The chains of buckets (c) lo, (c+1) lo, ... up to the last expansion of small bucket lo. */
  function Expansions<K, V>(b: seq<Chain<K, V>>, k0: nat, j: nat, lo: nat, c: nat): Chain<K, V>
    requires |b| == Pow2(k0 + j) && lo < Pow2(k0)
    decreases Pow2(j) - c
  {
    if c >= Pow2(j) then [] else
      JoinParts(k0, lo, c, j);
      b[Join(k0, lo, c)] + Expansions(b, k0, j, lo, c + 1)
  }

  predicate Sized<K, V>(s: State<K, V>)
  {
    && |s.ht0.buckets| > 0 && IsPow2(|s.ht0.buckets|)
    && (s.IsRehashing() ==> |s.ht1.buckets| > 0 && IsPow2(|s.ht1.buckets|))
  }

  /** The entries one call hands to the callback, in order. */
  function Emitted<K, V>(s: State<K, V>, v: nat): Chain<K, V>
    requires Sized(s)
  {
    if !s.IsRehashing() then s.ht0.buckets[Index(|s.ht0.buckets|, v)]
    else
      var t0, t1 := Small(s), Large(s);
      var k0, k1 := Log2(|t0.buckets|), Log2(|t1.buckets|);
      Log2Mono(|t0.buckets|, |t1.buckets|);
      t0.buckets[Index(|t0.buckets|, v)] + Expansions(t1.buckets, k0, k1 - k0, Lo(v, k0), Middle(k0, k1, v))
  }

  /** The cursor one call returns. */
  function NextCursor<K, V>(w: nat, s: State<K, V>, v: nat): nat
  {
    if s.ht0.used + s.ht1.used == 0 || s.SmallSize() == 0 then 0 else Advance(w, s.SmallSize() - 1, v)
  }

  lemma JoinLo(k0: nat, k1: nat, v: nat)
    requires k0 <= k1
    ensures Join(k0, Lo(v, k0), Middle(k0, k1, v)) == Lo(v, k1)
  {
    hide Lo, Hi, Join, Pow2;
    var j := k1 - k0;
    HiHi(v, k0, j);
    var x := Join(k0, Lo(v, k0), Middle(k0, k1, v));
    JoinParts(k0, Lo(v, k0), Middle(k0, k1, v), j);
    HiLoExt(x, Lo(v, k1), k0);
  }

  /** One round of the expansion loop moves to the next middle value, or back to 0 after the last. */
  lemma MiddleStep(w: nat, k0: nat, k1: nat, v: nat)
    requires k0 <= k1 <= w && v < Pow2(w)
    ensures var v' := NextExpansion(w, Pow2(k0) - 1, v);
            && Lo(v', k0) == Lo(v, k0)
            && Middle(k0, k1, v') == (if Middle(k0, k1, v) + 1 == Pow2(k1 - k0) then 0 else Middle(k0, k1, v) + 1)
  {
    hide Lo, Hi, Pow2, NextExpansion;
    NextExpansionAdds(w, k0, v);
    HiBound(v, k0, w - k0);
    LoInc(Hi(v, k0), k1 - k0);
    if Hi(v, k0) + 1 == Pow2(w - k0) {
      HiZero(k1 - k0);
      MaskSplit(k1 - k0, w - k0);
    }
  }

  lemma {:induction false} LoInc(x: nat, j: nat)
    ensures Lo(x + 1, j) == if Lo(x, j) + 1 == Pow2(j) then 0 else Lo(x, j) + 1
    decreases j
  {
    hide Lo;
    if j == 0 {
      NoBits(x, 0);
      NoBits(x + 1, 0);
    } else {
      HiLoStep(x, j);
      HiLoStep(x + 1, j);
      if x % 2 == 0 { Halve(x + 1, x / 2, 1); } else { Halve(x + 1, x / 2 + 1, 0); }
      LoInc(x / 2, j - 1);
    }
  }

  /** The step depends only on the bits under the smaller mask. */
  lemma AdvanceReadsLow(w: nat, k: nat, v: nat, u: nat)
    requires k <= w && Lo(v, k) == Lo(u, k)
    ensures Advance(w, Pow2(k) - 1, v) == Advance(w, Pow2(k) - 1, u)
  {
    hide Lo, Hi, Pow2, Rev, Or, Not;
    FilledCursor(w, k, v);
    FilledCursor(w, k, u);
    HiLoExt(Or(w, v, Not(w, Pow2(k) - 1)), Or(w, u, Not(w, Pow2(k) - 1)), k);
  }

  /** The tail of dictScan: set the unmasked bits and increment the reversed cursor. */
  method IncrementReversed(logLong: nat, m0: nat, v: nat) returns (v': nat)
    requires v < Pow2(Pow2(logLong))
    ensures v' == Advance(Pow2(logLong), m0, v)
  {
    var w := Pow2(logLong);
    v' := Or(w, v, Not(w, m0));
    v' := ReverseWord(logLong, v');
    v' := Inc(w, v');
    v' := ReverseWord(logLong, v');
  }

  /** The do-while loop over the larger table. */
  method EmitExpansions<K, V>(b: seq<Chain<K, V>>, w: nat, k0: nat, k1: nat, v: nat) returns (v': nat, out: Chain<K, V>)
    requires k0 <= k1 <= w && |b| == Pow2(k1) && v < Pow2(w)
    ensures out == Expansions(b, k0, k1 - k0, Lo(v, k0), Middle(k0, k1, v))
    ensures v' < Pow2(w) && Lo(v', k0) == Lo(v, k0)
  {
    hide Lo, Hi, Join, Pow2, And, Xor, NextExpansion, Middle;
    var m0, m1 := Pow2(k0) - 1, Pow2(k1) - 1;
    ghost var j, lo := k1 - k0, Lo(v, k0);
    v' := v;
    out := [];
    var more := true;
    while more
      invariant v' < Pow2(w) && Lo(v', k0) == lo
      invariant more ==> out + Expansions(b, k0, j, lo, Middle(k0, k1, v'))
                         == Expansions(b, k0, j, lo, Middle(k0, k1, v))
      invariant !more ==> out == Expansions(b, k0, j, lo, Middle(k0, k1, v))
      decreases more, Pow2(j) - Middle(k0, k1, v')
    {
      AndMask(w, v', k1);
      JoinLo(k0, k1, v');
      var c := b[And(w, v', m1)];
      ghost var mid := Middle(k0, k1, v');
      ghost var rest := Expansions(b, k0, j, lo, mid + 1);
      assert Expansions(b, k0, j, lo, mid) == c + rest;
      assert out + (c + rest) == (out + c) + rest;
      out := out + c;
      MiddleStep(w, k0, k1, v');
      v' := NextExpansion(w, m0, v');
      BetweenMasks(w, k0, k1, v');
      more := And(w, v', Xor(w, m0, m1)) != 0;
      MiddleIs(k0, k1, v');
      if mid + 1 == Pow2(j) { assert rest == [] && out + rest == out; }
    }
  }

  lemma MiddleIs(k0: nat, k1: nat, v: nat)
    requires k0 <= k1
    ensures Middle(k0, k1, v) == Lo(Hi(v, k0), k1 - k0)
  {
  }

  /** dictScan */
  method Scan<K(==,!new), V>(d: Dict<K, V>, v: nat) returns (v': nat, out: Chain<K, V>)
    requires d.Valid() && v < Pow2(d.W())
    ensures d.Contents == map[] ==> v' == 0 && out == []
    ensures d.Contents != map[] ==> Sized(d.State()) && out == Emitted(d.State(), v)
    ensures forall e :: e in out ==> e.key in d.Contents && d.Contents[e.key] == e.val
    ensures forall i, j :: 0 <= i < j < |out| ==> out[i].key != out[j].key
    ensures v' == NextCursor(d.W(), d.State(), v) && v' < Pow2(d.W())
  {
    hide Lo, Hi, Pow2, And, Xor, Advance, Middle, Total, Expansions, Apart, Log2, TableOK, Lookup;
    var n := d.Size();
    ScanShape(d);
    if n == 0 { return 0, []; }
    var w := d.W();
    if !d.IsRehashing() {
      var b := d.ht0.buckets;
      IndexIsAnd(w, |b|, v);
      out := b[And(w, v, |b| - 1)];
      v' := IncrementReversed(d.logLong, |b| - 1, v);
    } else {
      var t0, t1 := d.ht0.buckets, d.ht1.buckets;
      if |t0| > |t1| { t0, t1 := d.ht1.buckets, d.ht0.buckets; }
      IndexIsAnd(w, |t0|, v);
      out := t0[And(w, v, |t0| - 1)];
      Log2Mono(|t0|, |t1|);
      var u, more := EmitExpansions(t1, w, Log2(|t0|), Log2(|t1|), v);
      out := out + more;
      AdvanceReadsLow(w, Log2(|t0|), u, v);
      v' := IncrementReversed(d.logLong, |t0| - 1, u);
    }
    HandsOverBindings(d, v);
  }

  /** The entries of one call are bindings of the dictionary, each handed over once. */
  lemma HandsOverBindings<K(!new), V>(d: Dict<K, V>, v: nat)
    requires d.Valid() && Sized(d.State())
    ensures forall e :: e in Emitted(d.State(), v) ==> e.key in d.Contents && d.Contents[e.key] == e.val
    ensures Distinct(Emitted(d.State(), v))
  {
    hide Emitted, Lookup, DictOK, Log2, Pow2, Distinct, Sized;
    EmittedAreBound(d.hash, d.State(), v);
    EmittedOnce(d.hash, d.State(), v);
    BoundInContents(d);
  }

  lemma BoundInContents<K(!new), V>(d: Dict<K, V>)
    requires d.Valid()
    ensures DictOK(d.hash, d.State())
    ensures forall k :: Lookup(d.hash, d.State(), k) == if k in d.Contents then Some(d.Contents[k]) else None
  {
  }

  /** An entry of a table is what a lookup of its key finds. */
  lemma EntryFound<K(!new), V>(hash: K -> nat, t: Table<K, V>, i: nat, e: Entry<K, V>)
    requires TableOK(hash, t) && i < |t.buckets| && e in t.buckets[i]
    ensures Index(|t.buckets|, hash(e.key)) == i && TableFind(hash, t, e.key) == Some(e.val)
  {
    hide Total, Log2, Lo, ChainFind;
    assert ChainOK(hash, |t.buckets|, i, t.buckets[i]);
    var j :| 0 <= j < |t.buckets[i]| && t.buckets[i][j] == e;
    ChainFindAt(t.buckets[i], j);
  }

  /** Which table and bucket an emitted entry comes from. */
  lemma EmittedFrom<K(!new), V>(hash: K -> nat, s: State<K, V>, v: nat, e: Entry<K, V>) returns (first: bool, i: nat)
    requires DictOK(hash, s) && Sized(s) && e in Emitted(s, v)
    ensures var t := if first then s.ht0 else s.ht1; i < |t.buckets| && e in t.buckets[i]
  {
    hide Lo, Hi, Pow2, Total, Expansions, Log2, Middle, Apart, TableOK;
    if !s.IsRehashing() {
      first, i := true, Index(|s.ht0.buckets|, v);
    } else {
      var t0, t1 := Small(s), Large(s);
      var k0, k1 := Log2(|t0.buckets|), Log2(|t1.buckets|);
      Log2Mono(|t0.buckets|, |t1.buckets|);
      if e in t0.buckets[Index(|t0.buckets|, v)] {
        first, i := t0 == s.ht0, Index(|t0.buckets|, v);
      } else {
        var m := ExpansionsCome(t1.buckets, k0, k1 - k0, Lo(v, k0), Middle(k0, k1, v), e);
        first, i := t1 == s.ht0, Join(k0, Lo(v, k0), m);
      }
    }
  }

  lemma EmittedAreBound<K(!new), V>(hash: K -> nat, s: State<K, V>, v: nat)
    requires DictOK(hash, s) && Sized(s)
    ensures forall e :: e in Emitted(s, v) ==> Lookup(hash, s, e.key) == Some(e.val)
  {
    hide Emitted, Log2, Total, ChainFind, Sized;
    forall e | e in Emitted(s, v) ensures Lookup(hash, s, e.key) == Some(e.val) {
      var first, i := EmittedFrom(hash, s, v, e);
      EntryFound(hash, if first then s.ht0 else s.ht1, i, e);
    }
  }

  /** Chains with no key in common. */
  lemma DistinctAppend<K, V>(a: Chain<K, V>, b: Chain<K, V>)
    requires Distinct(a) && Distinct(b) && forall e, f :: e in a && f in b ==> e.key != f.key
    ensures Distinct(a + b)
  {
    var c := a + b;
    forall i, j | 0 <= i < j < |c| ensures c[i].key != c[j].key {
      if i < |a| <= j { assert c[i] in a && c[j] in b; }
    }
  }

  lemma EmittedOnce<K(!new), V>(hash: K -> nat, s: State<K, V>, v: nat)
    requires DictOK(hash, s) && Sized(s)
    ensures Distinct(Emitted(s, v))
  {
    hide Lo, Hi, Pow2, Total, Expansions, Log2, Middle, Distinct, Lookup, TableFind;
    if !s.IsRehashing() {
      BucketDistinct(hash, s.ht0, Index(|s.ht0.buckets|, v));
    } else {
      var t0, t1 := Small(s), Large(s);
      var k0, k1 := Log2(|t0.buckets|), Log2(|t1.buckets|);
      Log2Mono(|t0.buckets|, |t1.buckets|);
      var a, b := t0.buckets[Index(|t0.buckets|, v)], Expansions(t1.buckets, k0, k1 - k0, Lo(v, k0), Middle(k0, k1, v));
      BucketDistinct(hash, t0, Index(|t0.buckets|, v));
      ExpansionsDistinct(hash, t1, k0, k1 - k0, Lo(v, k0), Middle(k0, k1, v));
      forall e: Entry<K, V>, f: Entry<K, V> | e in a && f in b ensures e.key != f.key {
        var m := ExpansionsCome(t1.buckets, k0, k1 - k0, Lo(v, k0), Middle(k0, k1, v), f);
        EntryFound(hash, t0, Index(|t0.buckets|, v), e);
        EntryFound(hash, t1, Join(k0, Lo(v, k0), m), f);
        if e.key == f.key { OnlyOneTable(hash, s, f.key); }
      }
      DistinctAppend(a, b);
    }
  }

  lemma BucketDistinct<K(!new), V>(hash: K -> nat, t: Table<K, V>, i: nat)
    requires TableOK(hash, t) && i < |t.buckets|
    ensures Distinct(t.buckets[i])
  {
    hide Total, Log2;
    assert ChainOK(hash, |t.buckets|, i, t.buckets[i]);
  }

  /** Different expansions are different buckets, so their entries have different keys. */
  lemma {:induction false} ExpansionsDistinct<K(!new), V>(hash: K -> nat, t: Table<K, V>, k0: nat, j: nat, lo: nat, c: nat)
    requires TableOK(hash, t) && |t.buckets| == Pow2(k0 + j) && lo < Pow2(k0)
    ensures Distinct(Expansions(t.buckets, k0, j, lo, c))
    decreases Pow2(j) - c
  {
    hide Join, Pow2, Expansions, Distinct, TableOK, TableFind, Index;
    var b := t.buckets;
    ExpandOnce(b, k0, j, lo, c);
    if c < Pow2(j) {
      ExpansionsDistinct(hash, t, k0, j, lo, c + 1);
      BucketDistinct(hash, t, Join(k0, lo, c));
      var x, y := b[Join(k0, lo, c)], Expansions(b, k0, j, lo, c + 1);
      forall e: Entry<K, V>, f: Entry<K, V> | e in x && f in y ensures e.key != f.key {
        var m := ExpansionsCome(b, k0, j, lo, c + 1, f);
        EntryFound(hash, t, Join(k0, lo, c), e);
        EntryFound(hash, t, Join(k0, lo, m), f);
        JoinParts(k0, lo, c, j);
        JoinParts(k0, lo, m, j);
      }
      DistinctAppend(x, y);
    } else {
      EmptyDistinct<K, V>();
    }
  }

  lemma EmptyDistinct<K, V>()
    ensures Distinct<K, V>([])
  {
  }

  lemma ScanShape<K(!new), V>(d: Dict<K, V>)
    requires d.Valid()
    ensures |d.Contents| == d.ht0.used + d.ht1.used
    ensures d.Contents != map[] ==> Sized(d.State())
    ensures |d.Contents| == 0 <==> d.Contents == map[]
  {
    hide Log2, Pow2, Apart, TableFind;
    if d.Contents != map[] {
      var k :| k in d.Contents;
      assert |d.Contents| > 0;
      if |d.ht0.buckets| == 0 { d.EmptyHasNoKeys(k); }
    }
  }

  // ---------------------------------------------------------------------
  // What a call emits

  ghost predicate EmitsKey<K, V>(s: State<K, V>, v: nat, k: K)
  {
    Sized(s) && exists i :: 0 <= i < |Emitted(s, v)| && Emitted(s, v)[i].key == k
  }

  /** The cursor's bits between the two masks are all ones, or the dictionary is not being rehashed. */
  predicate SafeCursor<K, V>(s: State<K, V>, v: nat)
  {
    s.IsRehashing() && s.SmallSize() > 0 ==>
      Log2(s.SmallSize()) <= Log2(s.LargeSize())
      && AllOnes(Middle(Log2(s.SmallSize()), Log2(s.LargeSize()), v))
  }

  lemma {:induction false} ExpansionsReach<K, V>(b: seq<Chain<K, V>>, k0: nat, j: nat, lo: nat, c: nat, m: nat, e: Entry<K, V>)
    requires |b| == Pow2(k0 + j) && lo < Pow2(k0) && c <= m < Pow2(j)
    requires Join(k0, lo, m) < |b| && e in b[Join(k0, lo, m)]
    ensures e in Expansions(b, k0, j, lo, c)
    decreases m - c
  {
    hide Join, Pow2;
    if c < m { ExpansionsReach(b, k0, j, lo, c + 1, m, e); }
  }

  lemma {:induction false} ExpansionsCome<K, V>(b: seq<Chain<K, V>>, k0: nat, j: nat, lo: nat, c: nat, e: Entry<K, V>) returns (m: nat)
    requires |b| == Pow2(k0 + j) && lo < Pow2(k0) && e in Expansions(b, k0, j, lo, c)
    ensures c <= m < Pow2(j) && Join(k0, lo, m) < |b| && e in b[Join(k0, lo, m)]
    decreases Pow2(j) - c
  {
    hide Join, Pow2, Expansions;
    ExpandOnce(b, k0, j, lo, c);
    if e in b[Join(k0, lo, c)] { m := c; } else { m := ExpansionsCome(b, k0, j, lo, c + 1, e); }
  }

  lemma ExpandOnce<K, V>(b: seq<Chain<K, V>>, k0: nat, j: nat, lo: nat, c: nat)
    requires |b| == Pow2(k0 + j) && lo < Pow2(k0)
    ensures c >= Pow2(j) ==> Expansions(b, k0, j, lo, c) == []
    ensures c < Pow2(j) ==> Join(k0, lo, c) < |b|
    ensures c < Pow2(j) ==> Expansions(b, k0, j, lo, c) == b[Join(k0, lo, c)] + Expansions(b, k0, j, lo, c + 1)
  {
    hide Join, Pow2;
    if c < Pow2(j) { JoinParts(k0, lo, c, j); }
  }

  /** Does a call with cursor v look into the bucket that holds k? */
  ghost predicate LooksAt<K(!new), V>(hash: K -> nat, s: State<K, V>, v: nat, k: K)
    requires DictOK(hash, s) && Sized(s)
  {
    if !s.IsRehashing() then Index(|s.ht0.buckets|, hash(k)) == Index(|s.ht0.buckets|, v)
    else
      var k0, k1 := Log2(|Small(s).buckets|), Log2(|Large(s).buckets|);
      Log2Mono(|Small(s).buckets|, |Large(s).buckets|);
      if TableFind(hash, Small(s), k) != None then Lo(hash(k), k0) == Lo(v, k0) else Visited(k0, k1, v, hash(k))
  }

  /** A call hands a bound key over if and only if it looks into its bucket. */
  lemma EmitsIff<K(!new), V>(hash: K -> nat, s: State<K, V>, v: nat, k: K)
    requires DictOK(hash, s) && Lookup(hash, s, k) != None
    ensures Sized(s) && (EmitsKey(s, v, k) <==> LooksAt(hash, s, v, k))
  {
    hide Lo, Hi, Pow2, Total, Expansions, Log2, Middle, LooksAt, Emitted, ChainFind;
    BoundIsSized(hash, s, k);
    if LooksAt(hash, s, v, k) { LookedAtIsEmitted(hash, s, v, k); }
    if EmitsKey(s, v, k) {
      var i :| 0 <= i < |Emitted(s, v)| && Emitted(s, v)[i].key == k;
      EmittedIsLookedAt(hash, s, v, Emitted(s, v)[i]);
    }
  }

  lemma LookedAtIsEmitted<K(!new), V>(hash: K -> nat, s: State<K, V>, v: nat, k: K)
    requires DictOK(hash, s) && Lookup(hash, s, k) != None && Sized(s) && LooksAt(hash, s, v, k)
    ensures EmitsKey(s, v, k)
  {
    hide Lo, Hi, Pow2, Total, Expansions, Log2, Middle, Apart, ChainOK;
    var h := hash(k);
    if !s.IsRehashing() {
      var e := FoundEntry(hash, s.ht0, k);
      Holds(Emitted(s, v), e);
    } else {
      var t0, t1 := Small(s), Large(s);
      var k0, k1 := Log2(|t0.buckets|), Log2(|t1.buckets|);
      Log2Mono(|t0.buckets|, |t1.buckets|);
      if TableFind(hash, t0, k) != None {
        var e := FoundEntry(hash, t0, k);
        Holds(Emitted(s, v), e);
      } else {
        var e := FoundEntry(hash, t1, k);
        JoinLo(k0, k1, h);
        VisitedParts(k0, k1, v, h);
        ExpansionsReach(t1.buckets, k0, k1 - k0, Lo(v, k0), Middle(k0, k1, v), Middle(k0, k1, h), e);
        Holds(Emitted(s, v), e);
      }
    }
  }

  lemma FoundEntry<K(!new), V>(hash: K -> nat, t: Table<K, V>, k: K) returns (e: Entry<K, V>)
    requires TableOK(hash, t) && TableFind(hash, t, k) != None
    ensures |t.buckets| > 0 && e.key == k && e in t.buckets[Index(|t.buckets|, hash(k))]
  {
    var c := t.buckets[Index(|t.buckets|, hash(k))];
    var j := ChainFindIn(c, k);
    e := c[j];
  }

  lemma Holds<K, V>(c: Chain<K, V>, e: Entry<K, V>)
    requires e in c
    ensures exists i :: 0 <= i < |c| && c[i].key == e.key
  {
    var i :| 0 <= i < |c| && c[i] == e;
  }

  lemma EmittedIsLookedAt<K(!new), V>(hash: K -> nat, s: State<K, V>, v: nat, e: Entry<K, V>)
    requires DictOK(hash, s) && Sized(s) && e in Emitted(s, v)
    ensures LooksAt(hash, s, v, e.key)
  {
    hide Lo, Hi, Pow2, Total, Expansions, Log2, Middle, Apart;
    var h := hash(e.key);
    if !s.IsRehashing() {
      InOwnBucket(hash, s.ht0, Index(|s.ht0.buckets|, v), e);
    } else {
      var t0, t1 := Small(s), Large(s);
      var k0, k1 := Log2(|t0.buckets|), Log2(|t1.buckets|);
      Log2Mono(|t0.buckets|, |t1.buckets|);
      if e in t0.buckets[Index(|t0.buckets|, v)] {
        InOwnBucket(hash, t0, Index(|t0.buckets|, v), e);
      } else {
        var m := ExpansionsCome(t1.buckets, k0, k1 - k0, Lo(v, k0), Middle(k0, k1, v), e);
        InOwnBucket(hash, t1, Join(k0, Lo(v, k0), m), e);
        OnlyOneTable(hash, s, e.key);
        SameParts(k0, k1, Lo(v, k0), m, h);
      }
    }
  }

  /** Where an expansion of a small bucket lies tells both parts of the hash. */
  lemma SameParts(k0: nat, k1: nat, lo: nat, m: nat, h: nat)
    requires k0 <= k1 && lo < Pow2(k0) && m < Pow2(k1 - k0) && Lo(h, k1) == Join(k0, lo, m)
    ensures Lo(h, k0) == lo && Middle(k0, k1, h) == m
  {
    hide Lo, Hi, Pow2, Join;
    JoinParts(k0, lo, m, k1 - k0);
    HiHi(h, k0, k1 - k0);
  }

  lemma InOwnBucket<K(!new), V>(hash: K -> nat, t: Table<K, V>, i: nat, e: Entry<K, V>)
    requires TableOK(hash, t) && i < |t.buckets| && e in t.buckets[i]
    ensures Index(|t.buckets|, hash(e.key)) == i && TableFind(hash, t, e.key) != None
  {
    hide Total, Log2, Lo, ChainFind;
    assert ChainOK(hash, |t.buckets|, i, t.buckets[i]);
    var j :| 0 <= j < |t.buckets[i]| && t.buckets[i][j] == e;
    ChainFindAt(t.buckets[i], j);
  }

  lemma OnlyOneTable<K(!new), V>(hash: K -> nat, s: State<K, V>, k: K)
    requires DictOK(hash, s) && TableFind(hash, Large(s), k) != None
    ensures TableFind(hash, Small(s), k) == None
  {
    hide TableOK, TableFind;
    assert TableFind(hash, s.ht0, k) == None || TableFind(hash, s.ht1, k) == None;
  }

  /** A bound key that the call sweeps over is handed to the callback. */
  lemma SweptIsEmitted<K(!new), V>(hash: K -> nat, w: nat, s: State<K, V>, v: nat, k: K)
    requires DictOK(hash, s) && Log2(|s.ht0.buckets|) <= w && Log2(|s.ht1.buckets|) <= w
    requires Lookup(hash, s, k) != None && SafeCursor(s, v)
    requires Swept(w, v, NextCursor(w, s, v), hash(k))
    ensures EmitsKey(s, v, k)
  {
    hide Lo, Hi, Pow2, Rev, Advance, Total, Log2, Middle, AllOnes, Swept, EmitsKey, TableFind, Apart;
    BoundIsSized(hash, s, k);
    EmitsIff(hash, s, v, k);
    if !s.IsRehashing() {
      SweptSharesBucket(w, Log2(|s.ht0.buckets|), v, hash(k));
    } else {
      var k0, k1 := Log2(|Small(s).buckets|), Log2(|Large(s).buckets|);
      SweptIsVisited(w, k0, k1, v, hash(k));
    }
  }

  lemma VisitedParts(k0: nat, k1: nat, v: nat, h: nat)
    requires k0 <= k1 && Visited(k0, k1, v, h)
    ensures Lo(h, k0) == Lo(v, k0) && Middle(k0, k1, v) <= Middle(k0, k1, h)
  {
  }

  lemma BoundIsSized<K(!new), V>(hash: K -> nat, s: State<K, V>, k: K)
    requires DictOK(hash, s) && Lookup(hash, s, k) != None
    ensures Sized(s) && s.SmallSize() > 0 && s.ht0.used + s.ht1.used > 0
  {
    hide Log2, Apart, Total;
    var first := TableFind(hash, s.ht0, k) != None;
    var t := if first then s.ht0 else s.ht1;
    var i := Index(|t.buckets|, hash(k));
    TotalUpdate(t.buckets, i, []);
  }

  // ---------------------------------------------------------------------
  // Histories

  /**
    A history of the dictionary: states[i] is the state before step i. At a step with
    scans[i] the client calls dictScan with the cursor it got last (0 at first); at any
    other step the dictionary changes in whatever way its operations change it.
   */
  ghost predicate History<K(!new), V>(hash: K -> nat, w: nat, states: seq<State<K, V>>, scans: seq<bool>, cursors: seq<nat>)
  {
    && |states| == |scans| && |cursors| == |scans| + 1
    && cursors[0] == 0
    && (forall i :: 0 <= i < |states| ==>
          && DictOK(hash, states[i])
          && Log2(|states[i].ht0.buckets|) <= w && Log2(|states[i].ht1.buckets|) <= w)
    && (forall i :: 0 <= i < |scans| ==>
          cursors[i + 1] == if scans[i] then NextCursor(w, states[i], cursors[i]) else cursors[i])
  }

  /** Every scan call of the history was made with a safe cursor. */
  ghost predicate SafeCalls<K, V>(states: seq<State<K, V>>, scans: seq<bool>, cursors: seq<nat>)
  {
    |states| == |scans| && |cursors| == |scans| + 1
    && forall i :: 0 <= i < |states| && scans[i] ==> SafeCursor(states[i], cursors[i])
  }

  ghost predicate PresentThroughout<K(!new), V>(hash: K -> nat, states: seq<State<K, V>>, k: K)
  {
    forall i :: 0 <= i < |states| ==> DictOK(hash, states[i]) && Lookup(hash, states[i], k) != None
  }

  ghost predicate EmittedBefore<K, V>(states: seq<State<K, V>>, scans: seq<bool>, cursors: seq<nat>, n: nat, k: K)
    requires |states| == |scans| && |cursors| == |scans| + 1
  {
    exists i :: 0 <= i < n && i < |states| && scans[i] && EmitsKey(states[i], cursors[i], k)
  }

  /** The invariant of an iteration: what is before the cursor in reversed order has been emitted. */
  lemma {:induction false} BehindCursorIsEmitted<K(!new), V>(
      hash: K -> nat, w: nat, states: seq<State<K, V>>, scans: seq<bool>, cursors: seq<nat>, n: nat, k: K)
    requires History(hash, w, states, scans, cursors) && SafeCalls(states, scans, cursors)
    requires PresentThroughout(hash, states, k) && n <= |states|
    ensures Rev(w, hash(k)) < Rev(w, cursors[n]) ==> EmittedBefore(states, scans, cursors, n, k)
    ensures n > 0 && scans[n - 1] && cursors[n] == 0 ==> EmittedBefore(states, scans, cursors, n, k)
    decreases n
  {
    hide Rev, Pow2, Log2, DictOK, EmitsKey, NextCursor, SafeCursor;
    if n == 0 {
      RevConstants(w);
    } else {
      var i := n - 1;
      BehindCursorIsEmitted(hash, w, states, scans, cursors, i, k);
      if scans[i] && !(Rev(w, hash(k)) < Rev(w, cursors[i])) && (cursors[n] == 0 || Rev(w, hash(k)) < Rev(w, cursors[n])) {
        SweptIsEmitted(hash, w, states[i], cursors[i], k);
      }
    }
  }

  /**
    Completeness of dictScan. Over every history whose scan calls have safe cursors, once a
    call returns 0 every key that was present throughout has been handed to the callback.
   */
  lemma ScanComplete<K(!new), V>(
      hash: K -> nat, w: nat, states: seq<State<K, V>>, scans: seq<bool>, cursors: seq<nat>, n: nat, k: K)
    requires History(hash, w, states, scans, cursors) && SafeCalls(states, scans, cursors)
    requires PresentThroughout(hash, states, k)
    requires 0 < n <= |states| && scans[n - 1] && cursors[n] == 0
    ensures EmittedBefore(states, scans, cursors, n, k)
  {
    hide Rev, Pow2, Log2, DictOK, EmitsKey, NextCursor, SafeCursor;
    BehindCursorIsEmitted(hash, w, states, scans, cursors, n, k);
  }

  /** Only growing resizes, as every operation but dictResize guarantees. */
  ghost predicate GrowingHistory<K, V>(states: seq<State<K, V>>)
  {
    && (|states| > 0 ==> Growing(states[0]))
    && forall i :: 0 <= i < |states| - 1 ==> GrowStep(states[i], states[i + 1])
  }

  /** In a growing history the cursor never has bits above the smaller mask. */
  lemma {:induction false} GrowingKeepsCursorLow<K(!new), V>(
      hash: K -> nat, w: nat, states: seq<State<K, V>>, scans: seq<bool>, cursors: seq<nat>, i: nat)
    requires History(hash, w, states, scans, cursors) && GrowingHistory(states) && i < |states|
    ensures Growing(states[i])
    ensures cursors[i] == 0 || cursors[i] < states[i].SmallSize()
    decreases i
  {
    hide Rev, Pow2, Log2, Advance;
    if i != 0 {
      GrowingKeepsCursorLow(hash, w, states, scans, cursors, i - 1);
      var s := states[i - 1];
      assert GrowStep(s, states[i - 1 + 1]);
      if scans[i - 1] && NextCursor(w, s, cursors[i - 1]) != 0 {
        SmallIsPow2(hash, s);
        Log2Mono(s.SmallSize(), |s.ht0.buckets|);
        AdvanceLow(w, Log2(s.SmallSize()), cursors[i - 1]);
      }
    }
  }

  lemma SmallIsPow2<K(!new), V>(hash: K -> nat, s: State<K, V>)
    requires DictOK(hash, s)
    ensures s.SmallSize() > 0 ==> IsPow2(s.SmallSize()) && Log2(s.SmallSize()) <= Log2(s.LargeSize())
    ensures s.SmallSize() <= s.LargeSize()
  {
    hide Log2, Pow2, Apart;
    Log2Mono(s.SmallSize(), s.LargeSize());
  }

  /** dictScan is complete over every history of adds, deletes, lookups, rehash steps and growing resizes. */
  lemma GrowingScanComplete<K(!new), V>(
      hash: K -> nat, w: nat, states: seq<State<K, V>>, scans: seq<bool>, cursors: seq<nat>, n: nat, k: K)
    requires History(hash, w, states, scans, cursors) && GrowingHistory(states)
    requires PresentThroughout(hash, states, k)
    requires 0 < n <= |states| && scans[n - 1] && cursors[n] == 0
    ensures EmittedBefore(states, scans, cursors, n, k)
  {
    hide Rev, Pow2, Log2, Advance, EmitsKey, AllOnes, Middle, NextCursor;
    forall i | 0 <= i < |states| && scans[i] ensures SafeCursor(states[i], cursors[i]) {
      var s := states[i];
      GrowingKeepsCursorLow(hash, w, states, scans, cursors, i);
      SmallIsPow2(hash, s);
      if s.SmallSize() > 0 {
        var k0, k1 := Log2(s.SmallSize()), Log2(s.LargeSize());
        assert cursors[i] < Pow2(k0);
        LowCursorIsSafe(k0, k1, cursors[i]);
      }
    }
    ScanComplete(hash, w, states, scans, cursors, n, k);
  }

  /** Every rehash seen by a scan call is between sizes a factor of two apart. */
  ghost predicate DoublingHistory<K, V>(states: seq<State<K, V>>, scans: seq<bool>)
    requires |states| == |scans|
  {
    forall i :: 0 <= i < |states| && scans[i] && states[i].IsRehashing() ==> states[i].LargeSize() <= 2 * states[i].SmallSize()
  }

  /** Shrinking by a factor of two at a time, or only between calls, is harmless too. */
  lemma DoublingScanComplete<K(!new), V>(
      hash: K -> nat, w: nat, states: seq<State<K, V>>, scans: seq<bool>, cursors: seq<nat>, n: nat, k: K)
    requires History(hash, w, states, scans, cursors) && DoublingHistory(states, scans)
    requires PresentThroughout(hash, states, k)
    requires 0 < n <= |states| && scans[n - 1] && cursors[n] == 0
    ensures EmittedBefore(states, scans, cursors, n, k)
  {
    hide Rev, Pow2, Log2, Advance, EmitsKey, AllOnes, Middle, NextCursor;
    forall i | 0 <= i < |states| && scans[i] ensures SafeCursor(states[i], cursors[i]) {
      var s := states[i];
      SmallIsPow2(hash, s);
      if s.IsRehashing() && s.SmallSize() > 0 {
        var k0, k1 := Log2(s.SmallSize()), Log2(s.LargeSize());
        Log2Double(s.SmallSize(), s.LargeSize());
        DoublingIsSafe(k0, k1, cursors[i]);
      }
    }
    ScanComplete(hash, w, states, scans, cursors, n, k);
  }

  lemma Log2Double(a: nat, b: nat)
    requires 0 < a && b <= 2 * a
    ensures Log2(b) <= Log2(a) + 1
  {
    Log2Mono(b, 2 * a);
  }

  // ---------------------------------------------------------------------
  // Progress

  function Calls(scans: seq<bool>, n: nat): nat
    requires n <= |scans|
  {
    if n == 0 then 0 else Calls(scans, n - 1) + if scans[n - 1] then 1 else 0
  }

  lemma AdvanceCounts(w: nat, k: nat, K: nat, v: nat)
    requires k <= K <= w && Advance(w, Pow2(k) - 1, v) != 0
    ensures Hi(Rev(w, v), w - K) < Hi(Rev(w, Advance(w, Pow2(k) - 1, v)), w - K)
  {
    hide Rev, Pow2, Advance, Hi, Lo;
    var v' := Advance(w, Pow2(k) - 1, v);
    var n := w - K;
    AdvanceBlocks(w, k, v);
    AdvanceForward(w, k, v);
    HiHi(Rev(w, v'), n, K - k);
    HiZero(n);
    HiMono(Rev(w, v), Rev(w, v'), n);
    if Hi(Rev(w, v), n) == Hi(Rev(w, v'), n) {
      HiMono(Rev(w, v), Rev(w, v'), n);
      HiLoExt(Rev(w, v), Rev(w, v'), n);
    }
  }

  /**
    An iteration ends: if the smaller table never has more than 2^K buckets when dictScan is
    called, fewer than 2^K calls in a row can return a non-zero cursor.
   */
  lemma {:induction false} ScanTerminates<K(!new), V>(
      hash: K -> nat, w: nat, states: seq<State<K, V>>, scans: seq<bool>, cursors: seq<nat>, n: nat, B: nat)
    requires History(hash, w, states, scans, cursors) && n <= |states| && B <= w
    requires forall i :: 0 <= i < n && scans[i] ==> cursors[i + 1] != 0 && Log2(states[i].SmallSize()) <= B
    ensures Calls(scans, n) <= Hi(Rev(w, cursors[n]), w - B) < Pow2(B)
    decreases n
  {
    hide Rev, Pow2, Advance, Hi, Lo, Log2;
    HiBound(Rev(w, cursors[n]), w - B, B);
    if n != 0 {
      ScanTerminates(hash, w, states, scans, cursors, n - 1, B);
      var s := states[n - 1];
      if scans[n - 1] {
        SmallIsPow2(hash, s);
        AdvanceCounts(w, Log2(s.SmallSize()), B, cursors[n - 1]);
      }
    }
  }
}
