/**
  The slot table of Redis Cluster (cluster.c): who serves which hash slot, kept
  both in a table and in a bitmap and a counter per node, and how ownership
  spreads with the config epochs.
 */
module ClusterSlots {
  import opened Basics

  const SLOTS: nat := 16384
  const BITMAP_BYTES: nat := 2048

  // ---------------------------------------------------------------------
  // Bitmaps

  type Bitmap = seq<bv8>

  /** 1 << bit */
  function Mask(bit: nat): bv8
  {
    if bit == 0 then 1 else if bit == 1 then 2 else if bit == 2 then 4 else if bit == 3 then 8
    else if bit == 4 then 16 else if bit == 5 then 32 else if bit == 6 then 64 else 128
  }

  predicate ByteBit(x: bv8, i: nat) { x & Mask(i) != 0 }

  function ByteSet(x: bv8, i: nat): bv8 { x | Mask(i) }

  function ByteClear(x: bv8, i: nat): bv8 { x & !Mask(i) }

  /** bitmapTestBit */
  predicate TestBit(b: Bitmap, pos: nat)
    requires |b| == BITMAP_BYTES && pos < SLOTS
  {
    ByteBit(b[pos / 8], pos % 8)
  }

  /** bitmapSetBit */
  function SetBit(b: Bitmap, pos: nat): (r: Bitmap)
    requires |b| == BITMAP_BYTES && pos < SLOTS
    ensures |r| == |b|
  {
    b[pos / 8 := ByteSet(b[pos / 8], pos % 8)]
  }

  /** bitmapClearBit */
  function ClearBit(b: Bitmap, pos: nat): (r: Bitmap)
    requires |b| == BITMAP_BYTES && pos < SLOTS
    ensures |r| == |b|
  {
    b[pos / 8 := ByteClear(b[pos / 8], pos % 8)]
  }

  lemma ByteBits(x: bv8, i: nat, j: nat)
    requires i < 8 && j < 8
    ensures ByteBit(ByteSet(x, i), j) <==> (i == j || ByteBit(x, j))
    ensures ByteBit(ByteClear(x, i), j) <==> (i != j && ByteBit(x, j))
  {
    MaskBits(i, j);
    OrAnd(x, Mask(i), Mask(j));
    AndNotAnd(x, Mask(i), Mask(j));
  }

  lemma MaskBits(i: nat, j: nat)
    requires i < 8 && j < 8
    ensures i == j ==> Mask(i) & Mask(j) == Mask(j) && Mask(j) != 0
    ensures i != j ==> Mask(i) & Mask(j) == 0
  {
  }

  lemma OrAnd(x: bv8, m: bv8, k: bv8)
    ensures (x | m) & k == (x & k) | (m & k)
    ensures k != 0 ==> (x & k) | k != 0
  {
  }

  lemma AndNotAnd(x: bv8, m: bv8, k: bv8)
    ensures m & k == 0 ==> (x & !m) & k == x & k
    ensures m == k ==> (x & !m) & k == 0
  {
  }

  /** Setting or clearing a bit changes that bit only. */
  lemma BitsAfter(b: Bitmap, pos: nat, j: nat)
    requires |b| == BITMAP_BYTES && pos < SLOTS && j < SLOTS
    ensures TestBit(SetBit(b, pos), j) <==> (j == pos || TestBit(b, j))
    ensures TestBit(ClearBit(b, pos), j) <==> (j != pos && TestBit(b, j))
  {
    hide ByteBit, ByteSet, ByteClear;
    ByteBits(b[pos / 8], pos % 8, j % 8);
  }

  /** How many of the first k bits are set. */
  function Population(b: Bitmap, k: nat): nat
    requires |b| == BITMAP_BYTES && k <= SLOTS
  {
    if k == 0 then 0 else Population(b, k - 1) + if TestBit(b, k - 1) then 1 else 0
  }

  lemma {:induction false} PopulationAfter(b: Bitmap, pos: nat, k: nat)
    requires |b| == BITMAP_BYTES && pos < SLOTS && k <= SLOTS
    ensures Population(SetBit(b, pos), k) == Population(b, k) + if pos < k && !TestBit(b, pos) then 1 else 0
    ensures Population(ClearBit(b, pos), k) == Population(b, k) - if pos < k && TestBit(b, pos) then 1 else 0
  {
    hide TestBit, SetBit, ClearBit;
    if k != 0 {
      PopulationAfter(b, pos, k - 1);
      BitsAfter(b, pos, k - 1);
    }
  }

  lemma {:induction false} PopulationZero(b: Bitmap, k: nat)
    requires |b| == BITMAP_BYTES && k <= SLOTS
    ensures Population(b, k) == 0 <==> forall j :: 0 <= j < k ==> !TestBit(b, j)
  {
    if k != 0 { PopulationZero(b, k - 1); }
  }

  // ---------------------------------------------------------------------
  // The table

  datatype NodeInfo = NodeInfo(bitmap: Bitmap, numslots: nat, configEpoch: nat)

  /** Table, bitmaps and counters say the same; in particular a slot has at most one owner. */
  ghost predicate TableOK(slots: seq<Option<nat>>, nodes: seq<NodeInfo>)
  {
    && |slots| == SLOTS
    && (forall j :: 0 <= j < SLOTS && slots[j] != None ==> slots[j].value < |nodes|)
    && (forall n :: 0 <= n < |nodes| ==>
          |nodes[n].bitmap| == BITMAP_BYTES && nodes[n].numslots == Population(nodes[n].bitmap, SLOTS))
    && (forall n, j :: 0 <= n < |nodes| && 0 <= j < SLOTS ==> (TestBit(nodes[n].bitmap, j) <==> slots[j] == Some(n)))
  }

  /** The owner of one slot after a claim: lines 1454-1484. */
  function AfterClaim(owner: Option<nat>, sender: nat, senderEpoch: nat, ownerEpoch: nat): Option<nat>
  {
    if owner == None || ownerEpoch < senderEpoch then Some(sender) else owner
  }

  datatype Verdict = Kept | Demoted | NullMaster

  class Cluster {
    /** index of `myself` in nodes */
    const me: nat
    var slots: seq<Option<nat>>
    var nodes: seq<NodeInfo>
    /** importing_slots_from and migrating_slots_to */
    var importing: seq<Option<nat>>
    var migrating: seq<Option<nat>>

    ghost predicate Valid()
      reads this
    {
      TableOK(slots, nodes) && me < |nodes| && |importing| == |migrating| == SLOTS
    }

    /** Nodes with the given epochs and no slots assigned. */
    constructor (me: nat, epochs: seq<nat>)
      requires me < |epochs|
      ensures Valid() && this.me == me && |nodes| == |epochs|
      ensures forall j :: 0 <= j < SLOTS ==> slots[j] == None && importing[j] == None && migrating[j] == None
      ensures forall n :: 0 <= n < |epochs| ==> nodes[n].configEpoch == epochs[n]
    {
      this.me := me;
      slots := seq(SLOTS, _ => None);
      importing := seq(SLOTS, _ => None);
      migrating := importing;
      var empty: Bitmap := seq(BITMAP_BYTES, _ => 0);
      nodes := seq(|epochs|, i requires 0 <= i < |epochs| => NodeInfo(empty, 0, epochs[i]));
      EmptyBitmap(empty);
    }

    /** What slot operations keep besides Valid: epochs and importing marks. */
    ghost predicate SameEpochs(before: seq<NodeInfo>)
      reads this
    {
      |nodes| == |before| && forall n :: 0 <= n < |nodes| ==> nodes[n].configEpoch == before[n].configEpoch
    }

    /** clusterNodeSetSlotBit */
    method SetSlotBit(n: nat, slot: nat) returns (was: bool)
      requires n < |nodes| && |nodes[n].bitmap| == BITMAP_BYTES && slot < SLOTS
      requires nodes[n].numslots == Population(nodes[n].bitmap, SLOTS)
      modifies this`nodes
      ensures was == TestBit(old(nodes)[n].bitmap, slot)
      ensures |nodes| == |old(nodes)| && nodes == old(nodes)[n := nodes[n]]
      ensures nodes[n].bitmap == SetBit(old(nodes)[n].bitmap, slot) && nodes[n].configEpoch == old(nodes)[n].configEpoch
      ensures nodes[n].numslots == Population(nodes[n].bitmap, SLOTS)
    {
      hide TestBit, SetBit, Population;
      var info := nodes[n];
      was := TestBit(info.bitmap, slot);
      PopulationAfter(info.bitmap, slot, SLOTS);
      info := info.(bitmap := SetBit(info.bitmap, slot));
      if !was { info := info.(numslots := info.numslots + 1); }
      nodes := nodes[n := info];
    }

    /** clusterNodeClearSlotBit */
    method ClearSlotBit(n: nat, slot: nat) returns (was: bool)
      requires n < |nodes| && |nodes[n].bitmap| == BITMAP_BYTES && slot < SLOTS
      requires nodes[n].numslots == Population(nodes[n].bitmap, SLOTS)
      modifies this`nodes
      ensures was == TestBit(old(nodes)[n].bitmap, slot)
      ensures |nodes| == |old(nodes)| && nodes == old(nodes)[n := nodes[n]]
      ensures nodes[n].bitmap == ClearBit(old(nodes)[n].bitmap, slot) && nodes[n].configEpoch == old(nodes)[n].configEpoch
      ensures nodes[n].numslots == Population(nodes[n].bitmap, SLOTS)
    {
      hide TestBit, ClearBit, Population;
      var info := nodes[n];
      was := TestBit(info.bitmap, slot);
      PopulationAfter(info.bitmap, slot, SLOTS);
      info := info.(bitmap := ClearBit(info.bitmap, slot));
      if was { info := info.(numslots := info.numslots - 1); }
      nodes := nodes[n := info];
    }

    /** clusterAddSlot */
    method AddSlot(n: nat, slot: nat) returns (ok: bool)
      requires Valid() && n < |nodes| && slot < SLOTS
      modifies this`slots, this`nodes
      ensures Valid() && SameEpochs(old(nodes)) && ok == (old(slots)[slot] == None)
      ensures slots == if ok then old(slots)[slot := Some(n)] else old(slots)
    {
      hide TestBit, SetBit, Population;
      if slots[slot] != None { return false; }
      ghost var before := nodes;
      var _ := SetSlotBit(n, slot);
      slots := slots[slot := Some(n)];
      forall j | 0 <= j < SLOTS ensures TestBit(nodes[n].bitmap, j) <==> (j == slot || TestBit(before[n].bitmap, j)) {
        BitsAfter(before[n].bitmap, slot, j);
      }
      return true;
    }

    /** clusterDelSlot */
    method DelSlot(slot: nat) returns (ok: bool)
      requires Valid() && slot < SLOTS
      modifies this`slots, this`nodes
      ensures Valid() && SameEpochs(old(nodes)) && ok == (old(slots)[slot] != None)
      ensures slots == old(slots)[slot := None]
    {
      hide TestBit, ClearBit, Population;
      if slots[slot] == None {
        assert slots[slot := None] == slots;
        return false;
      }
      var n := slots[slot].value;
      ghost var before := nodes;
      var was := ClearSlotBit(n, slot);
      assert was;  // the assertion in clusterDelSlot
      slots := slots[slot := None];
      forall j | 0 <= j < SLOTS ensures TestBit(nodes[n].bitmap, j) <==> (j != slot && TestBit(before[n].bitmap, j)) {
        BitsAfter(before[n].bitmap, slot, j);
      }
      return true;
    }

    /** clusterDelNodeSlots; the count returned is of loop turns, not of the node's slots. */
    method DelNodeSlots(n: nat) returns (deleted: nat)
      requires Valid() && n < |nodes|
      modifies this`slots, this`nodes
      ensures Valid() && SameEpochs(old(nodes))
      ensures forall j :: 0 <= j < SLOTS ==> slots[j] == if old(slots)[j] == Some(n) then None else old(slots)[j]
      ensures nodes[n].numslots == 0 && deleted == SLOTS
    {
      hide TestBit, Population;
      deleted := 0;
      var j := 0;
      while j < SLOTS
        invariant deleted == j <= SLOTS && Valid() && SameEpochs(old(nodes))
        invariant forall i :: 0 <= i < j ==> slots[i] == if old(slots)[i] == Some(n) then None else old(slots)[i]
        invariant forall i :: j <= i < SLOTS ==> slots[i] == old(slots)[i]
      {
        if TestBit(nodes[n].bitmap, j) {
          var _ := DelSlot(j);
        }
        deleted := deleted + 1;
        j := j + 1;
      }
      NoSlots(slots, nodes, n);
    }

    /** The slot loop of clusterDelNode. */
    method DelNode(n: nat)
      requires Valid() && n < |nodes|
      modifies this
      ensures Valid() && SameEpochs(old(nodes))
      ensures slots == Without(old(slots), n) && importing == Without(old(importing), n)
      ensures migrating == Without(old(migrating), n) && nodes[n].numslots == 0
    {
      hide TestBit, Population;
      var j := 0;
      while j < SLOTS
        invariant j <= SLOTS && Valid() && SameEpochs(old(nodes))
        invariant slots[..j] == Without(old(slots), n)[..j] && slots[j..] == old(slots)[j..]
        invariant importing[..j] == Without(old(importing), n)[..j] && importing[j..] == old(importing)[j..]
        invariant migrating[..j] == Without(old(migrating), n)[..j] && migrating[j..] == old(migrating)[j..]
      {
        WithoutStep(old(slots), slots, n, j);
        WithoutStep(old(importing), importing, n, j);
        WithoutStep(old(migrating), migrating, n, j);
        if importing[j] == Some(n) { importing := importing[j := None]; }
        if migrating[j] == Some(n) { migrating := migrating[j := None]; }
        if slots[j] == Some(n) {
          var _ := DelSlot(j);
        }
        j := j + 1;
      }
      assert slots == slots[..j] && importing == importing[..j] && migrating == migrating[..j];
      NoSlots(slots, nodes, n);
    }

    /** The slot loop of clusterFailoverReplaceYourMaster. */
    method ReplaceMaster(oldmaster: nat)
      requires Valid() && oldmaster < |nodes| && oldmaster != me
      modifies this`slots, this`nodes
      ensures Valid() && SameEpochs(old(nodes))
      ensures forall j :: 0 <= j < SLOTS ==> slots[j] == if old(slots)[j] == Some(oldmaster) then Some(me) else old(slots)[j]
      ensures nodes[oldmaster].numslots == 0
    {
      hide TestBit, Population;
      var j := 0;
      while j < SLOTS
        invariant j <= SLOTS && Valid() && SameEpochs(old(nodes))
        invariant forall i :: 0 <= i < j ==> slots[i] == if old(slots)[i] == Some(oldmaster) then Some(me) else old(slots)[i]
        invariant forall i :: j <= i < SLOTS ==> slots[i] == old(slots)[i]
      {
        if TestBit(nodes[oldmaster].bitmap, j) {
          var _ := DelSlot(j);
          var _ := AddSlot(me, j);
        }
        j := j + 1;
      }
      NoSlots(slots, nodes, oldmaster);
    }

    /**
      The slots part of clusterUpdateSlotsConfigWith; `curmaster` is this node or its master, None
      for a slave that knows none. The verdict says what the comparison of curmaster's slots at
      the end finds; with no curmaster it follows a null pointer.
     */
    method UpdateSlotsConfigWith(sender: nat, senderEpoch: nat, claims: Bitmap, curmaster: Option<nat>) returns (v: Verdict)
      requires Valid() && sender < |nodes| && |claims| == BITMAP_BYTES && (curmaster != None ==> curmaster.value < |nodes|)
      modifies this`slots, this`nodes
      ensures Valid() && SameEpochs(old(nodes))
      ensures sender == me ==> slots == old(slots) && v == Kept
      ensures sender != me ==> forall j :: 0 <= j < SLOTS ==>
                slots[j] == if TestBit(claims, j) && importing[j] == None
                               && (old(slots)[j] == None || old(nodes)[old(slots)[j].value].configEpoch < senderEpoch)
                            then Some(sender) else old(slots)[j]
      ensures sender != me ==>
                var lost := exists j :: 0 <= j < SLOTS && old(slots)[j] == curmaster && slots[j] != curmaster;
                && (v == NullMaster <==> lost && curmaster == None)
                && (v == Demoted <==> lost && curmaster != None && nodes[curmaster.value].numslots == 0)
    {
      hide TestBit, Population;
      if sender == me { return Kept; }
      var newmaster := false;
      var j := 0;
      while j < SLOTS
        invariant j <= SLOTS && Valid() && SameEpochs(old(nodes))
        invariant forall i :: j <= i < SLOTS ==> slots[i] == old(slots)[i]
        invariant forall i :: 0 <= i < j ==>
                    slots[i] == if TestBit(claims, i) && importing[i] == None
                                   && (old(slots)[i] == None || old(nodes)[old(slots)[i].value].configEpoch < senderEpoch)
                                then Some(sender) else old(slots)[i]
        invariant newmaster <==> exists i :: 0 <= i < j && old(slots)[i] == curmaster && slots[i] != curmaster
      {
        if TestBit(claims, j) && slots[j] != Some(sender) && importing[j] == None
           && (slots[j] == None || nodes[slots[j].value].configEpoch < senderEpoch)
        {
          if slots[j] == curmaster { newmaster := true; }
          var _ := DelSlot(j);
          var _ := AddSlot(sender, j);
        }
        j := j + 1;
      }
      if !newmaster { return Kept; }
      if curmaster == None { return NullMaster; }
      return if nodes[curmaster.value].numslots == 0 then Demoted else Kept;
    }

    /** The first loop of CLUSTER ADDSLOTS / DELSLOTS, and which slots it marks. */
    method CheckSlots(args: seq<int>, del: bool) returns (ok: bool, given: seq<nat>)
      requires |slots| == SLOTS
      ensures ok <==> Acceptable(slots, args, del)
      ensures ok ==> |given| == SLOTS && forall j :: 0 <= j < SLOTS ==> (given[j] != 0 <==> j in args)
    {
      given := seq(SLOTS, _ => 0);
      var k := 0;
      while k < |args|
        invariant k <= |args| && |given| == SLOTS
        invariant forall i :: 0 <= i < k ==> 0 <= args[i] < SLOTS && (del <==> slots[args[i]] != None)
        invariant forall i, m :: 0 <= i < m < k ==> args[i] != args[m]
        invariant forall j :: 0 <= j < SLOTS ==> given[j] == if j in args[..k] then 1 else 0
      {
        var slot := args[k];
        assert args[..k + 1] == args[..k] + [slot];
        if slot < 0 || slot >= SLOTS { return false, given; }
        if del && slots[slot] == None { return false, given; }
        if !del && slots[slot] != None { return false, given; }
        given := given[slot := given[slot] + 1];
        if given[slot] == 2 { return false, given; }
        k := k + 1;
      }
      assert args[..k] == args;
      return true, given;
    }

    /**
      CLUSTER ADDSLOTS / DELSLOTS: nothing changes unless every slot given is free (or taken, for
      DELSLOTS) and given once; `args` holds the numbers after parsing.
     */
    method AddOrDelSlots(args: seq<int>, del: bool) returns (ok: bool)
      requires Valid()
      modifies this`slots, this`nodes, this`importing
      ensures Valid() && SameEpochs(old(nodes))
      ensures ok <==> Acceptable(old(slots), args, del)
      ensures !ok ==> slots == old(slots) && nodes == old(nodes) && importing == old(importing)
      ensures ok ==> forall j :: 0 <= j < SLOTS ==>
                && slots[j] == (if j in args then (if del then None else Some(me)) else old(slots)[j])
                && importing[j] == (if j in args then None else old(importing)[j])
    {
      hide TestBit, Population, Acceptable;
      var given;
      ok, given := CheckSlots(args, del);
      if !ok { return; }
      Accepted(slots, args, del);
      var j := 0;
      while j < SLOTS
        invariant j <= SLOTS && Valid() && SameEpochs(old(nodes))
        invariant forall i :: 0 <= i < j ==>
                    && slots[i] == (if i in args then (if del then None else Some(me)) else old(slots)[i])
                    && importing[i] == (if i in args then None else old(importing)[i])
        invariant forall i :: j <= i < SLOTS ==> slots[i] == old(slots)[i] && importing[i] == old(importing)[i]
      {
        if given[j] != 0 {
          importing := importing[j := None];
          var retval;
          if del { retval := DelSlot(j); } else { retval := AddSlot(me, j); }
          assert retval;  // the assertion of the command
        }
        j := j + 1;
      }
      return true;
    }
  }

  lemma Accepted(slots: seq<Option<nat>>, args: seq<int>, del: bool)
    requires |slots| == SLOTS && Acceptable(slots, args, del)
    ensures forall j :: 0 <= j < SLOTS && j in args ==> (del <==> slots[j] != None)
  {
  }

  ghost predicate Acceptable(slots: seq<Option<nat>>, args: seq<int>, del: bool)
    requires |slots| == SLOTS
  {
    && (forall i :: 0 <= i < |args| ==> 0 <= args[i] < SLOTS && (del <==> slots[args[i]] != None))
    && (forall i, k :: 0 <= i < k < |args| ==> args[i] != args[k])
  }

  /** The table with one node struck out. */
  function Without(s: seq<Option<nat>>, n: nat): (r: seq<Option<nat>>)
    ensures |r| == |s|
  {
    seq(|s|, j requires 0 <= j < |s| => if s[j] == Some(n) then None else s[j])
  }

  lemma WithoutStep(s: seq<Option<nat>>, now: seq<Option<nat>>, n: nat, j: nat)
    requires j < |s| == |now|
    requires now[..j] == Without(s, n)[..j] && now[j..] == s[j..]
    ensures var next := if now[j] == Some(n) then now[j := None] else now;
            next[..j + 1] == Without(s, n)[..j + 1] && next[j + 1..] == s[j + 1..]
  {
    assert now[j] == now[j..][0] == s[j..][0] == s[j];
    var next := if now[j] == Some(n) then now[j := None] else now;
    assert next[..j] == now[..j];
    assert next[..j + 1] == next[..j] + [next[j]];
    assert Without(s, n)[..j + 1] == Without(s, n)[..j] + [Without(s, n)[j]];
    assert next[j + 1..] == now[j..][1..];
    assert s[j + 1..] == s[j..][1..];
  }

  /** A node that owns nothing in the table has a zero counter. */
  lemma NoSlots(slots: seq<Option<nat>>, nodes: seq<NodeInfo>, n: nat)
    requires TableOK(slots, nodes) && n < |nodes|
    requires forall j :: 0 <= j < SLOTS ==> slots[j] != Some(n)
    ensures nodes[n].numslots == 0
  {
    hide TestBit, Population;
    var b := nodes[n].bitmap;
    forall j | 0 <= j < SLOTS ensures !TestBit(b, j) {
      assert slots[j] != Some(n);
    }
    PopulationZero(b, SLOTS);
  }

  lemma EmptyBitmap(b: Bitmap)
    requires |b| == BITMAP_BYTES && forall k :: 0 <= k < |b| ==> b[k] == 0
    ensures Population(b, SLOTS) == 0 && forall j :: 0 <= j < SLOTS ==> !TestBit(b, j)
  {
    hide Population;
    forall j | 0 <= j < SLOTS ensures !TestBit(b, j) {
      ZeroAnd(Mask(j % 8));
      assert ByteBit(b[j / 8], j % 8) == ByteBit(0, j % 8);
    }
    PopulationZero(b, SLOTS);
  }

  lemma ZeroAnd(m: bv8)
    ensures 0 & m == 0
  {
  }

  // ---------------------------------------------------------------------
  // Claims in any order

  /** Config epochs that do not change and differ from node to node. */
  ghost predicate Distinct(epochs: seq<nat>)
  {
    forall a, b :: 0 <= a < b < |epochs| ==> epochs[a] != epochs[b]
  }

  function OwnerEpoch(epochs: seq<nat>, owner: Option<nat>): nat
  {
    if owner != None && owner.value < |epochs| then epochs[owner.value] else 0
  }

  /** One slot after a sequence of claims by the given nodes, none of them while it is imported. */
  function AfterClaims(epochs: seq<nat>, owner: Option<nat>, claimants: seq<nat>): Option<nat>
    requires forall i :: 0 <= i < |claimants| ==> claimants[i] < |epochs|
  {
    if claimants == [] then owner
    else
      var last := claimants[|claimants| - 1];
      var o := AfterClaims(epochs, owner, claimants[..|claimants| - 1]);
      AfterClaim(o, last, epochs[last], OwnerEpoch(epochs, o))
  }

  /** A node among the candidates with the greatest epoch of them all. */
  ghost predicate IsGreatest(epochs: seq<nat>, candidates: set<nat>, n: nat)
  {
    && n in candidates && n < |epochs|
    && forall c :: c in candidates && c < |epochs| ==> epochs[c] <= epochs[n]
  }

  ghost function Candidates(owner: Option<nat>, claimants: seq<nat>): set<nat>
  {
    (set c | c in claimants) + if owner == None then {} else {owner.value}
  }

  /** The slot ends up with the greatest-epoch node among its first owner and its claimants. */
  lemma {:induction false} GreatestClaimWins(epochs: seq<nat>, owner: Option<nat>, claimants: seq<nat>)
    requires forall i :: 0 <= i < |claimants| ==> claimants[i] < |epochs|
    requires owner != None ==> owner.value < |epochs|
    ensures var o := AfterClaims(epochs, owner, claimants);
            if Candidates(owner, claimants) == {} then o == None
            else o != None && IsGreatest(epochs, Candidates(owner, claimants), o.value)
  {
    if claimants == [] {
      assert Candidates(owner, claimants) == if owner == None then {} else {owner.value};
    } else {
      var front, last := claimants[..|claimants| - 1], claimants[|claimants| - 1];
      GreatestClaimWins(epochs, owner, front);
      assert Candidates(owner, claimants) == Candidates(owner, front) + {last};
    }
  }

  lemma GreatestIsUnique(epochs: seq<nat>, candidates: set<nat>, a: nat, b: nat)
    requires Distinct(epochs) && IsGreatest(epochs, candidates, a) && IsGreatest(epochs, candidates, b)
    ensures a == b
  {
    assert epochs[a] == epochs[b];
  }

  /** So the order in which claims arrive, and how often, does not matter. */
  lemma ClaimsCommute(epochs: seq<nat>, owner: Option<nat>, xs: seq<nat>, ys: seq<nat>)
    requires Distinct(epochs) && (owner != None ==> owner.value < |epochs|)
    requires forall i :: 0 <= i < |xs| ==> xs[i] < |epochs|
    requires forall i :: 0 <= i < |ys| ==> ys[i] < |epochs|
    requires Candidates(owner, xs) == Candidates(owner, ys)
    ensures AfterClaims(epochs, owner, xs) == AfterClaims(epochs, owner, ys)
  {
    hide Candidates, AfterClaims, Distinct, IsGreatest;
    GreatestClaimWins(epochs, owner, xs);
    GreatestClaimWins(epochs, owner, ys);
    var a, b := AfterClaims(epochs, owner, xs), AfterClaims(epochs, owner, ys);
    if Candidates(owner, xs) != {} {
      GreatestIsUnique(epochs, Candidates(owner, xs), a.value, b.value);
    }
  }

  /** A message of node `sender` claiming the slots of a bitmap. */
  datatype Claim = Claim(sender: nat, claims: Bitmap)

  /** The nodes that claim slot j in a sequence of messages. */
  function Claimants(msgs: seq<Claim>, j: nat): seq<nat>
    requires j < SLOTS && forall i :: 0 <= i < |msgs| ==> |msgs[i].claims| == BITMAP_BYTES
  {
    if msgs == [] then []
    else Claimants(msgs[..|msgs| - 1], j)
         + if TestBit(msgs[|msgs| - 1].claims, j) then [msgs[|msgs| - 1].sender] else []
  }

  lemma {:induction false} ClaimantsInRange(msgs: seq<Claim>, j: nat, n: nat)
    requires j < SLOTS && forall i :: 0 <= i < |msgs| ==> |msgs[i].claims| == BITMAP_BYTES && msgs[i].sender < n
    ensures forall i :: 0 <= i < |Claimants(msgs, j)| ==> Claimants(msgs, j)[i] < n
  {
    hide TestBit;
    if msgs != [] { ClaimantsInRange(msgs[..|msgs| - 1], j, n); }
  }

  /**
    Running clusterUpdateSlotsConfigWith over any messages about other nodes, with fixed epochs
    and nothing imported, leaves each slot with the greatest-epoch node among its owner before
    and the nodes that claimed it.
   */
  method ProcessClaims(c: Cluster, msgs: seq<Claim>, curmaster: Option<nat>, ghost epochs: seq<nat>)
    requires c.Valid() && (curmaster != None ==> curmaster.value < |c.nodes|)
    requires |epochs| == |c.nodes| && forall n :: 0 <= n < |epochs| ==> epochs[n] == c.nodes[n].configEpoch
    requires forall j :: 0 <= j < SLOTS ==> c.importing[j] == None
    requires forall i :: 0 <= i < |msgs| ==>
               |msgs[i].claims| == BITMAP_BYTES && msgs[i].sender < |c.nodes| && msgs[i].sender != c.me
    modifies c`slots, c`nodes
    ensures c.Valid()
    ensures forall j :: 0 <= j < SLOTS ==>
              if Candidates(old(c.slots)[j], Claimants(msgs, j)) == {} then c.slots[j] == None
              else c.slots[j] != None && IsGreatest(epochs, Candidates(old(c.slots)[j], Claimants(msgs, j)), c.slots[j].value)
  {
    hide TestBit, TableOK, Candidates, IsGreatest;
    var k := 0;
    ghost var slots0 := c.slots;
    forall j: nat | j < SLOTS ensures forall i :: 0 <= i < |Claimants(msgs, j)| ==> Claimants(msgs, j)[i] < |epochs| {
      ClaimantsInRange(msgs, j, |epochs|);
    }
    assert msgs[..0] == [];
    TableOwners(c, slots0, |epochs|);
    while k < |msgs|
      invariant k <= |msgs| && c.Valid() && |c.nodes| == |epochs|
      invariant |slots0| == |c.slots| == SLOTS
      invariant forall j :: 0 <= j < SLOTS && c.slots[j] != None ==> c.slots[j].value < |epochs|
      invariant forall n :: 0 <= n < |epochs| ==> epochs[n] == c.nodes[n].configEpoch
      invariant forall j: nat :: j < SLOTS ==> Settled(epochs, slots0, c.slots, msgs[..k], j)
    {
      ghost var before := c.slots;
      var m := msgs[k];
      var _ := c.UpdateSlotsConfigWith(m.sender, c.nodes[m.sender].configEpoch, m.claims, curmaster);
      ghost var after, done := c.slots, msgs[..k + 1];
      TableOwners(c, after, |epochs|);
      forall j: nat | j < SLOTS ensures Settled(epochs, slots0, after, done, j) {
        assert Settled(epochs, slots0, before, msgs[..k], j);
        SettledStep(epochs, slots0, before, after, msgs, k, j);
      }
      k := k + 1;
    }
    assert msgs[..k] == msgs;
    forall j: nat | j < SLOTS
      ensures if Candidates(slots0[j], Claimants(msgs, j)) == {} then c.slots[j] == None
              else c.slots[j] != None && IsGreatest(epochs, Candidates(slots0[j], Claimants(msgs, j)), c.slots[j].value)
    {
      assert Settled(epochs, slots0, c.slots, msgs, j);
      GreatestClaimWins(epochs, slots0[j], Claimants(msgs, j));
    }
  }

  lemma TableOwners(c: Cluster, slots: seq<Option<nat>>, n: nat)
    requires c.Valid() && c.slots == slots && |c.nodes| == n
    ensures |slots| == SLOTS && forall j :: 0 <= j < SLOTS && slots[j] != None ==> slots[j].value < n
  {
  }

  /** Slot j is what the claims so far make of it. */
  ghost predicate Settled(epochs: seq<nat>, before: seq<Option<nat>>, now: seq<Option<nat>>, msgs: seq<Claim>, j: nat)
  {
    && j < SLOTS && |before| == |now| == SLOTS
    && (before[j] != None ==> before[j].value < |epochs|)
    && (forall i :: 0 <= i < |msgs| ==> |msgs[i].claims| == BITMAP_BYTES && msgs[i].sender < |epochs|)
    && (forall i :: 0 <= i < |Claimants(msgs, j)| ==> Claimants(msgs, j)[i] < |epochs|)
    && now[j] == AfterClaims(epochs, before[j], Claimants(msgs, j))
  }

  lemma SettledStep(epochs: seq<nat>, before: seq<Option<nat>>, now: seq<Option<nat>>, now': seq<Option<nat>>,
                    msgs: seq<Claim>, k: nat, j: nat)
    requires k < |msgs| && Settled(epochs, before, now, msgs[..k], j) && |now'| == SLOTS
    requires |msgs[k].claims| == BITMAP_BYTES && msgs[k].sender < |epochs|
    requires now'[j] == if TestBit(msgs[k].claims, j)
                        then AfterClaim(now[j], msgs[k].sender, epochs[msgs[k].sender], OwnerEpoch(epochs, now[j]))
                        else now[j]
    ensures Settled(epochs, before, now', msgs[..k + 1], j)
  {
    hide TestBit, Claimants, AfterClaims;
    var front, m := msgs[..k], msgs[k];
    assert msgs[..k + 1] == front + [m];
    ClaimantsSnoc(front, m, j);
    if TestBit(m.claims, j) { AfterClaimsSnoc(epochs, before[j], Claimants(front, j), m.sender); }
  }

  lemma ClaimantsSnoc(front: seq<Claim>, m: Claim, j: nat)
    requires j < SLOTS && (forall i :: 0 <= i < |front| ==> |front[i].claims| == BITMAP_BYTES) && |m.claims| == BITMAP_BYTES
    ensures Claimants(front + [m], j) == if TestBit(m.claims, j) then Claimants(front, j) + [m.sender] else Claimants(front, j)
  {
    hide TestBit;
    var all := front + [m];
    assert all[..|all| - 1] == front && all[|all| - 1] == m;
  }

  lemma AfterClaimsSnoc(epochs: seq<nat>, owner: Option<nat>, claimants: seq<nat>, last: nat)
    requires last < |epochs| && forall i :: 0 <= i < |claimants| ==> claimants[i] < |epochs|
    ensures forall i :: 0 <= i < |claimants + [last]| ==> (claimants + [last])[i] < |epochs|
    ensures var o := AfterClaims(epochs, owner, claimants);
            AfterClaims(epochs, owner, claimants + [last]) == AfterClaim(o, last, epochs[last], OwnerEpoch(epochs, o))
  {
    assert (claimants + [last])[..|claimants + [last]| - 1] == claimants;
  }
}
