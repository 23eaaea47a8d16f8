/**
  Config-epoch collision resolution (cluster.c): masters that find another master
  with their own configEpoch and a greater node ID move to a new epoch.
  Masters are numbered in the lexicographic order of their node IDs.
 */
module ClusterEpochs {
  import opened Basics

  /** currentEpoch, own configEpoch, and the configEpoch known of every peer. */
  datatype Master = Master(currentEpoch: nat, configEpoch: nat, known: seq<nat>)

  /** The epochs in the header of a PING or PONG. */
  datatype Packet = Packet(from: nat, currentEpoch: nat, configEpoch: nat)

  /** What a packet changes before the collision check: lines 1588-1595. */
  function SeeHeader(m: Master, p: Packet): Master
    requires p.from < |m.known|
  {
    m.(currentEpoch := Max(m.currentEpoch, p.currentEpoch), known := m.known[p.from := Max(m.known[p.from], p.configEpoch)])
  }

  /** The test at 1856-1861 and the body of clusterHandleConfigEpochCollision. */
  predicate Collides(me: nat, m: Master, p: Packet)
    requires p.from < |m.known|
  {
    p.configEpoch == m.configEpoch && m.known[p.from] == m.configEpoch && p.from > me
  }

  function Receive(me: nat, m: Master, p: Packet): Master
    requires p.from < |m.known|
  {
    var seen := SeeHeader(m, p);
    if Collides(me, seen, p)
    then seen.(currentEpoch := seen.currentEpoch + 1, configEpoch := seen.currentEpoch + 1)
    else seen
  }

  /** A master process. */
  class MasterNode {
    const me: nat
    var m: Master

    constructor (me: nat, m: Master)
      ensures this.me == me && this.m == m
    {
      this.me, this.m := me, m;
    }

    /** clusterHandleConfigEpochCollision */
    method HandleCollision(sender: nat)
      requires sender < |m.known|
      modifies this`m
      ensures m.known == old(m).known
      ensures m == old(m) || m.configEpoch == m.currentEpoch == old(m).currentEpoch + 1
      ensures m != old(m) <==> sender > me && old(m).known[sender] == old(m).configEpoch
    {
      if m.known[sender] != m.configEpoch { return; }
      if sender <= me { return; }
      m := m.(currentEpoch := m.currentEpoch + 1);
      m := m.(configEpoch := m.currentEpoch);
    }

    /** The epoch part of clusterProcessPacket for a PING or PONG from a master. */
    method ProcessPacket(p: Packet)
      requires p.from < |m.known|
      modifies this`m
      ensures m.known == old(m).known[p.from := Max(old(m).known[p.from], p.configEpoch)]
      ensures var seen := Max(old(m).currentEpoch, p.currentEpoch);
              if me < p.from && old(m).known[p.from] <= p.configEpoch == old(m).configEpoch
              then m.configEpoch == m.currentEpoch == seen + 1
              else m.configEpoch == old(m).configEpoch && m.currentEpoch == seen
    {
      if p.currentEpoch > m.currentEpoch { m := m.(currentEpoch := p.currentEpoch); }
      if p.configEpoch > m.known[p.from] { m := m.(known := m.known[p.from := p.configEpoch]); }
      if p.configEpoch == m.configEpoch { HandleCollision(p.from); }
    }
  }

  // ---------------------------------------------------------------------
  // The cluster: packets, once sent, may arrive at any time, any number of times

  /** held[i]: the config epochs master i has had, in order. */
  datatype System = System(masters: seq<Master>, sent: set<Packet>, held: seq<seq<nat>>)

  datatype Step = Send(i: nat) | Deliver(p: Packet, to: nat)

  ghost predicate Shape(s: System)
  {
    && |s.held| == |s.masters|
    && (forall i :: 0 <= i < |s.masters| ==> |s.masters[i].known| == |s.masters|)
    && forall p :: p in s.sent ==> p.from < |s.masters|
  }

  ghost predicate Enabled(s: System, step: Step)
  {
    match step
    case Send(i) => i < |s.masters|
    case Deliver(p, to) => p in s.sent && to < |s.masters|
  }

  function Apply(s: System, step: Step): System
    requires Shape(s) && Enabled(s, step)
  {
    match step
    case Send(i) => s.(sent := s.sent + {Packet(i, s.masters[i].currentEpoch, s.masters[i].configEpoch)})
    case Deliver(p, to) =>
      var m := Receive(to, s.masters[to], p);
      s.(masters := s.masters[to := m],
         held := if m.configEpoch == s.masters[to].configEpoch then s.held else s.held[to := s.held[to] + [m.configEpoch]])
  }

  /** The masters and the packets between them; `held` records history. */
  class Bus {
    const nodes: seq<MasterNode>
    var sent: set<Packet>
    ghost var held: seq<seq<nat>>

    ghost predicate Valid()
      reads this, nodes
    {
      && |held| == |nodes| && Shape(State())
      && (forall i :: 0 <= i < |nodes| ==> nodes[i].me == i)
    }

    ghost function State(): System
      reads this, nodes
    {
      System(seq(|nodes|, i requires 0 <= i < |nodes| reads nodes => nodes[i].m), sent, held)
    }

    constructor (nodes: seq<MasterNode>)
      requires forall i :: 0 <= i < |nodes| ==> nodes[i].me == i && |nodes[i].m.known| == |nodes|
      ensures Valid() && this.nodes == nodes && sent == {}
      ensures forall i :: 0 <= i < |nodes| ==> held[i] == [nodes[i].m.configEpoch]
    {
      this.nodes, sent := nodes, {};
      held := seq(|nodes|, i requires 0 <= i < |nodes| reads nodes => [nodes[i].m.configEpoch]);
    }

    /** Master i puts its epochs into the header of a packet. */
    method SendPacket(i: nat)
      requires Valid() && i < |nodes|
      modifies this`sent
      ensures Valid() && State() == Apply(old(State()), Send(i))
      ensures sent == old(sent) + {Packet(i, nodes[i].m.currentEpoch, nodes[i].m.configEpoch)}
    {
      sent := sent + {Packet(i, nodes[i].m.currentEpoch, nodes[i].m.configEpoch)};
      assert State().masters == old(State().masters);
    }

    /** A packet arrives, perhaps late and not for the first time. */
    method DeliverPacket(p: Packet, to: nat)
      requires Valid() && p in sent && to < |nodes|
      modifies this`held, nodes[to]
      ensures Valid() && State() == Apply(old(State()), Deliver(p, to))
    {
      ghost var before := State();
      assert p.from < |before.masters[to].known|;
      nodes[to].ProcessPacket(p);
      if nodes[to].m.configEpoch != before.masters[to].configEpoch {
        held := held[to := held[to] + [nodes[to].m.configEpoch]];
      }
      assert nodes[to].m == Receive(to, before.masters[to], p);
      forall i | 0 <= i < |nodes| ensures State().masters[i] == before.masters[to := nodes[to].m][i] {
        assert i != to ==> nodes[i].me != nodes[to].me;
      }
      assert State() == Apply(before, Deliver(p, to));
    }
  }

  /** Any epochs to start with, as long as no currentEpoch is behind the node's own configEpoch. */
  ghost predicate Initial(s: System)
  {
    && Shape(s) && s.sent == {}
    && (forall i :: 0 <= i < |s.masters| ==> s.masters[i].configEpoch <= s.masters[i].currentEpoch && s.held[i] == [s.masters[i].configEpoch])
    && forall i, j :: 0 <= i < |s.masters| && 0 <= j < |s.masters| ==> s.masters[i].known[j] <= s.masters[j].configEpoch
  }

  ghost predicate Increasing(h: seq<nat>)
  {
    forall a, b :: 0 <= a < b < |h| ==> h[a] < h[b]
  }

  /** Config epochs only grow, up to the node's currentEpoch, and packets carry epochs their sender really had. */
  ghost predicate Honest(s: System)
  {
    && Shape(s)
    && (forall i :: 0 <= i < |s.masters| ==>
          && s.masters[i].configEpoch <= s.masters[i].currentEpoch
          && s.held[i] != [] && s.held[i][|s.held[i]| - 1] == s.masters[i].configEpoch && Increasing(s.held[i]))
    && (forall p :: p in s.sent ==> p.configEpoch in s.held[p.from])
    && forall i, j :: 0 <= i < |s.masters| && 0 <= j < |s.masters| ==> s.masters[i].known[j] <= s.masters[j].configEpoch
  }

  /** An epoch is only given up for a greater node that has, or had, the same one. */
  ghost predicate GivenUpToLarger(s: System)
    requires |s.held| == |s.masters|
  {
    forall i, t :: 0 <= i < |s.held| && 0 <= t < |s.held[i]| - 1 ==> HeldAbove(s.held, i + 1, s.held[i][t])
  }

  ghost predicate HeldAbove(held: seq<seq<nat>>, from: nat, e: nat)
  {
    exists j :: from <= j < |held| && e in held[j]
  }

  lemma HonestStep(s: System, step: Step)
    requires Honest(s) && Enabled(s, step)
    ensures Honest(Apply(s, step))
  {
    if step.Deliver? { DeliverStaysHonest(s, step.p, step.to); }
  }

  /** What one packet does to one master. */
  lemma ReceiveGrows(me: nat, m: Master, p: Packet)
    requires p.from < |m.known| && m.configEpoch <= m.currentEpoch
    ensures var m' := Receive(me, m, p);
            && |m'.known| == |m.known| && m'.configEpoch <= m'.currentEpoch
            && (m'.configEpoch == m.configEpoch || (m.configEpoch < m'.configEpoch && p.configEpoch == m.configEpoch && me < p.from))
            && forall j :: 0 <= j < |m.known| ==> m'.known[j] == m.known[j] || (j == p.from && m'.known[j] == p.configEpoch)
  {
  }

  lemma DeliverStaysHonest(s: System, p: Packet, to: nat)
    requires Honest(s) && p in s.sent && to < |s.masters|
    ensures Honest(Apply(s, Deliver(p, to)))
  {
    hide Receive;
    var s' := Apply(s, Deliver(p, to));
    var m, m' := s.masters[to], s'.masters[to];
    ReceiveGrows(to, m, p);
    LastIsGreatest(s.held[p.from], p.configEpoch);
    if m'.configEpoch != m.configEpoch {
      AppendIncreasing(s.held[to], m'.configEpoch);
    }
    forall i | 0 <= i < |s.masters| ensures s.masters[i].configEpoch <= s'.masters[i].configEpoch { }
    forall q | q in s'.sent ensures q.configEpoch in s'.held[q.from] {
      assert q.configEpoch in s.held[q.from];
    }
  }

  lemma AppendIncreasing(h: seq<nat>, e: nat)
    requires Increasing(h) && h != [] && h[|h| - 1] < e
    ensures Increasing(h + [e])
  {
  }

  lemma LastIsGreatest(h: seq<nat>, e: nat)
    requires Increasing(h) && e in h
    ensures e <= h[|h| - 1]
  {
  }

  lemma GivenUpStep(s: System, step: Step)
    requires Honest(s) && GivenUpToLarger(s) && Enabled(s, step)
    ensures GivenUpToLarger(Apply(s, step))
  {
    hide Receive;
    var s' := Apply(s, step);
    if step.Deliver? { ReceiveGrows(step.to, s.masters[step.to], step.p); }
    forall i, t | 0 <= i < |s'.held| && 0 <= t < |s'.held[i]| - 1 ensures HeldAbove(s'.held, i + 1, s'.held[i][t]) {
      if t < |s.held[i]| - 1 {
        assert HeldAbove(s.held, i + 1, s.held[i][t]);
        var j :| i + 1 <= j < |s.held| && s.held[i][t] in s.held[j];
        assert s'.held[i][t] in s'.held[j];
      } else {
        assert step.Deliver? && step.to == i && s.held[i][t] == step.p.configEpoch;
        assert step.p.configEpoch in s'.held[step.p.from];
      }
    }
  }

  // ---------------------------------------------------------------------
  // Counting moves

  ghost function Elems(h: seq<nat>): set<nat> { set x | x in h }

  ghost function AllAbove(held: seq<seq<nat>>, from: nat): set<nat>
    requires from <= |held|
    decreases |held| - from
  {
    if from == |held| then {} else Elems(held[from]) + AllAbove(held, from + 1)
  }

  lemma {:induction false} AllAboveHolds(held: seq<seq<nat>>, from: nat, j: nat, e: nat)
    requires from <= j < |held| && e in held[j]
    ensures e in AllAbove(held, from)
    decreases j - from
  {
    if from < j { AllAboveHolds(held, from + 1, j, e); }
  }

  lemma {:induction false} IncreasingSize(h: seq<nat>)
    requires Increasing(h)
    ensures |Elems(h)| == |h|
  {
    if h != [] {
      var last := h[|h| - 1];
      var front := h[..|h| - 1];
      IncreasingSize(front);
      assert Elems(h) == Elems(front) + {last};
      assert last !in Elems(front);
    } else {
      assert Elems(h) == {};
    }
  }

  /** Everything a master has given up is among what the larger ones have had. */
  lemma FrontAbove(held: seq<seq<nat>>, from: nat)
    requires from < |held| && held[from] != [] && Increasing(held[from])
    requires forall t :: 0 <= t < |held[from]| - 1 ==> HeldAbove(held, from + 1, held[from][t])
    ensures |held[from]| - 1 <= |AllAbove(held, from + 1)|
    ensures |AllAbove(held, from)| <= 1 + |AllAbove(held, from + 1)|
  {
    hide AllAbove, Elems, HeldAbove;
    var h, above := held[from], AllAbove(held, from + 1);
    var front, last := h[..|h| - 1], {h[|h| - 1]};
    assert h == front + [h[|h| - 1]];
    AllHeldAbove(held, from, front);
    assert Increasing(front);
    IncreasingSize(front);
    SubsetSize(Elems(front), above);
    ElemsSnoc(front, h[|h| - 1]);
    AllAboveStep(held, from);
    assert AllAbove(held, from) == last + above;
    UnionSize(last, above);
  }

  lemma ElemsSnoc(h: seq<nat>, e: nat)
    ensures Elems(h + [e]) == Elems(h) + {e}
  {
  }

  lemma AllAboveStep(held: seq<seq<nat>>, from: nat)
    requires from < |held|
    ensures AllAbove(held, from) == Elems(held[from]) + AllAbove(held, from + 1)
  {
  }

  lemma AllHeldAbove(held: seq<seq<nat>>, from: nat, front: seq<nat>)
    requires from < |held| && forall t :: 0 <= t < |front| ==> HeldAbove(held, from + 1, front[t])
    ensures Elems(front) <= AllAbove(held, from + 1)
  {
    hide AllAbove;
    forall e | e in Elems(front) ensures e in AllAbove(held, from + 1) {
      var t :| 0 <= t < |front| && front[t] == e;
      var j :| from + 1 <= j < |held| && e in held[j];
      AllAboveHolds(held, from + 1, j, e);
    }
  }

  /** The k largest masters together have had at most k different config epochs. */
  lemma {:induction false} HeldBound(held: seq<seq<nat>>, from: nat)
    requires from <= |held|
    requires forall i :: 0 <= i < |held| ==> held[i] != [] && Increasing(held[i])
    requires forall i, t :: 0 <= i < |held| && 0 <= t < |held[i]| - 1 ==> HeldAbove(held, i + 1, held[i][t])
    ensures |AllAbove(held, from)| <= |held| - from
    ensures from < |held| ==> |held[from]| <= |held| - from
    decreases |held| - from
  {
    hide HeldAbove, Increasing, AllAbove;
    if from < |held| {
      HeldBound(held, from + 1);
      FrontAbove(held, from);
    } else {
      AllAboveEnd(held);
    }
  }

  lemma AllAboveEnd(held: seq<seq<nat>>)
    ensures AllAbove(held, |held|) == {}
  {
  }

  ghost predicate Run(states: seq<System>, steps: seq<Step>)
  {
    && |states| == |steps| + 1 && Initial(states[0])
    && forall k :: 0 <= k < |steps| ==>
         Shape(states[k]) && Enabled(states[k], steps[k]) && states[k + 1] == Apply(states[k], steps[k])
  }

  lemma {:induction false} RunInv(states: seq<System>, steps: seq<Step>, n: nat)
    requires Run(states, steps) && n <= |steps|
    ensures Honest(states[n]) && GivenUpToLarger(states[n]) && |states[n].masters| == |states[0].masters|
    decreases n
  {
    if n != 0 {
      RunInv(states, steps, n - 1);
      assert states[n - 1 + 1] == Apply(states[n - 1], steps[n - 1]);
      HonestStep(states[n - 1], steps[n - 1]);
      GivenUpStep(states[n - 1], steps[n - 1]);
    }
  }

  /** How often master i has moved to a new config epoch. */
  function Moves(s: System, i: nat): int
    requires i < |s.held|
  {
    |s.held[i]| - 1
  }

  /**
    Resolution terminates: over every run, whatever old packets are delivered, a master with k
    lexicographically larger peers moves at most k times; the largest one never moves.
   */
  lemma MovesBounded(states: seq<System>, steps: seq<Step>, i: nat)
    requires Run(states, steps) && i < |states[0].masters|
    ensures var last := states[|steps|];
            |last.held| == |states[0].masters| && Moves(last, i) <= |last.held| - 1 - i
  {
    hide Run;
    assert |states| == |steps| + 1 by { RunLength(states, steps); }
    RunInv(states, steps, |steps|);
    HeldBound(states[|steps|].held, i);
  }

  lemma RunLength(states: seq<System>, steps: seq<Step>)
    requires Run(states, steps)
    ensures |states| == |steps| + 1
  {
  }

  /** An up-to-date packet from j. */
  function Fresh(s: System, j: nat): Packet
    requires j < |s.masters|
  {
    Packet(j, s.masters[j].currentEpoch, s.masters[j].configEpoch)
  }

  /** No master would move on hearing the present epochs of another. */
  ghost predicate Stable(s: System)
    requires Shape(s)
  {
    forall i, j :: 0 <= i < |s.masters| && 0 <= j < |s.masters| && i != j ==>
      Receive(i, s.masters[i], Fresh(s, j)).configEpoch == s.masters[i].configEpoch
  }

  ghost predicate AllDifferent(s: System)
  {
    forall i, j :: 0 <= i < j < |s.masters| ==> s.masters[i].configEpoch != s.masters[j].configEpoch
  }

  /** In every reachable state: nothing is left to resolve exactly when all config epochs differ. */
  lemma StableIffDifferent(states: seq<System>, steps: seq<Step>, n: nat)
    requires Run(states, steps) && n <= |steps|
    ensures Shape(states[n]) && (Stable(states[n]) <==> AllDifferent(states[n]))
  {
    RunInv(states, steps, n);
    HonestStable(states[n]);
  }

  lemma HonestStable(s: System)
    requires Honest(s)
    ensures Stable(s) <==> AllDifferent(s)
  {
    if Stable(s) {
      forall i, j | 0 <= i < j < |s.masters| ensures s.masters[i].configEpoch != s.masters[j].configEpoch {
        assert Receive(i, s.masters[i], Fresh(s, j)).configEpoch == s.masters[i].configEpoch;
        assert s.masters[i].known[j] <= s.masters[j].configEpoch;
      }
    }
    if AllDifferent(s) {
      forall i, j | 0 <= i < |s.masters| && 0 <= j < |s.masters| && i != j
        ensures Receive(i, s.masters[i], Fresh(s, j)).configEpoch == s.masters[i].configEpoch
      {
        assert i < j || j < i;
      }
    }
  }
}
