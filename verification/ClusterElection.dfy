/**
  Failover elections of Redis Cluster (cluster.c): slaves ask for votes, masters
  vote at most once per epoch, and a slave that counts a majority takes over.
 */
module ClusterElection {
  import opened Basics

  /** The part of a node's state that elections read and write. */
  datatype Node = Node(
    currentEpoch: nat, lastVoteEpoch: nat, configEpoch: nat,
    authEpoch: nat, authCount: nat, authSent: bool, isMaster: bool)

  // ---------------------------------------------------------------------
  // What the handlers do, as functions

  /** Lines 1588-1589: adopt a greater currentEpoch from any known sender. */
  function SeeEpoch(n: Node, e: nat): Node
  {
    if e > n.currentEpoch then n.(currentEpoch := e) else n
  }

  /** clusterSendFailoverAuthIfNeeded; `agrees` stands for the conditions that are not about epochs. */
  function OnAuthRequest(n: Node, reqEpoch: nat, agrees: bool): (Node, bool)
  {
    if !agrees || reqEpoch < n.currentEpoch || n.lastVoteEpoch == n.currentEpoch then (n, false)
    else (n.(lastVoteEpoch := n.currentEpoch), true)
  }

  /** FAILOVER_AUTH_ACK from a master serving slots. */
  function OnAuthAck(n: Node, ackEpoch: nat): Node
  {
    if ackEpoch >= n.authEpoch then n.(authCount := n.authCount + 1) else n
  }

  /** What the clock and the replication state say when clusterHandleSlaveFailover runs. */
  datatype Clock = Clock(eligible: bool, retryElapsed: bool, tooEarly: bool, expired: bool) {
    /** An attempt is under way, neither too early nor too old. */
    predicate Open() { eligible && !retryElapsed && !tooEarly && !expired }
  }

  datatype Action = Nothing | AskForVotes | TakeOver

  /** clusterHandleSlaveFailover */
  function OnFailoverCron(n: Node, c: Clock, quorum: nat): (Node, Action)
  {
    if n.isMaster || !c.eligible then (n, Nothing)
    else if c.retryElapsed then (n.(authCount := 0, authSent := false), Nothing)
    else if c.tooEarly || c.expired then (n, Nothing)
    else if !n.authSent then
      (n.(currentEpoch := n.currentEpoch + 1, authEpoch := n.currentEpoch + 1, authSent := true), AskForVotes)
    else if n.authCount >= quorum then
      (n.(configEpoch := if n.configEpoch < n.authEpoch then n.authEpoch else n.configEpoch, isMaster := true), TakeOver)
    else (n, Nothing)
  }

  /** What a voter knows of the slave that asks. */
  datatype Requester = Requester(isMaster: bool, masterKnown: bool, masterFailed: bool, votedRecently: bool)

  /** server.cluster, with its handlers; a slot nobody serves has epoch -1 in `served`. */
  class ClusterState {
    var node: Node
    var numslots: nat
    var served: seq<int>

    constructor (node: Node, numslots: nat, served: seq<int>)
      ensures this.node == node && this.numslots == numslots && this.served == served
    {
      this.node, this.numslots, this.served := node, numslots, served;
    }

    /** The conditions of a vote that are not about currentEpoch and lastVoteEpoch. */
    ghost predicate Agrees(reqConfigEpoch: nat, claimed: seq<bool>, requester: Requester, forceAck: bool)
      requires |claimed| == |served|
      reads this
    {
      && node.isMaster && numslots > 0
      && !requester.isMaster && requester.masterKnown && (requester.masterFailed || forceAck)
      && !requester.votedRecently
      && forall j :: 0 <= j < |claimed| && claimed[j] ==> served[j] <= reqConfigEpoch
    }

    /** The common part of clusterProcessPacket. */
    method ProcessHeader(senderCurrentEpoch: nat)
      modifies this`node
      ensures node == old(node).(currentEpoch := Max(old(node).currentEpoch, senderCurrentEpoch))
    {
      if senderCurrentEpoch > node.currentEpoch {
        node := node.(currentEpoch := senderCurrentEpoch);
      }
    }

    /**
      clusterSendFailoverAuthIfNeeded. What the voter knows of the requester: whether it is a master
      itself, whether its master is known and marked as failed, and whether a slave of that master
      got this node's vote within twice the node timeout.
     */
    method SendAuthIfNeeded(reqEpoch: nat, reqConfigEpoch: nat, claimed: seq<bool>, requester: Requester, forceAck: bool)
      returns (granted: bool)
      requires |claimed| == |served|
      modifies this`node
      ensures granted <==>
                && old(node).isMaster && numslots > 0
                && reqEpoch >= old(node).currentEpoch && old(node).lastVoteEpoch != old(node).currentEpoch
                && !requester.isMaster && requester.masterKnown && (requester.masterFailed || forceAck)
                && !requester.votedRecently
                && (forall j :: 0 <= j < |claimed| && claimed[j] ==> served[j] <= reqConfigEpoch)
      ensures granted ==> node == old(node).(lastVoteEpoch := node.currentEpoch)
      ensures !granted ==> node == old(node)
    {
      granted := false;
      if !node.isMaster || numslots == 0 { return; }
      if reqEpoch < node.currentEpoch { return; }
      if node.lastVoteEpoch == node.currentEpoch { return; }
      if requester.isMaster || !requester.masterKnown || (!requester.masterFailed && !forceAck) { return; }
      if requester.votedRecently { return; }
      var j := 0;
      while j < |claimed|
        invariant j <= |claimed|
        invariant forall i :: 0 <= i < j && claimed[i] ==> served[i] <= reqConfigEpoch
      {
        if claimed[j] && !(served[j] == -1 || served[j] <= reqConfigEpoch) { return; }
        j := j + 1;
      }
      granted := true;
      node := node.(lastVoteEpoch := node.currentEpoch);
    }

    /** FAILOVER_AUTH_ACK in clusterProcessPacket */
    method ReceiveAck(senderIsMaster: bool, senderSlots: nat, senderCurrentEpoch: nat)
      modifies this`node
      ensures node == old(node).(authCount := node.authCount)
      ensures old(node).authCount <= node.authCount <= old(node).authCount + 1
      ensures node.authCount > old(node).authCount <==> senderIsMaster && senderSlots > 0 && senderCurrentEpoch >= node.authEpoch
    {
      if senderIsMaster && senderSlots > 0 && senderCurrentEpoch >= node.authEpoch {
        node := node.(authCount := node.authCount + 1);
      }
    }

    /** clusterHandleSlaveFailover */
    method HandleSlaveFailover(c: Clock, size: nat) returns (a: Action)
      modifies this`node
      ensures a == TakeOver <==> node.isMaster && !old(node).isMaster
      ensures a == TakeOver ==>
                && c.Open() && old(node).authSent && 2 * node.authCount > size
                && node == old(node).(isMaster := true, configEpoch := Max(old(node).configEpoch, node.authEpoch))
      ensures a == AskForVotes <==> node.currentEpoch > old(node).currentEpoch
      ensures a == AskForVotes ==>
                && c.Open() && !old(node).isMaster && !old(node).authSent && node.currentEpoch == old(node).currentEpoch + 1
                && node == old(node).(currentEpoch := node.authEpoch, authEpoch := node.authEpoch, authSent := true)
      ensures a == Nothing ==>
                node == if !old(node).isMaster && c.eligible && c.retryElapsed
                        then old(node).(authCount := 0, authSent := false) else old(node)
      ensures a == Nothing && !node.isMaster && c.Open() ==> node.authSent && 2 * node.authCount <= size
    {
      var neededQuorum := size / 2 + 1;
      if node.isMaster || !c.eligible { return Nothing; }
      if c.retryElapsed {
        node := node.(authCount := 0);
        node := node.(authSent := false);
        return Nothing;
      }
      if c.tooEarly { return Nothing; }
      if c.expired { return Nothing; }
      if !node.authSent {
        node := node.(currentEpoch := node.currentEpoch + 1);
        node := node.(authEpoch := node.currentEpoch);
        node := node.(authSent := true);
        return AskForVotes;
      }
      if node.authCount >= neededQuorum {
        if node.configEpoch < node.authEpoch {
          node := node.(configEpoch := node.authEpoch);
        }
        node := node.(isMaster := true);
        return TakeOver;
      }
      return Nothing;
    }
  }

  // ---------------------------------------------------------------------
  // The cluster: nodes, messages, and what happened so far

  datatype Request = Request(from: nat, epoch: nat)
  datatype Ack = Ack(from: nat, to: nat, epoch: nat)

  /**
    `voted` and `won` record history: (master, epoch) -> slave, and (slave, epoch) -> late acks
    in the count, for every won election. `counted[i]` are the masters whose vote node i has
    counted in its current attempt, `late[i]` is how many acks it has counted between its last
    reset and asking again: those are votes of an earlier attempt.
   */
  datatype Cluster = Cluster(
    nodes: seq<Node>, requests: set<Request>, acks: set<Ack>,
    voted: map<(nat, nat), nat>, won: map<(nat, nat), nat>,
    counted: seq<set<nat>>, late: seq<nat>)

  datatype Step =
    | DeliverRequest(r: Request, to: nat, agrees: bool)
    | DeliverAck(a: Ack)
    | LoseAck(a: Ack)
    | Cron(i: nat, c: Clock)
    | Learn(i: nat, e: nat)

  /** `voters`: the masters that serve slots, a fixed set all nodes agree on. */
  predicate Enabled(voters: set<nat>, s: Cluster, step: Step)
  {
    match step
    case DeliverRequest(r, to, agrees) => r in s.requests && to in voters && to < |s.nodes| && r.from < |s.nodes|
    case DeliverAck(a) => a in s.acks && a.to < |s.nodes|
    case LoseAck(a) => a in s.acks
    case Cron(i, c) => i < |s.nodes|
    case Learn(i, e) => i < |s.nodes|
  }

  function Apply(voters: set<nat>, s: Cluster, step: Step): Cluster
    requires Enabled(voters, s, step) && |s.counted| == |s.late| == |s.nodes|
  {
    match step
    case DeliverRequest(r, to, agrees) =>
      var seen := SeeEpoch(s.nodes[to], r.epoch);
      var (n, granted) := OnAuthRequest(seen, r.epoch, agrees);
      var s1 := s.(nodes := s.nodes[to := n]);
      if granted
      then s1.(acks := s.acks + {Ack(to, r.from, n.currentEpoch)}, voted := s.voted[(to, n.currentEpoch) := r.from])
      else s1
    case DeliverAck(a) =>
      var seen := SeeEpoch(s.nodes[a.to], a.epoch);
      var n := OnAuthAck(seen, a.epoch);
      var s1 := s.(nodes := s.nodes[a.to := n], acks := s.acks - {a});
      if a.epoch < seen.authEpoch then s1
      else if seen.authSent then s1.(counted := s.counted[a.to := s.counted[a.to] + {a.from}])
      else s1.(late := s.late[a.to := s.late[a.to] + 1])
    case LoseAck(a) => s.(acks := s.acks - {a})
    case Cron(i, c) =>
      var (n, action) := OnFailoverCron(s.nodes[i], c, |voters| / 2 + 1);
      var s1 := s.(nodes := s.nodes[i := n]);
      (match action
       case Nothing =>
         if !s.nodes[i].isMaster && c.eligible && c.retryElapsed
         then s1.(counted := s.counted[i := {}], late := s.late[i := 0]) else s1
       case AskForVotes => s1.(requests := s.requests + {Request(i, n.currentEpoch)})
       case TakeOver => s1.(won := s.won[(i, n.authEpoch) := s.late[i]]))
    case Learn(i, e) => s.(nodes := s.nodes[i := SeeEpoch(s.nodes[i], e)])
  }

  /** No ack outlives its attempt: none is counted between the reset and the next request for votes. */
  predicate OnTime(s: Cluster, step: Step)
  {
    (step.DeliverAck? && step.a.to < |s.nodes| && step.a.epoch >= s.nodes[step.a.to].authEpoch)
    ==> s.nodes[step.a.to].authSent
  }

  predicate Initial(s: Cluster)
  {
    && s.requests == {} && s.acks == {} && s.voted == map[] && s.won == map[]
    && |s.counted| == |s.late| == |s.nodes|
    && (forall i :: 0 <= i < |s.nodes| ==>
          && s.nodes[i].lastVoteEpoch <= s.nodes[i].currentEpoch && s.nodes[i].authEpoch <= s.nodes[i].currentEpoch
          && s.nodes[i].authCount == 0 && !s.nodes[i].authSent && s.counted[i] == {} && s.late[i] == 0)
  }

  // ---------------------------------------------------------------------
  // The handlers perform these steps

  /** The nodes of a cluster and the messages between them; the ghost fields record history. */
  class Network {
    const voters: set<nat>
    const procs: seq<ClusterState>
    var requests: set<Request>
    var acks: set<Ack>
    ghost var voted: map<(nat, nat), nat>
    ghost var won: map<(nat, nat), nat>
    ghost var counted: seq<set<nat>>
    ghost var late: seq<nat>

    ghost predicate Valid()
      reads this
    {
      && |counted| == |late| == |procs|
      && forall i, j :: 0 <= i < j < |procs| ==> procs[i] != procs[j]
    }

    ghost function State(): Cluster
      reads this, procs
    {
      Cluster(seq(|procs|, i requires 0 <= i < |procs| reads procs => procs[i].node), requests, acks, voted, won, counted, late)
    }

    constructor (voters: set<nat>, procs: seq<ClusterState>)
      requires forall i, j :: 0 <= i < j < |procs| ==> procs[i] != procs[j]
      ensures Valid() && this.voters == voters && this.procs == procs
      ensures State().requests == {} && State().acks == {} && State().voted == map[] && State().won == map[]
      ensures forall i :: 0 <= i < |procs| ==> counted[i] == {} && late[i] == 0
    {
      this.voters, this.procs := voters, procs;
      requests, acks, voted, won := {}, {}, map[], map[];
      counted, late := seq(|procs|, _ => {}), seq(|procs|, _ => 0);
    }

    /** After a handler has run on one node only that node has changed. */
    twostate lemma OnlyNode(to: nat)
      requires Valid() && to < |procs|
      requires forall i :: 0 <= i < |procs| && i != to ==> procs[i].node == old(procs[i].node)
      ensures State().nodes == old(State().nodes)[to := procs[to].node]
    {
      var now, before := State().nodes, old(State().nodes);
      forall i | 0 <= i < |procs| ensures now[i] == before[to := procs[to].node][i] { }
    }

    /** A FAILOVER_AUTH_REQUEST arrives; `claimed` and reqConfigEpoch are in the packet. */
    method RequestArrives(r: Request, to: nat, reqConfigEpoch: nat, claimed: seq<bool>, requester: Requester, forceAck: bool)
      requires Valid() && r in requests && r.from < |procs| && to < |procs| && to in voters
      requires |claimed| == |procs[to].served|
      modifies this`acks, this`voted, procs[to]
      ensures Valid()
      ensures State() == Apply(voters, old(State()),
                               Step.DeliverRequest(r, to, old(procs[to].Agrees(reqConfigEpoch, claimed, requester, forceAck))))
    {
      var p := procs[to];
      p.ProcessHeader(r.epoch);
      var granted := p.SendAuthIfNeeded(r.epoch, reqConfigEpoch, claimed, requester, forceAck);
      if granted {
        acks := acks + {Ack(to, r.from, p.node.currentEpoch)};
        voted := voted[(to, p.node.currentEpoch) := r.from];
      }
      OnlyNode(to);
    }

    /** A FAILOVER_AUTH_ACK of a master that serves slots arrives. */
    method AckArrives(a: Ack, senderSlots: nat)
      requires Valid() && a in acks && a.to < |procs| && senderSlots > 0
      modifies this`acks, this`counted, this`late, procs[a.to]
      ensures Valid() && State() == Apply(voters, old(State()), Step.DeliverAck(a))
    {
      var p := procs[a.to];
      p.ProcessHeader(a.epoch);
      ghost var seen := p.node;
      p.ReceiveAck(true, senderSlots, a.epoch);
      acks := acks - {a};
      if a.epoch >= seen.authEpoch {
        if seen.authSent { counted := counted[a.to := counted[a.to] + {a.from}]; }
        else { late := late[a.to := late[a.to] + 1]; }
      }
      OnlyNode(a.to);
    }

    /** The periodic call of clusterHandleSlaveFailover on one node. */
    method CronRuns(i: nat, c: Clock)
      requires Valid() && i < |procs|
      modifies this`requests, this`won, this`counted, this`late, procs[i]
      ensures Valid() && State() == Apply(voters, old(State()), Step.Cron(i, c))
    {
      var p := procs[i];
      ghost var reset := !p.node.isMaster && c.eligible && c.retryElapsed;
      var a := p.HandleSlaveFailover(c, |voters|);
      match a {
        case Nothing => if reset { counted, late := counted[i := {}], late[i := 0]; }
        case AskForVotes => requests := requests + {Request(i, p.node.currentEpoch)};
        case TakeOver => won := won[(i, p.node.authEpoch) := late[i]];
      }
      OnlyNode(i);
    }

    /** Any other packet: only its header matters here. */
    method PacketArrives(i: nat, e: nat)
      requires Valid() && i < |procs|
      modifies procs[i]
      ensures Valid() && State() == Apply(voters, old(State()), Step.Learn(i, e))
    {
      procs[i].ProcessHeader(e);
      OnlyNode(i);
    }
  }

  // ---------------------------------------------------------------------
  // Invariants

  /** A vote is for an epoch the master has already left behind or marked as voted. */
  ghost predicate VotesAreOld(voters: set<nat>, s: Cluster)
  {
    && (forall i :: 0 <= i < |s.nodes| ==> s.nodes[i].lastVoteEpoch <= s.nodes[i].currentEpoch)
    && forall m, e :: (m, e) in s.voted ==> m in voters && m < |s.nodes| && e <= s.nodes[m].lastVoteEpoch
  }

  /** Requests and acks never carry an epoch beyond the asking slave's own attempt. */
  ghost predicate EpochsOfMessages(s: Cluster)
  {
    && (forall i :: 0 <= i < |s.nodes| ==> s.nodes[i].authEpoch <= s.nodes[i].currentEpoch)
    && (forall r :: r in s.requests ==> r.from < |s.nodes| && r.epoch <= s.nodes[r.from].authEpoch)
    && (forall a :: a in s.acks ==>
          && a.to < |s.nodes| && a.epoch <= s.nodes[a.to].authEpoch
          && (a.from, a.epoch) in s.voted && s.voted[(a.from, a.epoch)] == a.to)
  }

  /**
    A slave's count is the number of masters whose vote for its current epoch it has counted,
    plus the late acks; an ack still under way has not been counted.
   */
  ghost predicate CountsAreVotes(s: Cluster)
  {
    && |s.counted| == |s.late| == |s.nodes|
    && (forall i :: 0 <= i < |s.nodes| ==> s.nodes[i].authCount == |s.counted[i]| + s.late[i])
    && (forall i :: 0 <= i < |s.nodes| && !s.nodes[i].authSent ==> s.counted[i] == {})
    && (forall i, m :: 0 <= i < |s.nodes| && m in s.counted[i] ==>
          (m, s.nodes[i].authEpoch) in s.voted && s.voted[(m, s.nodes[i].authEpoch)] == i)
    && (forall a :: a in s.acks && a.to < |s.nodes| && a.epoch == s.nodes[a.to].authEpoch ==> a.from !in s.counted[a.to])
  }

  /** The masters that voted for slave i in epoch e. */
  ghost function Supporters(voters: set<nat>, voted: map<(nat, nat), nat>, e: nat, i: nat): set<nat>
  {
    set m | m in voters && (m, e) in voted && voted[(m, e)] == i
  }

  /** Every win is backed by a majority, of real votes for its epoch and of late acks. */
  ghost predicate WinsAreBacked(voters: set<nat>, s: Cluster)
  {
    forall i, e :: (i, e) in s.won ==> |Supporters(voters, s.voted, e, i)| + s.won[(i, e)] >= |voters| / 2 + 1
  }

  ghost predicate Inv(voters: set<nat>, s: Cluster)
  {
    VotesAreOld(voters, s) && EpochsOfMessages(s) && CountsAreVotes(s)
  }

  /** Only a delivered request makes a node vote; nothing else touches votes or lowers epochs. */
  lemma VotesElsewhereStay(voters: set<nat>, s: Cluster, step: Step)
    requires |s.counted| == |s.late| == |s.nodes| && Enabled(voters, s, step) && !step.DeliverRequest?
    ensures var s' := Apply(voters, s, step);
            && s'.voted == s.voted && |s'.nodes| == |s.nodes|
            && forall i :: 0 <= i < |s.nodes| ==>
                 s'.nodes[i].lastVoteEpoch == s.nodes[i].lastVoteEpoch && s'.nodes[i].currentEpoch >= s.nodes[i].currentEpoch
  {
  }

  /**
    What a delivered request does: one ack and one vote for the epoch of the request if the voter
    agrees, is not ahead and has not voted in that epoch, and nothing but a greater currentEpoch otherwise.
   */
  lemma RequestEffect(voters: set<nat>, s: Cluster, r: Request, to: nat, agrees: bool)
    requires |s.counted| == |s.late| == |s.nodes| && Enabled(voters, s, DeliverRequest(r, to, agrees))
    ensures var s', n := Apply(voters, s, DeliverRequest(r, to, agrees)), s.nodes[to];
            var seen := Max(n.currentEpoch, r.epoch);
            if agrees && r.epoch >= n.currentEpoch && n.lastVoteEpoch != r.epoch
            then s' == s.(nodes := s.nodes[to := n.(currentEpoch := seen, lastVoteEpoch := r.epoch)],
                          acks := s.acks + {Ack(to, r.from, r.epoch)}, voted := s.voted[(to, r.epoch) := r.from])
            else s' == s.(nodes := s.nodes[to := n.(currentEpoch := seen)])
  {
  }

  /** A vote is never given twice for one epoch, and never taken back. */
  lemma VotesOnlyGrow(voters: set<nat>, s: Cluster, step: Step)
    requires Inv(voters, s) && Enabled(voters, s, step)
    ensures VotesAreOld(voters, Apply(voters, s, step))
    ensures forall k :: k in s.voted ==> k in Apply(voters, s, step).voted && Apply(voters, s, step).voted[k] == s.voted[k]
  {
    hide EpochsOfMessages, OnFailoverCron, OnAuthAck;
    if step.DeliverRequest? {
      var s', m := Apply(voters, s, step), step.to;
      assert s.nodes[m].lastVoteEpoch <= s.nodes[m].currentEpoch <= s'.nodes[m].currentEpoch;
      assert forall e :: (m, e) in s.voted ==> e <= s.nodes[m].lastVoteEpoch;
    } else {
      VotesElsewhereStay(voters, s, step);
    }
  }

  lemma EpochsStayOrdered(voters: set<nat>, s: Cluster, step: Step)
    requires Inv(voters, s) && Enabled(voters, s, step)
    ensures EpochsOfMessages(Apply(voters, s, step))
  {
    hide CountsAreVotes, VotesAreOld, Apply;
    InvSizes(voters, s);
    VotesOnlyGrow(voters, s, step);
    EpochsGrow(voters, s, step);
    NewMessages(voters, s, step);
  }

  lemma EpochsGrow(voters: set<nat>, s: Cluster, step: Step)
    requires |s.counted| == |s.late| == |s.nodes| && EpochsOfMessages(s) && Enabled(voters, s, step)
    ensures var s' := Apply(voters, s, step);
            && |s'.nodes| == |s.nodes|
            && forall i :: 0 <= i < |s.nodes| ==>
                 s'.nodes[i].authEpoch <= s'.nodes[i].currentEpoch && s.nodes[i].authEpoch <= s'.nodes[i].authEpoch
  {
    var s' := Apply(voters, s, step);
    forall i | 0 <= i < |s.nodes|
      ensures s'.nodes[i].authEpoch <= s'.nodes[i].currentEpoch && s.nodes[i].authEpoch <= s'.nodes[i].authEpoch
    {
      assert s.nodes[i].authEpoch <= s.nodes[i].currentEpoch;
    }
  }

  /** A step adds at most one message: a request for the sender's new attempt, or an ack for a vote just given. */
  lemma NewMessages(voters: set<nat>, s: Cluster, step: Step)
    requires Inv(voters, s) && Enabled(voters, s, step)
    ensures |s.counted| == |s.late| == |s.nodes| && |Apply(voters, s, step).nodes| == |s.nodes|
    ensures var s' := Apply(voters, s, step);
            && (forall r :: r in s'.requests && r !in s.requests ==> r.from < |s.nodes| && r.epoch == s'.nodes[r.from].authEpoch)
            && (forall a :: a in s'.acks && a !in s.acks ==>
                  && a.to < |s.nodes| && a.epoch <= s.nodes[a.to].authEpoch
                  && (a.from, a.epoch) in s'.voted && s'.voted[(a.from, a.epoch)] == a.to)
  {
    hide CountsAreVotes;
    InvSizes(voters, s);
  }

  lemma InvSizes(voters: set<nat>, s: Cluster)
    requires Inv(voters, s)
    ensures |s.counted| == |s.late| == |s.nodes|
  {
  }

  lemma CountsStayHonest(voters: set<nat>, s: Cluster, step: Step)
    requires Inv(voters, s) && Enabled(voters, s, step)
    ensures CountsAreVotes(Apply(voters, s, step))
  {
    hide *;
    match step
    case DeliverAck(a) => CountsAfterAck(voters, s, step);
    case DeliverRequest(r, to, agrees) => CountsAfterRequest(voters, s, step);
    case LoseAck(a) => CountsAfterOther(voters, s, step);
    case Cron(i, c) => CountsAfterCron(voters, s, step);
    case Learn(i, e) => CountsAfterOther(voters, s, step);
  }

  lemma CountsAfterAck(voters: set<nat>, s: Cluster, step: Step)
    requires Inv(voters, s) && Enabled(voters, s, step) && step.DeliverAck?
    ensures CountsAreVotes(Apply(voters, s, step))
  {
    hide VotesAreOld;
    var a := step.a;
    assert a.epoch <= s.nodes[a.to].authEpoch;
  }

  lemma CountsAfterRequest(voters: set<nat>, s: Cluster, step: Step)
    requires Inv(voters, s) && Enabled(voters, s, step) && step.DeliverRequest?
    ensures CountsAreVotes(Apply(voters, s, step))
  {
    hide EpochsOfMessages;
    VotesOnlyGrow(voters, s, step);
    var s' := Apply(voters, s, step);
    assert forall i :: 0 <= i < |s.nodes| ==>
      s'.nodes[i].authEpoch == s.nodes[i].authEpoch && s'.nodes[i].authSent == s.nodes[i].authSent && s'.nodes[i].authCount == s.nodes[i].authCount;
  }

  lemma CountsAfterCron(voters: set<nat>, s: Cluster, step: Step)
    requires Inv(voters, s) && Enabled(voters, s, step) && step.Cron?
    ensures CountsAreVotes(Apply(voters, s, step))
  {
    hide VotesAreOld, CountsAreVotes;
    InvSizes(voters, s);
    CountOf(s, step.i);
    CountsChangeAt(s, Apply(voters, s, step), step.i);
  }

  /** What the invariant says of one slave. */
  ghost predicate CountIsVotes(s: Cluster, i: nat)
  {
    && i < |s.nodes| == |s.counted| == |s.late|
    && s.nodes[i].authCount == |s.counted[i]| + s.late[i]
    && (!s.nodes[i].authSent ==> s.counted[i] == {})
    && (forall m :: m in s.counted[i] ==> (m, s.nodes[i].authEpoch) in s.voted && s.voted[(m, s.nodes[i].authEpoch)] == i)
    && (forall a :: a in s.acks && a.to == i && a.epoch == s.nodes[i].authEpoch ==> a.from !in s.counted[i])
  }

  lemma CountOf(s: Cluster, i: nat)
    requires CountsAreVotes(s) && i < |s.nodes|
    ensures CountIsVotes(s, i)
  {
  }

  lemma CountsChangeAt(s: Cluster, s': Cluster, i: nat)
    requires CountsAreVotes(s) && CountIsVotes(s', i)
    requires |s'.nodes| == |s.nodes| && s'.voted == s.voted && s'.acks == s.acks
    requires forall j :: 0 <= j < |s.nodes| && j != i ==>
               s'.nodes[j] == s.nodes[j] && s'.counted[j] == s.counted[j] && s'.late[j] == s.late[j]
    ensures CountsAreVotes(s')
  {
  }

  lemma CountsAfterOther(voters: set<nat>, s: Cluster, step: Step)
    requires Inv(voters, s) && Enabled(voters, s, step) && (step.LoseAck? || step.Learn?)
    ensures CountsAreVotes(Apply(voters, s, step))
  {
    hide VotesAreOld;
  }

  lemma SupportersGrow(voters: set<nat>, v: map<(nat, nat), nat>, v': map<(nat, nat), nat>, e: nat, i: nat)
    requires forall k :: k in v ==> k in v' && v'[k] == v[k]
    ensures |Supporters(voters, v, e, i)| <= |Supporters(voters, v', e, i)|
  {
    SubsetSize(Supporters(voters, v, e, i), Supporters(voters, v', e, i));
  }

  /** A count that wins consists of votes for its epoch and of late acks. */
  lemma WinIsBacked(voters: set<nat>, s: Cluster, i: nat)
    requires Inv(voters, s) && i < |s.nodes| && s.nodes[i].authCount >= |voters| / 2 + 1
    ensures |Supporters(voters, s.voted, s.nodes[i].authEpoch, i)| + s.late[i] >= |voters| / 2 + 1
  {
    SubsetSize(s.counted[i], Supporters(voters, s.voted, s.nodes[i].authEpoch, i));
  }

  // ---------------------------------------------------------------------
  // Runs

  ghost predicate Run(voters: set<nat>, states: seq<Cluster>, steps: seq<Step>)
  {
    && |states| == |steps| + 1 && Initial(states[0])
    && forall k :: 0 <= k < |steps| ==>
         && |states[k].counted| == |states[k].late| == |states[k].nodes|
         && Enabled(voters, states[k], steps[k]) && states[k + 1] == Apply(voters, states[k], steps[k])
  }

  ghost predicate AllOnTime(states: seq<Cluster>, steps: seq<Step>)
    requires |states| == |steps| + 1
  {
    forall k :: 0 <= k < |steps| ==> OnTime(states[k], steps[k])
  }

  lemma {:induction false} RunInv(voters: set<nat>, states: seq<Cluster>, steps: seq<Step>, n: nat)
    requires Run(voters, states, steps) && n <= |steps|
    ensures Inv(voters, states[n])
    decreases n
  {
    hide VotesAreOld, EpochsOfMessages, CountsAreVotes, Apply, Enabled;
    if n == 0 {
      InitialInv(voters, states[0]);
    } else {
      RunInv(voters, states, steps, n - 1);
      var s, step := states[n - 1], steps[n - 1];
      assert states[n - 1 + 1] == Apply(voters, s, step);
      VotesOnlyGrow(voters, s, step);
      EpochsStayOrdered(voters, s, step);
      CountsStayHonest(voters, s, step);
    }
  }

  lemma InitialInv(voters: set<nat>, s: Cluster)
    requires Initial(s)
    ensures Inv(voters, s)
  {
  }

  /** currentEpoch never goes back. */
  lemma CurrentEpochMonotone(voters: set<nat>, s: Cluster, step: Step, i: nat)
    requires Enabled(voters, s, step) && |s.counted| == |s.late| == |s.nodes| && i < |s.nodes|
    ensures i < |Apply(voters, s, step).nodes| && s.nodes[i].currentEpoch <= Apply(voters, s, step).nodes[i].currentEpoch
  {
  }

  lemma {:induction false} NoLateAcks(voters: set<nat>, states: seq<Cluster>, steps: seq<Step>, n: nat, i: nat)
    requires Run(voters, states, steps) && AllOnTime(states, steps) && n <= |steps|
    ensures |states[n].late| == |states[n].nodes| == |states[0].nodes|
    ensures i < |states[n].nodes| ==> states[n].late[i] == 0
    decreases n
  {
    if n != 0 {
      NoLateAcks(voters, states, steps, n - 1, i);
      assert states[n - 1 + 1] == Apply(voters, states[n - 1], steps[n - 1]);
      assert OnTime(states[n - 1], steps[n - 1]);
    }
  }

  lemma {:induction false} RunWinsAreBacked(voters: set<nat>, states: seq<Cluster>, steps: seq<Step>, n: nat)
    requires Run(voters, states, steps) && n <= |steps|
    ensures WinsAreBacked(voters, states[n])
    decreases n
  {
    hide Inv;
    if n != 0 {
      RunWinsAreBacked(voters, states, steps, n - 1);
      RunInv(voters, states, steps, n - 1);
      var s, step := states[n - 1], steps[n - 1];
      assert states[n - 1 + 1] == Apply(voters, s, step);
      VotesOnlyGrow(voters, s, step);
      WinsStayBacked(voters, s, step);
    }
  }

  lemma WinsStayBacked(voters: set<nat>, s: Cluster, step: Step)
    requires Inv(voters, s) && Enabled(voters, s, step) && WinsAreBacked(voters, s)
    ensures WinsAreBacked(voters, Apply(voters, s, step))
  {
    var s' := Apply(voters, s, step);
    VotesOnlyGrow(voters, s, step);
    hide Inv, VotesAreOld, EpochsOfMessages, CountsAreVotes;
    forall i, e | (i, e) in s'.won ensures |Supporters(voters, s'.voted, e, i)| + s'.won[(i, e)] >= |voters| / 2 + 1 {
      SupportersGrow(voters, s.voted, s'.voted, e, i);
      if (i, e) !in s.won || s'.won[(i, e)] != s.won[(i, e)] {
        WinIsBacked(voters, s, i);
      }
    }
  }

  /** How many late acks two elections of one epoch need between them: 1 for an odd electorate, 2 for an even one. */
  function Gap(voters: nat): (g: nat)
    ensures 1 <= g <= 2
  {
    2 * (voters / 2 + 1) - voters
  }

  lemma DisjointSupport(voters: set<nat>, v: map<(nat, nat), nat>, e: nat, i: nat, j: nat)
    requires i != j
    ensures |Supporters(voters, v, e, i)| + |Supporters(voters, v, e, j)| <= |voters|
  {
    var a, b := Supporters(voters, v, e, i), Supporters(voters, v, e, j);
    assert a * b == {};
    assert |a + b| == |a| + |b|;
    SubsetSize(a + b, voters);
  }

  /**
    Two slaves that win the same epoch have, in every run, counted at least this many late acks
    between them in the attempts they won.
   */
  lemma WinnersCountLateAcks(voters: set<nat>, states: seq<Cluster>, steps: seq<Step>, i: nat, j: nat, e: nat)
    requires Run(voters, states, steps) && i != j
    requires (i, e) in states[|steps|].won && (j, e) in states[|steps|].won
    ensures states[|steps|].won[(i, e)] + states[|steps|].won[(j, e)] >= Gap(|voters|)
  {
    RunWinsAreBacked(voters, states, steps, |steps|);
    DisjointSupport(voters, states[|steps|].voted, e, i, j);
  }

  /** Election safety: when no ack outlives its attempt, no two slaves ever win an election for the same epoch. */
  lemma ElectionSafety(voters: set<nat>, states: seq<Cluster>, steps: seq<Step>, i: nat, j: nat, e: nat)
    requires Run(voters, states, steps) && AllOnTime(states, steps)
    requires (i, e) in states[|steps|].won && (j, e) in states[|steps|].won
    ensures i == j
  {
    NoLateWins(voters, states, steps, |steps|);
    if i != j { WinnersCountLateAcks(voters, states, steps, i, j, e); }
  }

  lemma {:induction false} NoLateWins(voters: set<nat>, states: seq<Cluster>, steps: seq<Step>, n: nat)
    requires Run(voters, states, steps) && AllOnTime(states, steps) && n <= |steps|
    ensures forall w :: w in states[n].won ==> states[n].won[w] == 0
    decreases n
  {
    if n != 0 {
      NoLateWins(voters, states, steps, n - 1);
      assert states[n - 1 + 1] == Apply(voters, states[n - 1], steps[n - 1]);
      if steps[n - 1].Cron? { NoLateAcks(voters, states, steps, n - 1, steps[n - 1].i); }
    }
  }

  // ---------------------------------------------------------------------
  // That many late acks are enough, whatever the size of the electorate

  const GO := Clock(true, false, false, false)
  const RETRY := Clock(true, true, false, false)

  ghost predicate Reachable(voters: set<nat>, s: Cluster)
  {
    exists states, steps :: Run(voters, states, steps) && states[|steps|] == s
  }

  lemma Extend(voters: set<nat>, s: Cluster, step: Step)
    requires Reachable(voters, s) && Enabled(voters, s, step)
    ensures |s.counted| == |s.late| == |s.nodes| && Reachable(voters, Apply(voters, s, step))
  {
    hide Apply, Enabled, Inv;
    var states, steps :| Run(voters, states, steps) && states[|steps|] == s;
    RunInv(voters, states, steps, |steps|);
    InvSizes(voters, s);
    ExtendRun(voters, states, steps, step);
  }

  lemma ExtendRun(voters: set<nat>, states: seq<Cluster>, steps: seq<Step>, step: Step)
    requires Run(voters, states, steps) && Enabled(voters, states[|steps|], step)
    requires |states[|steps|].counted| == |states[|steps|].late| == |states[|steps|].nodes|
    ensures Run(voters, states + [Apply(voters, states[|steps|], step)], steps + [step])
  {
    hide Apply, Enabled, Initial;
    var s := states[|steps|];
    var states', steps' := states + [Apply(voters, s, step)], steps + [step];
    forall k | 0 <= k < |steps'|
      ensures |states'[k].counted| == |states'[k].late| == |states'[k].nodes|
      ensures Enabled(voters, states'[k], steps'[k]) && states'[k + 1] == Apply(voters, states'[k], steps'[k])
    {
      if k < |steps| { assert states'[k] == states[k] && states'[k + 1] == states[k + 1] && steps'[k] == steps[k]; }
    }
  }

  /** n masters, numbered from 0, and the slaves n and n + 1. */
  function Voters(n: nat): (r: set<nat>)
    ensures |r| == n && forall m :: m in r <==> 0 <= m < n
  {
    if n == 0 then {} else Voters(n - 1) + {n - 1}
  }

  function Slave(epoch: nat, auth: nat, count: nat, sent: bool): Node { Node(epoch, 0, 0, auth, count, sent, false) }

  ghost predicate Sizes(s: Cluster, n: nat) { |s.nodes| == |s.counted| == |s.late| == n + 2 }

  /** From `from` on, the masters can still vote in epoch e. */
  ghost predicate CanVote(s: Cluster, n: nat, from: nat, e: nat)
    requires Sizes(s, n)
  {
    forall k :: from <= k < n ==> s.nodes[k].currentEpoch <= e && s.nodes[k].lastVoteEpoch < e
  }

  /** Slave n has asked in epoch 1 and m masters have answered; its acks are still under way. */
  ghost predicate Asked(s: Cluster, n: nat, m: nat)
  {
    && Sizes(s, n) && s.nodes[n] == Slave(1, 1, 0, true) && s.nodes[n + 1] == Slave(0, 0, 0, false)
    && Request(n, 1) in s.requests && (forall k: nat :: k < m ==> Ack(k, n, 1) in s.acks)
    && CanVote(s, n, m, 1) && CanVote(s, n, 0, 2)
    && s.late[n] == s.late[n + 1] == 0 && s.won == map[]
  }

  /** It has reset its count, and m of the t acks have come in since. */
  ghost predicate Reset(s: Cluster, n: nat, m: nat, t: nat)
  {
    && Sizes(s, n) && s.nodes[n] == Slave(1, 1, m, false) && s.nodes[n + 1] == Slave(0, 0, 0, false)
    && (forall k: nat :: m <= k < t ==> Ack(k, n, 1) in s.acks) && CanVote(s, n, 0, 2)
    && s.late[n] == m && s.late[n + 1] == 0 && s.won == map[]
  }

  /** Both slaves have asked in epoch 2 and count p and q; the masters from m on have not voted yet. */
  ghost predicate Contested(s: Cluster, n: nat, m: nat, p: nat, q: nat, t: nat)
  {
    && Sizes(s, n) && s.nodes[n] == Slave(2, 2, p, true) && s.nodes[n + 1] == Slave(2, 2, q, true)
    && Request(n, 2) in s.requests && Request(n + 1, 2) in s.requests && CanVote(s, n, m, 2)
    && s.late[n] == t && s.late[n + 1] == 0 && s.won == map[]
  }

  /** Nothing has happened yet. */
  ghost predicate Quiet(s: Cluster, n: nat)
  {
    && Sizes(s, n) && s.nodes[n] == s.nodes[n + 1] == Slave(0, 0, 0, false) && CanVote(s, n, 0, 1)
    && s.late[n] == s.late[n + 1] == 0 && s.won == map[]
  }

  lemma Start(n: nat) returns (s: Cluster)
    ensures Reachable(Voters(n), s) && Quiet(s, n)
  {
    hide Apply, Enabled, Reachable;
    var nodes := seq(n, _ => Node(0, 0, 0, 0, 0, false, true)) + [Slave(0, 0, 0, false), Slave(0, 0, 0, false)];
    s := Cluster(nodes, {}, {}, map[], map[], seq(n + 2, _ => {}), seq(n + 2, _ => 0));
    StartReachable(Voters(n), s);
  }

  lemma StartReachable(voters: set<nat>, s: Cluster)
    requires Initial(s)
    ensures Reachable(voters, s)
  {
    hide Apply, Enabled, Initial;
    var none: seq<Step> := [];
    assert Run(voters, [s], none) && [s][|none|] == s;
  }

  /** A slave asks for votes. */
  lemma AskStep(voters: set<nat>, s: Cluster, i: nat)
    requires Reachable(voters, s) && i < |s.nodes| && !s.nodes[i].isMaster && !s.nodes[i].authSent
    ensures var n := s.nodes[i];
            var n' := n.(currentEpoch := n.currentEpoch + 1, authEpoch := n.currentEpoch + 1, authSent := true);
            Reachable(voters, s.(nodes := s.nodes[i := n'], requests := s.requests + {Request(i, n.currentEpoch + 1)}))
  {
    hide Reachable;
    Extend(voters, s, Cron(i, GO));
  }

  lemma Ask(n: nat) returns (s: Cluster)
    ensures Reachable(Voters(n), s) && Asked(s, n, 0)
  {
    hide Reachable, Apply, Enabled;
    var s0 := Start(n);
    AskStep(Voters(n), s0, n);
    s := s0.(nodes := s0.nodes[n := Slave(1, 1, 0, true)], requests := s0.requests + {Request(n, 1)});
  }

  lemma {:induction false} FirstVotes(n: nat, s: Cluster, m: nat, t: nat) returns (s': Cluster)
    requires Reachable(Voters(n), s) && Asked(s, n, m) && m <= t <= n
    ensures Reachable(Voters(n), s') && Asked(s', n, t)
    decreases t - m
  {
    hide Reachable;
    s' := s;
    if m < t {
      var step := DeliverRequest(Request(n, 1), m, true);
      Extend(Voters(n), s, step);
      s' := Apply(Voters(n), s, step);
      s' := FirstVotes(n, s', m + 1, t);
    }
  }

  lemma StartAgain(n: nat, s: Cluster, t: nat) returns (s': Cluster)
    requires Reachable(Voters(n), s) && Asked(s, n, t)
    ensures Reachable(Voters(n), s') && Reset(s', n, 0, t)
  {
    hide Reachable;
    Extend(Voters(n), s, Cron(n, RETRY));
    s' := Apply(Voters(n), s, Cron(n, RETRY));
  }

  lemma {:induction false} LateAcks(n: nat, s: Cluster, m: nat, t: nat) returns (s': Cluster)
    requires Reachable(Voters(n), s) && Reset(s, n, m, t) && m <= t
    ensures Reachable(Voters(n), s') && Reset(s', n, t, t)
    decreases t - m
  {
    hide Reachable;
    s' := s;
    if m < t {
      var step := DeliverAck(Ack(m, n, 1));
      Extend(Voters(n), s, step);
      s' := Apply(Voters(n), s, step);
      s' := LateAcks(n, s', m + 1, t);
    }
  }

  lemma AskAgain(n: nat, s: Cluster, t: nat) returns (s': Cluster)
    requires Reachable(Voters(n), s) && Reset(s, n, t, t)
    ensures Reachable(Voters(n), s') && Contested(s', n, 0, t, 0, t)
  {
    hide Reachable;
    var V := Voters(n);
    Extend(V, s, Learn(n + 1, 1));
    var s1 := Apply(V, s, Learn(n + 1, 1));
    assert s1.nodes == s.nodes[n + 1 := Slave(1, 0, 0, false)];
    s' := BothAsk(n, s1, t);
  }

  lemma BothAsk(n: nat, s: Cluster, t: nat) returns (s': Cluster)
    requires Reachable(Voters(n), s) && Sizes(s, n) && CanVote(s, n, 0, 2)
    requires s.nodes[n] == Slave(1, 1, t, false) && s.nodes[n + 1] == Slave(1, 0, 0, false)
    requires s.late[n] == t && s.late[n + 1] == 0 && s.won == map[]
    ensures Reachable(Voters(n), s') && Contested(s', n, 0, t, 0, t)
  {
    hide Reachable, Apply, Enabled;
    AskStep(Voters(n), s, n);
    var s1 := s.(nodes := s.nodes[n := Slave(2, 2, t, true)], requests := s.requests + {Request(n, 2)});
    AskStep(Voters(n), s1, n + 1);
    s' := s1.(nodes := s1.nodes[n + 1 := Slave(2, 2, 0, true)], requests := s1.requests + {Request(n + 1, 2)});
  }

  /** A master that can still vote in the epoch of a request grants it. */
  lemma GrantStep(voters: set<nat>, s: Cluster, r: Request, m: nat)
    requires Reachable(voters, s) && r in s.requests && r.from < |s.nodes| && m in voters && m < |s.nodes|
    requires s.nodes[m].currentEpoch <= r.epoch && s.nodes[m].lastVoteEpoch < r.epoch
    ensures var voter := s.nodes[m].(currentEpoch := r.epoch, lastVoteEpoch := r.epoch);
            Reachable(voters, s.(nodes := s.nodes[m := voter], acks := s.acks + {Ack(m, r.from, r.epoch)},
                                 voted := s.voted[(m, r.epoch) := r.from]))
  {
    hide Reachable;
    Extend(voters, s, DeliverRequest(r, m, true));
  }

  /** An ack for the present attempt is counted. */
  lemma CountStep(voters: set<nat>, s: Cluster, a: Ack)
    requires Reachable(voters, s) && a in s.acks && a.to < |s.nodes| == |s.counted|
    requires s.nodes[a.to].currentEpoch >= a.epoch == s.nodes[a.to].authEpoch && s.nodes[a.to].authSent
    ensures Reachable(voters, s.(nodes := s.nodes[a.to := s.nodes[a.to].(authCount := s.nodes[a.to].authCount + 1)],
                                 acks := s.acks - {a}, counted := s.counted[a.to := s.counted[a.to] + {a.from}]))
  {
    hide Reachable;
    Extend(voters, s, DeliverAck(a));
  }

  /** Master m votes for one of the two, and its ack arrives. */
  lemma OneVote(n: nat, s: Cluster, m: nat, p: nat, q: nat, t: nat, first: bool) returns (s': Cluster)
    requires Reachable(Voters(n), s) && Contested(s, n, m, p, q, t) && m < n
    ensures Reachable(Voters(n), s') && Contested(s', n, m + 1, p + (if first then 1 else 0), q + (if first then 0 else 1), t)
  {
    hide Reachable, Apply, Enabled;
    var V, x := Voters(n), if first then n else n + 1;
    GrantStep(V, s, Request(x, 2), m);
    var voter := s.nodes[m].(currentEpoch := 2, lastVoteEpoch := 2);
    var s1 := s.(nodes := s.nodes[m := voter], acks := s.acks + {Ack(m, x, 2)}, voted := s.voted[(m, 2) := x]);
    CountStep(V, s1, Ack(m, x, 2));
    s' := s1.(nodes := s1.nodes[x := s1.nodes[x].(authCount := s1.nodes[x].authCount + 1)],
              acks := s1.acks - {Ack(m, x, 2)}, counted := s1.counted[x := s1.counted[x] + {m}]);
  }

  lemma {:induction false} AllVote(n: nat, s: Cluster, m: nat, p: nat, q: nat, t: nat, last: nat) returns (s': Cluster)
    requires Reachable(Voters(n), s) && Contested(s, n, m, p, q, t) && m <= last <= n
    ensures Reachable(Voters(n), s') && Contested(s', n, n, p + (last - m), q + (n - last), t)
    decreases n - m
  {
    hide Reachable, Contested;
    s' := s;
    if m < last {
      s' := OneVote(n, s, m, p, q, t, true);
      s' := AllVote(n, s', m + 1, p + 1, q, t, last);
    } else if m < n {
      s' := OneVote(n, s, m, p, q, t, false);
      s' := AllVote(n, s', m + 1, p, q + 1, t, m + 1);
    }
  }

  lemma BothTakeOver(n: nat, s: Cluster, p: nat, q: nat, t: nat) returns (s': Cluster)
    requires Reachable(Voters(n), s) && Contested(s, n, n, p, q, t) && p >= n / 2 + 1 && q >= n / 2 + 1
    ensures Reachable(Voters(n), s') && s'.won == map[(n, 2) := t, (n + 1, 2) := 0]
  {
    hide Reachable;
    var V := Voters(n);
    Extend(V, s, Cron(n, GO));
    var s1 := Apply(V, s, Cron(n, GO));
    Extend(V, s1, Cron(n + 1, GO));
    s' := Apply(V, s1, Cron(n + 1, GO));
  }

  /**
    For every electorate there is a run with two winners of epoch 2 that counted exactly that
    many late acks between them: acks for epoch 1 that the first of them took for votes of epoch 2.
   */
  lemma LateAcksBreakSafety(n: nat) returns (s: Cluster)
    requires n > 0
    ensures Reachable(Voters(n), s) && |Voters(n)| == n
    ensures (n, 2) in s.won && (n + 1, 2) in s.won && s.won[(n, 2)] + s.won[(n + 1, 2)] == Gap(n)
  {
    hide Reachable, Asked, Reset, Contested;
    var t, quorum := Gap(n), n / 2 + 1;
    s := Ask(n);
    s := FirstVotes(n, s, 0, t);
    s := StartAgain(n, s, t);
    s := LateAcks(n, s, 0, t);
    s := AskAgain(n, s, t);
    s := AllVote(n, s, 0, t, 0, t, n - quorum);
    s := BothTakeOver(n, s, t + (n - quorum), quorum, t);
  }

  /** Two winners of one epoch whose attempts counted at most `late` late acks between them. */
  ghost predicate TwoWinners(s: Cluster, late: nat)
  {
    exists i, j, e :: i != j && (i, e) in s.won && (j, e) in s.won && s.won[(i, e)] + s.won[(j, e)] <= late
  }

  /** Exactly when an electorate of n masters is safe: if and only if fewer late acks than that can be counted. */
  lemma SafetyIff(n: nat, late: nat)
    requires n > 0
    ensures (exists s :: Reachable(Voters(n), s) && TwoWinners(s, late)) <==> late >= Gap(n)
  {
    hide Apply, Enabled;
    if s :| Reachable(Voters(n), s) && TwoWinners(s, late) {
      var states, steps :| Run(Voters(n), states, steps) && states[|steps|] == s;
      var i, j, e :| i != j && (i, e) in s.won && (j, e) in s.won && s.won[(i, e)] + s.won[(j, e)] <= late;
      WinnersCountLateAcks(Voters(n), states, steps, i, j, e);
    }
    if late >= Gap(n) {
      var s := LateAcksBreakSafety(n);
      assert TwoWinners(s, late);
    }
  }
}
