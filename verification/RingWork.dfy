/** The packet rings of a peer, the work items that empty them and the references that keep the peer alive.
    Producers and the two workers interleave freely; each line below is one atomic step of one thread. */
module RingWork {

  const OVPN_QUEUE_LEN: nat := 1024

  /** An skb, known by its address. */
  type Packet = nat

  datatype Direction = Rx | Tx

  /** A work function: not running, in its loop, or past it and about to put the peer. */
  datatype Worker = Idle | Looping | Leaving

  /** One ring and its work item. `holding` threads own a peer reference and are about to produce,
      `posting` ones have produced and are about to call `queue_work`. `taken` and `processed` record
      what went into the ring and what came out. */
  datatype Lane = Lane(
    ring: seq<Packet>,
    pending: bool,
    worker: Worker,
    holding: nat,
    posting: nat,
    taken: seq<Packet>,
    processed: seq<Packet>)

  /** `others` counts references held elsewhere (the peer table, netlink, lookups), `leaked` those that the
      TCP receive path never returns. */
  datatype Peer = Peer(tcp: bool, refs: nat, others: nat, leaked: nat, rx: Lane, tx: Lane)

  ghost function EmptyLane(): Lane { Lane([], false, Idle, 0, 0, [], []) }

  /** A new peer has the one reference of its creator. */
  ghost function NewPeer(tcp: bool): Peer { Peer(tcp, 1, 1, 0, EmptyLane(), EmptyLane()) }

  datatype Action =
    | HoldElsewhere
    | PutElsewhere
    | Hold(d: Direction)
    | HoldUnchecked
    | GiveUp(d: Direction)
    | Leak
    | Produce(d: Direction, p: Packet)
    | QueueWork(d: Direction)
    | StartWork(d: Direction)
    | Consume(d: Direction)
    | FindEmpty(d: Direction)
    | FinishWork(d: Direction)

  ghost function LaneOf(st: Peer, d: Direction): Lane {
    if d == Rx then st.rx else st.tx
  }

  ghost function WithLane(st: Peer, d: Direction, lane: Lane): Peer {
    if d == Rx then st.(rx := lane) else st.(tx := lane)
  }

  /** Some thread is at this point of its code. Taking a reference also needs one to be there, except on the TCP receive
      path, which does not look whether it got one. */
  ghost predicate Ready(st: Peer, a: Action) {
    match a
    case HoldElsewhere => st.refs > 0
    case PutElsewhere => st.others > 0
    case Hold(d) => st.refs > 0
    case HoldUnchecked => st.tcp
    case GiveUp(d) => LaneOf(st, d).holding > 0
    case Leak => st.tcp && st.rx.holding > 0
    case Produce(d, _) => LaneOf(st, d).holding > 0 && |LaneOf(st, d).ring| < OVPN_QUEUE_LEN
    case QueueWork(d) => LaneOf(st, d).posting > 0
    case StartWork(d) => LaneOf(st, d).pending && LaneOf(st, d).worker.Idle?
    case Consume(d) => LaneOf(st, d).worker.Looping? && LaneOf(st, d).ring != []
    case FindEmpty(d) => LaneOf(st, d).worker.Looping? && LaneOf(st, d).ring == []
    case FinishWork(d) => LaneOf(st, d).worker.Leaving?
  }

  /** The step drops a reference. */
  ghost predicate Puts(st: Peer, a: Action) {
    match a
    case PutElsewhere => true
    case GiveUp(d) => true
    case QueueWork(d) => LaneOf(st, d).pending
    case FinishWork(d) => true
    case _ => false
  }

  /** No count is dropped below zero. */
  ghost predicate Enabled(st: Peer, a: Action) {
    Ready(st, a) && (Puts(st, a) ==> st.refs > 0)
  }

  ghost function Apply(st: Peer, a: Action): Peer
    requires Enabled(st, a)
  {
    match a
    case HoldElsewhere => st.(refs := st.refs + 1, others := st.others + 1)
    case PutElsewhere => st.(refs := st.refs - 1, others := st.others - 1)
    case Hold(d) =>
      var l := LaneOf(st, d);
      WithLane(st, d, l.(holding := l.holding + 1)).(refs := st.refs + 1)
    case HoldUnchecked =>
      st.(refs := if st.refs > 0 then st.refs + 1 else 0, rx := st.rx.(holding := st.rx.holding + 1))
    case GiveUp(d) =>
      var l := LaneOf(st, d);
      WithLane(st, d, l.(holding := l.holding - 1)).(refs := st.refs - 1)
    case Leak => st.(rx := st.rx.(holding := st.rx.holding - 1), leaked := st.leaked + 1)
    case Produce(d, p) =>
      var l := LaneOf(st, d);
      WithLane(st, d, l.(ring := l.ring + [p], taken := l.taken + [p],
                         holding := l.holding - 1, posting := l.posting + 1))
    case QueueWork(d) =>
      var l := LaneOf(st, d);
      WithLane(st, d, l.(posting := l.posting - 1, pending := true)).(refs := if l.pending then st.refs - 1 else st.refs)
    case StartWork(d) => WithLane(st, d, LaneOf(st, d).(pending := false, worker := Looping))
    case Consume(d) =>
      var l := LaneOf(st, d);
      WithLane(st, d, l.(ring := l.ring[1..], processed := l.processed + [l.ring[0]]))
    case FindEmpty(d) => WithLane(st, d, LaneOf(st, d).(worker := Leaving))
    case FinishWork(d) => WithLane(st, d, LaneOf(st, d).(worker := Idle)).(refs := st.refs - 1)
  }

  /** A run of a peer: `tr[i]` becomes `tr[i+1]` by `acts[i]`. */
  ghost predicate RunFrom(st: Peer, tr: seq<Peer>, acts: seq<Action>) {
    && |tr| == |acts| + 1 && tr[0] == st
    && forall i :: 0 <= i < |acts| ==> StepAt(tr, acts, i)
  }

  ghost predicate StepAt(tr: seq<Peer>, acts: seq<Action>, i: nat)
    requires |tr| == |acts| + 1 && i < |acts|
  {
    Enabled(tr[i], acts[i]) && tr[i+1] == Apply(tr[i], acts[i])
  }

  /** References owned by the threads and the work item of a lane. */
  ghost function LaneRefs(l: Lane): nat {
    l.holding + l.posting + (if l.pending then 1 else 0) + (if l.worker.Idle? then 0 else 1)
  }

  /** A waiting packet has somebody who will see to it. */
  ghost predicate NotStranded(l: Lane) {
    l.ring != [] ==> l.posting > 0 || l.pending || l.worker.Looping?
  }

  ghost predicate LaneInv(l: Lane) {
    && NotStranded(l)
    && l.taken == l.processed + l.ring
    && |l.ring| <= OVPN_QUEUE_LEN
  }

  /** The references that somebody thinks to own. */
  ghost function Owned(st: Peer): nat {
    st.others + st.leaked + LaneRefs(st.rx) + LaneRefs(st.tx)
  }

  ghost predicate Flowing(st: Peer) {
    LaneInv(st.rx) && LaneInv(st.tx)
  }

  ghost predicate Inv(st: Peer) {
    st.refs == Owned(st) && Flowing(st)
  }

  lemma LaneChanged(st: Peer, d: Direction, l: Lane)
    requires Flowing(st) && LaneInv(l)
    ensures Flowing(WithLane(st, d, l))
  {
  }

  lemma ProduceFlows(st: Peer, d: Direction, p: Packet)
    requires Flowing(st) && Enabled(st, Produce(d, p))
    ensures Flowing(Apply(st, Produce(d, p)))
  {
    var l := LaneOf(st, d);
    assert l.processed + l.ring + [p] == l.processed + (l.ring + [p]);
    LaneChanged(st, d, LaneOf(Apply(st, Produce(d, p)), d));
  }

  lemma ConsumeFlows(st: Peer, d: Direction)
    requires Flowing(st) && Enabled(st, Consume(d))
    ensures Flowing(Apply(st, Consume(d)))
  {
    var l := LaneOf(st, d);
    assert l.processed + l.ring == l.processed + [l.ring[0]] + l.ring[1..];
    LaneChanged(st, d, LaneOf(Apply(st, Consume(d)), d));
  }

  /** Every step keeps packets attended and in order, whatever became of references. */
  lemma StepFlows(st: Peer, a: Action)
    requires Flowing(st) && Enabled(st, a)
    ensures Flowing(Apply(st, a))
  {
    match a
    case Produce(d, p) => ProduceFlows(st, d, p);
    case Consume(d) => ConsumeFlows(st, d);
    case _ =>
  }

  /** A reference was taken for granted that was not there. */
  ghost predicate Blind(st: Peer, a: Action) {
    a.HoldUnchecked? && st.refs == 0
  }

  /** Every step but a blind hold changes the count as it changes what is owned. */
  lemma StepBalances(st: Peer, a: Action)
    requires Enabled(st, a)
    ensures Owned(Apply(st, a)) - Apply(st, a).refs == Owned(st) - st.refs + (if Blind(st, a) then 1 else 0)
    ensures Apply(st, a).leaked >= st.leaked && Apply(st, a).tcp == st.tcp
  {
    if a.QueueWork? || a.StartWork? || a.FindEmpty? || a.FinishWork? {
      WorkerBalances(st, a);
    } else if a.Produce? || a.Consume? {
      PacketBalances(st, a);
    }
  }

  lemma WorkerBalances(st: Peer, a: Action)
    requires Enabled(st, a) && (a.QueueWork? || a.StartWork? || a.FindEmpty? || a.FinishWork?)
    ensures Owned(Apply(st, a)) - Apply(st, a).refs == Owned(st) - st.refs
    ensures Apply(st, a).leaked == st.leaked && Apply(st, a).tcp == st.tcp
  {
    var l, l' := LaneOf(st, a.d), LaneOf(Apply(st, a), a.d);
    assert LaneRefs(l') - LaneRefs(l) == Apply(st, a).refs - st.refs;
  }

  lemma PacketBalances(st: Peer, a: Action)
    requires Enabled(st, a) && (a.Produce? || a.Consume?)
    ensures Owned(Apply(st, a)) == Owned(st) && Apply(st, a).refs == st.refs
    ensures Apply(st, a).leaked == st.leaked && Apply(st, a).tcp == st.tcp
  {
    assert LaneRefs(LaneOf(Apply(st, a), a.d)) == LaneRefs(LaneOf(st, a.d));
  }

  lemma NewPeerInv(tcp: bool)
    ensures NewPeer(tcp).refs == Owned(NewPeer(tcp)) && Flowing(NewPeer(tcp))
  {
    EmptyLaneInv();
    hide LaneInv;
  }

  lemma EmptyLaneInv()
    ensures LaneInv(EmptyLane()) && LaneRefs(EmptyLane()) == 0
  {
    var none: seq<Packet> := [];
    assert none + none == none;
  }

  /** Every step but a blind hold keeps the peer's references and packets in order, and a blind hold never does. */
  lemma StepKeepsInv(st: Peer, a: Action)
    requires Inv(st) && Enabled(st, a)
    ensures Inv(Apply(st, a)) <==> !Blind(st, a)
  {
    hide Enabled, Apply, Flowing, Owned;
    StepFlows(st, a);
    StepBalances(st, a);
  }

  /** Everything that was queued has been processed and no thread can do anything more, but for a TCP receiver that takes
      references without looking. */
  ghost predicate Still(st: Peer) {
    && st.rx.ring == st.tx.ring == []
    && st.rx.processed == st.rx.taken && st.tx.processed == st.tx.taken
    && forall a :: Ready(st, a) ==> st.tcp && a.HoldUnchecked?
  }

  lemma NothingOwnedIsStill(st: Peer)
    requires Inv(st) && st.refs == 0
    ensures Still(st)
  {
    assert st.rx.processed + [] == st.rx.processed && st.tx.processed + [] == st.tx.processed;
  }

  /** No packet waits unattended, and packets left each ring in the order they entered. */
  ghost predicate Attended(st: Peer) {
    && (forall d :: NotStranded(LaneOf(st, d)))
    && (forall d :: LaneOf(st, d).processed + LaneOf(st, d).ring == LaneOf(st, d).taken)
  }

  /** The peer has exactly the references its owners think they have, and no put would find the count at zero. */
  ghost predicate Balanced(st: Peer) {
    && st.refs == st.others + st.leaked + LaneRefs(st.rx) + LaneRefs(st.tx)
    && (forall a :: Ready(st, a) ==> Enabled(st, a))
  }

  lemma EvenIsBalanced(st: Peer)
    ensures Balanced(st) <==> st.refs == Owned(st)
  {
  }

  lemma {:induction false} RunFlows(st: Peer, tr: seq<Peer>, acts: seq<Action>, i: nat)
    requires Flowing(st) && RunFrom(st, tr, acts) && i < |tr|
    ensures Flowing(tr[i])
  {
    if i > 0 {
      hide Flowing, Enabled, Apply;
      RunFlows(st, tr, acts, i - 1);
      assert StepAt(tr, acts, i - 1);
      StepFlows(tr[i-1], acts[i-1]);
    }
  }

  /** How many of the first `i` steps were blind. */
  ghost function BlindHolds(tr: seq<Peer>, acts: seq<Action>, i: nat): nat
    requires i <= |acts| && |tr| == |acts| + 1
  {
    if i == 0 then 0 else BlindHolds(tr, acts, i - 1) + (if Blind(tr[i-1], acts[i-1]) then 1 else 0)
  }

  lemma {:induction false} OneMoreHold(tr: seq<Peer>, acts: seq<Action>, i: nat)
    requires i < |acts| && |tr| == |acts| + 1
    ensures BlindHolds(tr, acts, i + 1) == BlindHolds(tr, acts, i) + (if Blind(tr[i], acts[i]) then 1 else 0)
    ensures BlindHolds(tr, acts, 0) == 0
  {
  }

  lemma {:induction false} Deficit(st: Peer, tr: seq<Peer>, acts: seq<Action>, i: nat)
    requires RunFrom(st, tr, acts) && i < |tr| && st.refs == Owned(st)
    ensures Owned(tr[i]) - tr[i].refs == BlindHolds(tr, acts, i) && tr[i].tcp == st.tcp
  {
    if i > 0 {
      hide Enabled, Apply, Owned, Blind;
      Deficit(st, tr, acts, i - 1);
      assert StepAt(tr, acts, i - 1);
      StepBalances(tr[i-1], acts[i-1]);
    }
  }

  // The state as the actions alone tell it

  /** The packets produced, in order. */
  ghost function Produced(acts: seq<Action>, d: Direction): seq<Packet> {
    if acts == [] then []
    else
      var a := acts[|acts|-1];
      Produced(acts[..|acts|-1], d) + (if a.Produce? && a.d == d then [a.p] else [])
  }

  /** The work was queued and has not started since. */
  ghost predicate Queued(acts: seq<Action>, d: Direction) {
    if acts == [] then false
    else
      var a := acts[|acts|-1];
      a == QueueWork(d) || (a != StartWork(d) && Queued(acts[..|acts|-1], d))
  }

  ghost function Times(acts: seq<Action>, a: Action): nat {
    multiset(acts)[a]
  }

  /** Packets leave in the order they were produced, one per `Consume`; every `QueueWork` follows a `Produce`; and what a
      producer holds it took and has neither given up, leaked nor passed on with a packet. */
  ghost predicate LaneTold(l: Lane, d: Direction, acts: seq<Action>) {
    PacketsTold(l, d, acts) && WorkTold(l, d, acts)
  }

  ghost predicate PacketsTold(l: Lane, d: Direction, acts: seq<Action>) {
    && l.processed + l.ring == l.taken == Produced(acts, d)
    && |l.processed| == Times(acts, Consume(d))
  }

  ghost predicate WorkTold(l: Lane, d: Direction, acts: seq<Action>) {
    && l.posting == |Produced(acts, d)| - Times(acts, QueueWork(d))
    && l.holding == Times(acts, Hold(d)) - Times(acts, GiveUp(d)) - |Produced(acts, d)|
                    + (if d == Rx then Times(acts, HoldUnchecked) - Times(acts, Leak) else 0)
    && (l.pending <==> Queued(acts, d))
    && (l.worker.Idle? ==> Times(acts, StartWork(d)) == Times(acts, FindEmpty(d)) == Times(acts, FinishWork(d)))
    && (l.worker.Looping? ==> Times(acts, StartWork(d)) - 1 == Times(acts, FindEmpty(d)) == Times(acts, FinishWork(d)))
    && (l.worker.Leaving? ==> Times(acts, StartWork(d)) == Times(acts, FindEmpty(d)) == Times(acts, FinishWork(d)) + 1)
  }

  ghost predicate PeerTold(st: Peer, acts: seq<Action>) {
    && st.others == 1 + Times(acts, HoldElsewhere) - Times(acts, PutElsewhere)
    && st.leaked == Times(acts, Leak)
    && LaneTold(st.rx, Rx, acts) && LaneTold(st.tx, Tx, acts)
  }

  lemma {:induction false} OneMoreAction(acts: seq<Action>, a: Action, d: Direction)
    ensures forall b :: Times(acts + [a], b) == Times(acts, b) + (if a == b then 1 else 0)
    ensures Produced(acts + [a], d) == Produced(acts, d) + (if a.Produce? && a.d == d then [a.p] else [])
    ensures Queued(acts + [a], d) <==> a == QueueWork(d) || (a != StartWork(d) && Queued(acts, d))
  {
    assert (acts + [a])[..|acts|] == acts;
    assert multiset(acts + [a]) == multiset(acts) + multiset{a};
  }

  /** An action of the other direction, or of nobody's, leaves a lane as it was told. */
  lemma LaneStillTold(l: Lane, d: Direction, acts: seq<Action>, a: Action)
    requires LaneTold(l, d, acts)
    requires a.HoldElsewhere? || a.PutElsewhere? || ((a.HoldUnchecked? || a.Leak?) && d == Tx) ||
             (!a.HoldElsewhere? && !a.PutElsewhere? && !a.HoldUnchecked? && !a.Leak? && a.d != d)
    ensures LaneTold(l, d, acts + [a])
  {
    hide Times, Produced, Queued;
    OneMoreAction(acts, a, d);
    assert Produced(acts, d) + [] == Produced(acts, d);
  }

  lemma OwnLaneTold(st: Peer, acts: seq<Action>, a: Action, d: Direction)
    requires Enabled(st, a) && LaneTold(LaneOf(st, d), d, acts)
    requires if a.HoldUnchecked? || a.Leak? then d == Rx else !a.HoldElsewhere? && !a.PutElsewhere? && a.d == d
    ensures LaneTold(LaneOf(Apply(st, a), d), d, acts + [a])
  {
    hide Times, Produced, Queued, PacketsTold, WorkTold;
    OwnPacketsTold(st, acts, a, d);
    OwnWorkTold(st, acts, a, d);
  }

  lemma OwnWorkTold(st: Peer, acts: seq<Action>, a: Action, d: Direction)
    requires Enabled(st, a) && WorkTold(LaneOf(st, d), d, acts)
    requires if a.HoldUnchecked? || a.Leak? then d == Rx else !a.HoldElsewhere? && !a.PutElsewhere? && a.d == d
    ensures WorkTold(LaneOf(Apply(st, a), d), d, acts + [a])
  {
    hide Times, Produced, Queued;
    OneMoreAction(acts, a, d);
  }

  lemma OwnPacketsTold(st: Peer, acts: seq<Action>, a: Action, d: Direction)
    requires Enabled(st, a) && PacketsTold(LaneOf(st, d), d, acts)
    requires if a.HoldUnchecked? || a.Leak? then d == Rx else !a.HoldElsewhere? && !a.PutElsewhere? && a.d == d
    ensures PacketsTold(LaneOf(Apply(st, a), d), d, acts + [a])
  {
    hide Times, Produced, Queued;
    OneMoreAction(acts, a, d);
    var l := LaneOf(st, d);
    assert Produced(acts, d) + [] == Produced(acts, d);
    if a.Produce? {
      assert l.processed + (l.ring + [a.p]) == l.processed + l.ring + [a.p];
    } else if a.Consume? {
      assert l.processed + [l.ring[0]] + l.ring[1..] == l.processed + l.ring;
    }
  }

  lemma StepTold(st: Peer, acts: seq<Action>, a: Action)
    requires Enabled(st, a) && PeerTold(st, acts)
    ensures PeerTold(Apply(st, a), acts + [a])
  {
    hide LaneTold, Times, Produced, Queued;
    OneMoreAction(acts, a, Rx);
    if a.HoldUnchecked? || a.Leak? || (!a.HoldElsewhere? && !a.PutElsewhere? && a.d == Rx) {
      OwnLaneTold(st, acts, a, Rx);
      LaneStillTold(st.tx, Tx, acts, a);
    } else if a.HoldElsewhere? || a.PutElsewhere? {
      LaneStillTold(st.rx, Rx, acts, a);
      LaneStillTold(st.tx, Tx, acts, a);
    } else {
      OwnLaneTold(st, acts, a, Tx);
      LaneStillTold(st.rx, Rx, acts, a);
    }
  }

  lemma NewPeerTold(tcp: bool)
    ensures PeerTold(NewPeer(tcp), [])
  {
    var none: seq<Packet> := [];
    assert none + none == none;
  }

  /** In every run the whole state is what the actions so far tell, without looking at how they are carried out. */
  lemma {:induction false} RunIsTold(tcp: bool, tr: seq<Peer>, acts: seq<Action>, i: nat)
    requires RunFrom(NewPeer(tcp), tr, acts) && i < |tr|
    ensures PeerTold(tr[i], acts[..i])
  {
    hide PeerTold, Enabled, Apply, NewPeer;
    if i == 0 {
      NewPeerTold(tcp);
    } else {
      RunIsTold(tcp, tr, acts, i - 1);
      assert StepAt(tr, acts, i - 1);
      StepTold(tr[i-1], acts[..i-1], acts[i-1]);
      assert acts[..i] == acts[..i-1] + [acts[i-1]];
    }
  }

  /** In every state of every interleaving the packets are attended to, and the references are in order if and only
      if no hold so far was blind. */
  lemma {:induction false} NoPacketStranded(tcp: bool, tr: seq<Peer>, acts: seq<Action>, i: nat)
    requires RunFrom(NewPeer(tcp), tr, acts) && i < |tr|
    ensures Attended(tr[i])
    ensures forall d :: LaneOf(tr[i], d).processed + LaneOf(tr[i], d).ring == Produced(acts[..i], d)
    ensures Balanced(tr[i]) <==> BlindHolds(tr, acts, i) == 0
  {
    hide Balanced, BlindHolds, StepAt, Owned, NewPeer, Produced, Times, Queued;
    RunIsTold(tcp, tr, acts, i);
    NewPeerInv(tcp);
    RunFlows(NewPeer(tcp), tr, acts, i);
    Deficit(NewPeer(tcp), tr, acts, i);
    EvenIsBalanced(tr[i]);
  }

  /** Over UDP no hold is blind. */
  lemma {:induction false} UdpLooks(tr: seq<Peer>, acts: seq<Action>, i: nat)
    requires RunFrom(NewPeer(false), tr, acts) && i < |tr|
    ensures BlindHolds(tr, acts, i) == 0 && !tr[i].tcp && tr[i].leaked == 0
  {
    if i > 0 {
      UdpLooks(tr, acts, i - 1);
      assert StepAt(tr, acts, i - 1);
    }
  }

  /** A peer without references has empty rings, as its release expects, and nothing can happen to it any more, as long
      as no hold was blind. */
  lemma {:induction false} DeadPeerIsStill(tcp: bool, tr: seq<Peer>, acts: seq<Action>, i: nat)
    requires RunFrom(NewPeer(tcp), tr, acts) && i < |tr| && tr[i].refs == 0 && BlindHolds(tr, acts, i) == 0
    ensures Still(tr[i])
  {
    hide Still, BlindHolds, StepAt, Owned, NewPeer, Flowing;
    NewPeerInv(tcp);
    RunFlows(NewPeer(tcp), tr, acts, i);
    Deficit(NewPeer(tcp), tr, acts, i);
    NothingOwnedIsStill(tr[i]);
  }

  /** A blind hold queues a packet to a peer that is already being released: a run over TCP that ends without
      references and with a packet in the ring. */
  lemma BlindHoldStrands(p: Packet) returns (tr: seq<Peer>, acts: seq<Action>)
    ensures acts == [PutElsewhere, HoldUnchecked, Produce(Rx, p)]
    ensures RunFrom(NewPeer(true), tr, acts)
    ensures tr[3].refs == 0 && tr[3].rx.ring == [p] && BlindHolds(tr, acts, 3) == 1
  {
    var st1, st2, st3 := BlindSteps(p);
    hide Enabled, Apply, Blind, BlindHolds, NewPeer;
    acts := [PutElsewhere, HoldUnchecked, Produce(Rx, p)];
    tr := [NewPeer(true), st1, st2, st3];
    assert StepAt(tr, acts, 0) && StepAt(tr, acts, 1) && StepAt(tr, acts, 2);
    OneMoreHold(tr, acts, 0);
    OneMoreHold(tr, acts, 1);
    OneMoreHold(tr, acts, 2);
  }

  lemma BlindSteps(p: Packet) returns (st1: Peer, st2: Peer, st3: Peer)
    ensures Enabled(NewPeer(true), PutElsewhere) && st1 == Apply(NewPeer(true), PutElsewhere)
    ensures Enabled(st1, HoldUnchecked) && st2 == Apply(st1, HoldUnchecked)
    ensures Enabled(st2, Produce(Rx, p)) && st3 == Apply(st2, Produce(Rx, p))
    ensures !Blind(NewPeer(true), PutElsewhere) && Blind(st1, HoldUnchecked) && !Blind(st2, Produce(Rx, p))
    ensures st3.refs == 0 && st3.rx.ring == [p]
  {
    st1 := Apply(NewPeer(true), PutElsewhere);
    st2 := Apply(st1, HoldUnchecked);
    st3 := Apply(st2, Produce(Rx, p));
  }

  /** Once the TCP receive path has leaked a reference, the peer is never released. */
  lemma {:induction false} LeakIsForever(tcp: bool, tr: seq<Peer>, acts: seq<Action>, i: nat, j: nat)
    requires RunFrom(NewPeer(tcp), tr, acts) && i <= j < |tr| && tr[i].leaked > 0 && BlindHolds(tr, acts, j) == 0
    ensures tr[j].leaked > 0 && tr[j].refs > 0
    decreases j
  {
    hide Enabled, Apply, Blind, NewPeer;
    NewPeerInv(tcp);
    if i < j {
      LeakIsForever(tcp, tr, acts, i, j - 1);
      assert StepAt(tr, acts, j - 1);
      StepBalances(tr[j-1], acts[j-1]);
    }
    Deficit(NewPeer(tcp), tr, acts, j);
  }

  // Everything gets processed

  /** Steps of producers that have produced, and of the workers: no new packets. */
  predicate Internal(a: Action) {
    a.QueueWork? || a.StartWork? || a.Consume? || a.FindEmpty? || a.FinishWork?
  }

  ghost function LaneWork(l: Lane): nat {
    |l.ring| + 5 * l.posting + (if l.pending then 4 else 0)
    + (match l.worker case Idle => 0 case Looping => 2 case Leaving => 1)
  }

  ghost function WorkLeft(st: Peer): nat {
    LaneWork(st.rx) + LaneWork(st.tx)
  }

  lemma WorkShrinks(st: Peer, a: Action)
    requires Enabled(st, a) && Internal(a)
    ensures WorkLeft(Apply(st, a)) < WorkLeft(st)
    ensures LaneOf(Apply(st, a), Rx).taken == st.rx.taken && LaneOf(Apply(st, a), Tx).taken == st.tx.taken
  {
  }

  /** However the scheduler runs them, the workers stop after a bounded number of steps. */
  lemma {:induction false} WorkersStop(st: Peer, tr: seq<Peer>, acts: seq<Action>, i: nat)
    requires RunFrom(st, tr, acts) && i < |tr| && forall k :: 0 <= k < |acts| ==> Internal(acts[k])
    ensures i + WorkLeft(tr[i]) <= WorkLeft(st)
    ensures tr[i].rx.taken == st.rx.taken && tr[i].tx.taken == st.tx.taken
  {
    if i > 0 {
      hide Enabled, Apply, WorkLeft;
      WorkersStop(st, tr, acts, i - 1);
      assert StepAt(tr, acts, i - 1);
      WorkShrinks(tr[i-1], acts[i-1]);
    }
  }

  /** When they have stopped, every packet that was ever queued has been processed, and the only references
      left are those held elsewhere, leaked, or with producers that have not produced. */
  lemma StoppedMeansDone(st: Peer)
    requires Inv(st)
    requires forall a :: Internal(a) ==> !Ready(st, a)
    ensures st.rx.processed == st.rx.taken && st.tx.processed == st.tx.taken
    ensures st.refs == st.others + st.leaked + st.rx.holding + st.tx.holding
  {
    forall d ensures LaneOf(st, d).ring == [] && LaneRefs(LaneOf(st, d)) == LaneOf(st, d).holding {
      assert !Ready(st, QueueWork(d)) && !Ready(st, StartWork(d));
      assert !Ready(st, Consume(d)) && !Ready(st, FindEmpty(d)) && !Ready(st, FinishWork(d));
    }
    assert LaneOf(st, Rx) == st.rx && LaneOf(st, Tx) == st.tx;
  }
}
