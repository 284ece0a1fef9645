/** Runs of the receiving side of a peer, as values: what every mix of arrivals, decryptions, polls and key changes
    keeps, and when a packet can be credited a second time. */
module RxRuns {
  import opened Words
  import opened Proto
  import opened ReplaySpec
  import opened ReplayTheorems
  import opened Aead
  import opened Subsequences
  import opened RxKeys
  import KeySlots
  import RingWork

  const KEEPALIVE: Bytes :=
    [0x2a, 0x18, 0x7b, 0xf3, 0x64, 0x1e, 0xb4, 0xcb, 0x07, 0xed, 0x2d, 0x0a, 0x98, 0x1f, 0xc7, 0x48]

  predicate IsKeepalive(payload: Bytes) {
    |payload| >= 16 && payload[..16] == KEEPALIVE
  }

  /** `ovpn_ip_check_protocol`: an IP header is there and says version 4 or 6. */
  predicate IsIp(payload: Bytes) {
    |payload| >= 20 && (payload[0] / 16 == 4 || payload[0] / 16 == 6)
  }

  /** A keepalive message is never taken for an IP packet. */
  lemma KeepaliveIsNoIp(payload: Bytes)
    requires IsKeepalive(payload)
    ensures !IsIp(payload)
  {
    assert payload[0] == payload[..16][0];
  }

  /** What goes on to the tun device when there is room for `room` packets and no key changes meanwhile. */
  ghost function Onward(keys: Keys, skbs: seq<Skb>, room: int): seq<Inner> {
    if skbs == [] then []
    else
      var before := KeysAfterAll(keys, skbs[..|skbs|-1]);
      OnwardAfter(before, Took(before, skbs[|skbs|-1]), Onward(keys, skbs[..|skbs|-1], room), room)
  }

  ghost predicate GoesOn(keys: Keys, f: Flight) {
    Passes(keys, f) && IsIp(Payload(keys, f.gen.value, f.skb)) && f.skb.allowed
  }

  /** It passes and is a keepalive message. */
  ghost predicate IsPing(keys: Keys, f: Flight) {
    && Passes(keys, f)
    && !IsIp(Payload(keys, f.gen.value, f.skb)) && IsKeepalive(Payload(keys, f.gen.value, f.skb))
  }

  ghost function OnwardAfter(keys: Keys, f: Flight, queued: seq<Inner>, room: int): seq<Inner> {
    if GoesOn(keys, f) && |queued| < room
    then queued + [Inner(f.skb.tag, Payload(keys, f.gen.value, f.skb))]
    else queued
  }

  lemma {:induction false} AllAfter(keys: Keys, skbs: seq<Skb>, skb: Skb, room: int)
    ensures var before := KeysAfterAll(keys, skbs);
      && KeysAfterAll(keys, skbs + [skb]) == KeysAfter(before, Took(before, skb))
      && CreditsOf(keys, skbs + [skb]) == CreditsAfter(before, Took(before, skb), CreditsOf(keys, skbs))
      && Onward(keys, skbs + [skb], room) == OnwardAfter(before, Took(before, skb), Onward(keys, skbs, room), room)
  {
    hide KeysAfter, CreditsAfter, OnwardAfter, Took;
    assert (skbs + [skb])[..|skbs|] == skbs;
  }

  lemma {:induction false} NothingYet(keys: Keys, room: int)
    ensures KeysAfterAll(keys, []) == keys && CreditsOf(keys, []) == [] && Onward(keys, [], room) == []
  {
  }

  /** The credits are sound, and what went on was earned by them. */
  ghost predicate Upright(keys: Keys, cs: seq<Credit>, xs: seq<Inner>) {
    Sane(keys) && Sound(keys, cs) && Earned(keys, xs, cs)
  }

  /** A packet, passing or not, leaves everything upright, and so does its payload going on if it passes. */
  lemma FinishKeeps(keys: Keys, f: Flight, cs: seq<Credit>, xs: seq<Inner>, ys: seq<Inner>)
    requires Upright(keys, cs, xs + ys) && Known(keys, f)
    ensures var keys', cs' := KeysAfter(keys, f), CreditsAfter(keys, f, cs);
      && Upright(keys', cs', xs + ys)
      && (Passes(keys, f) ==> Upright(keys', cs', xs + (ys + [Inner(f.skb.tag, Payload(keys, f.gen.value, f.skb))])))
  {
    assert Passes(keys, f) ==> f.gen.Some? && Authentic(keys, f.gen.value, f.skb);
    hide Sane, Sound, Earned, KeysAfter, CreditsAfter, Passes, SameCiphers, Known, Authentic;
    WindowsKeepCiphers(keys, f);
    CreditsGrow(keys, f, cs);
    PassingEarns(keys, f, cs, xs + ys);
    if Passes(keys, f) {
      SeqAssociates(xs, ys, [Inner(f.skb.tag, Payload(keys, f.gen.value, f.skb))]);
    }
  }

  /** Key changes do, too. */
  lemma ChangeKeeps(keys: Keys, keys': Keys, cs: seq<Credit>, xs: seq<Inner>)
    requires Upright(keys, cs, xs) && Sane(keys') && Extends(keys, keys')
    ensures Upright(keys', cs, xs)
  {
    hide Sound, SameCiphers, Subsequence, Inners;
    CreditsOutliveKeys(keys, keys', cs);
    ChangesKeepCiphers(keys, keys');
    InnersLast(keys, keys', cs);
  }

  lemma CreditsAfterSum(keys: Keys, f: Flight, a: seq<Credit>, b: seq<Credit>)
    ensures CreditsAfter(keys, f, a + b) == a + CreditsAfter(keys, f, b)
  {
    assert Passes(keys, f) ==> f.gen.Some?;
    hide Passes;
    if Passes(keys, f) {
      SeqAssociates(a, b, [Credit(f.gen.value, f.skb)]);
    }
  }

  lemma OnwardAfterSum(keys: Keys, f: Flight, a: seq<Inner>, b: seq<Inner>, room: int)
    ensures OnwardAfter(keys, f, a + b, |a| + room) == a + OnwardAfter(keys, f, b, room)
  {
    if GoesOn(keys, f) {
      hide Passes;
      SeqAssociates(a, b, [Inner(f.skb.tag, Payload(keys, f.gen.value, f.skb))]);
    }
  }

  /** What can happen to a peer: packets come in, the worker takes one, looks its key up in two loads and finishes it,
      the tun device polls, and keys are installed, deleted (or killed) and swapped, in two stores. */
  datatype Op =
    | Arrive(skb: Skb, sent: bool)
    | TakeNext(held: bool)
    | LookOn(held: bool)
    | FinishIt
    | Poll(budget: int)
    | NewKey(which: KeySlots.Which, key: RxKey)
    | DelKey(which: KeySlots.Which)
    | SwapFirst
    | SwapSecond

  /** What a run does to a peer, apart from where the other packets went. */
  datatype View = View(
    keys: Keys,
    rxRing: seq<Skb>,
    hand: Hand,
    netifRing: seq<Inner>,
    delivered: seq<Inner>,
    arrived: seq<Skb>,
    processed: seq<Skb>,
    credited: seq<Credit>)

  const NEW_PEER := View(NO_KEYS, [], Free, [], [], [], [], [])

  ghost function Done(v: View, f: Flight): View {
    v.(keys := KeysAfter(v.keys, f), hand := Free, processed := v.processed + [f.skb],
       credited := CreditsAfter(v.keys, f, v.credited),
       netifRing := OnwardAfter(v.keys, f, v.netifRing, RingWork.OVPN_QUEUE_LEN))
  }

  /** The worker takes a packet only when it has none in hand; keys are changed under a mutex, so no other change
      comes between the stores of a swap. */
  ghost function Next(v: View, op: Op): View {
    match op
    case Arrive(skb, _) =>
      if IsData(skb) && |v.rxRing| < RingWork.OVPN_QUEUE_LEN
      then v.(rxRing := v.rxRing + [skb], arrived := v.arrived + [skb]) else v
    case TakeNext(held) =>
      if v.hand.Free? && v.rxRing != [] && IsData(v.rxRing[0])
      then v.(hand := LoadPrimary(v.keys, v.rxRing[0], held), rxRing := v.rxRing[1..]) else v
    case LookOn(held) =>
      if v.hand.Looking? && IsData(v.hand.skb) then v.(hand := LoadSecondary(v.keys, v.hand.skb, held)) else v
    case FinishIt => if v.hand.Holding? then Done(v, v.hand.f) else v
    case Poll(budget) =>
      var n := PollCount(budget, |v.netifRing|);
      v.(delivered := v.delivered + v.netifRing[..n], netifRing := v.netifRing[n..])
    case NewKey(which, key) => if v.keys.aside.None? then v.(keys := Installed(v.keys, which, key)) else v
    case DelKey(which) => if v.keys.aside.None? then v.(keys := Deleted(v.keys, which)) else v
    case SwapFirst => if v.keys.aside.None? then v.(keys := SwapBegun(v.keys)) else v
    case SwapSecond => if v.keys.aside.Some? then v.(keys := SwapEnded(v.keys)) else v
  }

  ghost function PollCount(budget: int, queued: nat): (n: nat)
    ensures n <= queued
  {
    if budget <= 0 then 0 else if budget < queued then budget else queued
  }

  ghost function ViewAfter(ops: seq<Op>): View {
    if ops == [] then NEW_PEER else Next(ViewAfter(ops[..|ops|-1]), ops[|ops|-1])
  }

  lemma {:induction false} ViewAfterOne(ops: seq<Op>, k: nat)
    requires k < |ops|
    ensures ViewAfter(ops[..k+1]) == Next(ViewAfter(ops[..k]), ops[k]) && ViewAfter(ops[..0]) == NEW_PEER
  {
    assert ops[..k+1][..k] == ops[..k];
  }

  ghost predicate InGoodOrder(v: View) {
    && Upright(v.keys, v.credited, v.delivered + v.netifRing)
    && HandKnown(v.keys, v.hand)
    && forall s :: s in v.rxRing ==> IsData(s)
  }

  lemma DoneInOrder(v: View)
    requires InGoodOrder(v) && v.hand.Holding?
    ensures InGoodOrder(Done(v, v.hand.f))
  {
    hide Upright, KeysAfter, CreditsAfter, Known;
    FinishKeeps(v.keys, v.hand.f, v.credited, v.delivered, v.netifRing);
  }

  lemma ChangeInOrder(v: View, op: Op)
    requires InGoodOrder(v) && (op.NewKey? || op.DelKey? || op.SwapFirst? || op.SwapSecond?)
    ensures InGoodOrder(Next(v, op))
  {
    hide Sound, Earned;
    var keys' := Next(v, op).keys;
    if op.NewKey? {
      InstallExtends(v.keys, op.which, op.key);
    } else {
      MovesExtend(v.keys, if op.DelKey? then op.which else KeySlots.Primary);
    }
    ChangeKeeps(v.keys, keys', v.credited, v.delivered + v.netifRing);
  }

  lemma NextInOrder(v: View, op: Op)
    requires InGoodOrder(v)
    ensures InGoodOrder(Next(v, op))
  {
    if op.FinishIt? {
      hide InGoodOrder, Done;
      if v.hand.Holding? {
        DoneInOrder(v);
      }
    } else if op.NewKey? || op.DelKey? || op.SwapFirst? || op.SwapSecond? {
      hide InGoodOrder, Next;
      ChangeInOrder(v, op);
    } else {
      hide Upright;
      if op.Poll? {
        var n := PollCount(op.budget, |v.netifRing|);
        assert v.delivered + v.netifRing[..n] + v.netifRing[n..] == v.delivered + v.netifRing;
      }
    }
  }

  /** Over every mix of arrivals, loads, decryptions, polls and key changes: every credit is for an authentic packet,
      no packet ID is credited twice under one installation of a key, however often its key ID is used again, and what
      is delivered are payloads of credited packets, each of a credit of its own, in the order of the credits. */
  lemma {:induction false} NoCreditTwice(ops: seq<Op>)
    ensures InGoodOrder(ViewAfter(ops))
    ensures var v := ViewAfter(ops);
      && Distinct(v.credited)
      && (forall c :: c in v.credited ==> Authentic(v.keys, c.gen, c.skb))
      && Earned(v.keys, v.delivered, v.credited)
  {
    hide Next, Authentic, Distinct, Earned, InGoodOrder;
    NewPeerInOrder();
    if ops != [] {
      NoCreditTwice(ops[..|ops|-1]);
      NextInOrder(ViewAfter(ops[..|ops|-1]), ops[|ops|-1]);
    }
    GoodOrderMeans(ViewAfter(ops));
  }

  lemma NewPeerInOrder()
    ensures InGoodOrder(NEW_PEER)
  {
  }

  lemma GoodOrderMeans(v: View)
    requires InGoodOrder(v)
    ensures Distinct(v.credited)
    ensures forall c :: c in v.credited ==> Authentic(v.keys, c.gen, c.skb)
    ensures Earned(v.keys, v.delivered, v.credited)
  {
    hide Authentic, Distinct, Subsequence;
    SubsequencePrefix(v.delivered + v.netifRing, |v.delivered|, Inners(v.keys, v.credited));
    assert (v.delivered + v.netifRing)[..|v.delivered|] == v.delivered;
  }

  // The same bytes a second time

  /** Bytes that are credited twice are credited under two installations, and both their keys accept them. */
  lemma {:induction false} TwiceMeansTwoKeys(ops: seq<Op>, i: nat, j: nat)
    requires i < j < |ViewAfter(ops).credited|
    requires ViewAfter(ops).credited[i].skb.data == ViewAfter(ops).credited[j].skb.data
    ensures var v := ViewAfter(ops);
      var a, b, data := v.credited[i].gen, v.credited[j].gen, v.credited[i].skb.data;
      a != b && a in v.keys.slots && b in v.keys.slots && Accepts(v.keys.slots[a], data) && Accepts(v.keys.slots[b], data)
  {
    hide ViewAfter, Accepts, Opened, Remembers, Earned, Sane, HandKnown;
    var v := ViewAfter(ops);
    NoCreditTwice(ops);
    assert Good(v.keys, v.credited[i]) && Good(v.keys, v.credited[j]);
  }

  /** No packet is accepted by two of the keys ever installed. */
  ghost predicate KeysApart(keys: Keys) {
    forall a, b, data :: a in keys.slots && b in keys.slots && a != b && Accepts(keys.slots[a], data) ==>
      !Accepts(keys.slots[b], data)
  }

  /** So if no two installed keys accept a packet in common, no bytes are credited twice. */
  lemma {:induction false} BytesOnce(ops: seq<Op>)
    requires KeysApart(ViewAfter(ops).keys)
    ensures var cs := ViewAfter(ops).credited;
      forall i, j :: 0 <= i < j < |cs| ==> cs[i].skb.data != cs[j].skb.data
  {
    hide ViewAfter, Accepts;
    var cs := ViewAfter(ops).credited;
    forall i, j | 0 <= i < j < |cs| ensures cs[i].skb.data != cs[j].skb.data {
      if cs[i].skb.data == cs[j].skb.data {
        TwiceMeansTwoKeys(ops, i, j);
      }
    }
  }

  /** Credit `i` is for these bytes under this key, whatever its window has become. */
  ghost predicate CreditedUnder(v: View, i: nat, key: RxKey, data: Bytes) {
    && i < |v.credited| && v.credited[i].skb.data == data && v.credited[i].gen in v.keys.slots
    && v.keys.slots[v.credited[i].gen].(recv := key.recv) == key
  }

  ghost predicate CreditedTwice(v: View, a: RxKey, b: RxKey, data: Bytes) {
    exists i, j :: 0 <= i < j && CreditedUnder(v, i, a, data) && CreditedUnder(v, j, b, data)
  }

  /** A key is installed as primary, and the packet comes in and is finished. */
  ghost function Round(ops: seq<Op>, key: RxKey, skb: Skb): seq<Op> {
    ops + [NewKey(KeySlots.Primary, key)] + [Arrive(skb, true)] + [TakeNext(true)] + [FinishIt]
  }

  lemma {:induction false} ViewAfterMore(ops: seq<Op>, op: Op)
    ensures ViewAfter(ops + [op]) == Next(ViewAfter(ops), op)
  {
    assert (ops + [op])[..|ops|] == ops;
  }

  ghost predicate AtRest(v: View) {
    v.hand.Free? && v.rxRing == [] && v.keys.aside.None?
  }

  /** From `v` to `w` the packet was credited under a new generation, which is this key. */
  ghost predicate RoundDone(v: View, w: View, key: RxKey, skb: Skb) {
    && AtRest(w) && w.keys.next == v.keys.next + 1
    && w.credited == v.credited + [Credit(v.keys.next, skb)]
    && v.keys.next in w.keys.slots && w.keys.slots[v.keys.next].(recv := key.recv) == key
    && (forall g :: g in v.keys.slots && g != v.keys.next ==> g in w.keys.slots && w.keys.slots[g] == v.keys.slots[g])
  }

  lemma RoundCredits(v: View, key: RxKey, skb: Skb)
    requires AtRest(v) && Accepts(key, skb.data) && skb.fault.None?
    ensures var v2 := Next(Next(v, NewKey(KeySlots.Primary, key)), Arrive(skb, true));
      RoundDone(v, Next(Next(v2, TakeNext(true)), FinishIt), key, skb)
  {
    hide Opened;
    var v1 := Next(v, NewKey(KeySlots.Primary, key));
    var v2 := Next(v1, Arrive(skb, true));
    assert v2.rxRing == [skb] && v2.keys == v1.keys;
    var v3 := Next(v2, TakeNext(true));
    var f := Flight(skb, Some(v.keys.next));
    assert v3.hand == Holding(f) && v3.rxRing == [] && v3.keys == v1.keys;
    FreshWindowTakes(v3.keys, f);
  }

  lemma FreshWindowTakes(keys: Keys, f: Flight)
    requires f.gen.Some? && f.gen.value in keys.slots && keys.slots[f.gen.value].recv == FRESH_RECEIVER
    requires Accepts(keys.slots[f.gen.value], f.skb.data) && f.skb.fault.None?
    ensures Passes(keys, f)
  {
  }

  /** There is a run in which bytes are credited under one key and then again under another exactly when both keys
      accept them: above all when a key is installed again, because a new slot starts with a fresh window. */
  lemma TwiceExactly(a: RxKey, b: RxKey, data: Bytes)
    ensures (exists ops :: CreditedTwice(ViewAfter(ops), a, b, data)) <==> Accepts(a, data) && Accepts(b, data)
  {
    if ops :| CreditedTwice(ViewAfter(ops), a, b, data) {
      OnlyAccepted(ops, a, b, data);
    }
    if Accepts(a, data) && Accepts(b, data) {
      var ops := InstalledAgain(a, b, Skb(0, data, 0, 0, false, None));
    }
  }

  lemma {:induction false} OnlyAccepted(ops: seq<Op>, a: RxKey, b: RxKey, data: Bytes)
    requires CreditedTwice(ViewAfter(ops), a, b, data)
    ensures Accepts(a, data) && Accepts(b, data)
  {
    hide ViewAfter, Opened, Remembers, Earned, Sane, HandKnown;
    var v := ViewAfter(ops);
    NoCreditTwice(ops);
    var i, j :| 0 <= i < j && CreditedUnder(v, i, a, data) && CreditedUnder(v, j, b, data);
    assert Good(v.keys, v.credited[i]) && Good(v.keys, v.credited[j]);
  }

  /** The run: a key, the packet, a key again, the same packet again. */
  lemma {:induction false} InstalledAgain(a: RxKey, b: RxKey, skb: Skb) returns (ops: seq<Op>)
    requires Accepts(a, skb.data) && Accepts(b, skb.data) && skb.fault.None?
    ensures ops == Round(Round([], a, skb), b, skb)
    ensures ViewAfter(ops).credited == [Credit(0, skb), Credit(1, skb)]
    ensures CreditedTwice(ViewAfter(ops), a, b, skb.data)
  {
    assert ViewAfter([]) == NEW_PEER;
    hide Accepts, ViewAfter, Next, RoundDone;
    var once := Round([], a, skb);
    RoundView([], a, skb);
    RoundCredits(NEW_PEER, a, skb);
    ops := Round(once, b, skb);
    RoundView(once, b, skb);
    assert AtRest(ViewAfter(once)) by { RoundRests(NEW_PEER, ViewAfter(once), a, skb); }
    RoundCredits(ViewAfter(once), b, skb);
    TwoRounds(NEW_PEER, ViewAfter(once), ViewAfter(ops), a, b, skb);
  }

  lemma RoundRests(v: View, w: View, key: RxKey, skb: Skb)
    requires RoundDone(v, w, key, skb)
    ensures AtRest(w)
  {
  }

  lemma TwoRounds(u: View, v: View, w: View, a: RxKey, b: RxKey, skb: Skb)
    requires u == NEW_PEER && RoundDone(u, v, a, skb) && RoundDone(v, w, b, skb)
    ensures w.credited == [Credit(0, skb), Credit(1, skb)]
    ensures CreditedTwice(w, a, b, skb.data)
  {
    assert CreditedUnder(w, 0, a, skb.data) && CreditedUnder(w, 1, b, skb.data);
  }

  lemma {:induction false} RoundView(ops: seq<Op>, key: RxKey, skb: Skb)
    ensures ViewAfter(Round(ops, key, skb)) ==
      Next(Next(Next(Next(ViewAfter(ops), NewKey(KeySlots.Primary, key)), Arrive(skb, true)), TakeNext(true)), FinishIt)
  {
    hide Next, ViewAfter;
    var a, b, c := NewKey(KeySlots.Primary, key), Arrive(skb, true), TakeNext(true);
    ViewAfterMore(ops, a);
    ViewAfterMore(ops + [a], b);
    ViewAfterMore(ops + [a] + [b], c);
    ViewAfterMore(ops + [a] + [b] + [c], FinishIt);
  }
}
