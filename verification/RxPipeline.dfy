/** What becomes of a received data packet, from the socket to the tun device. */
module RxPipeline {
  import opened Words
  import opened Proto
  import opened ReplaySpec
  import opened Aead
  import opened Subsequences
  import opened RxKeys
  import opened RxRuns
  import KeySlots
  import RingWork

  function Tags(xs: seq<Inner>): seq<nat> {
    seq(|xs|, k requires 0 <= k < |xs| => xs[k].tag)
  }

  function SkbTags(xs: seq<Skb>): seq<nat> {
    seq(|xs|, k requires 0 <= k < |xs| => xs[k].tag)
  }

  class RxPeer {
    const udp: bool
    var keys: Keys
    var rxRing: seq<Skb>
    var hand: Hand
    var netifRing: seq<Inner>
    var delivered: seq<Inner>
    var freed: seq<nat>
    var keepalives: seq<nat>
    var timerResets: nat
    var localAddress: nat
    var rxBytes: nat
    ghost var arrived: seq<Skb>
    ghost var processed: seq<Skb>
    ghost var credited: seq<Credit>

    ghost predicate Accounted()
      reads `freed, `keepalives, `delivered, `netifRing, `processed
    {
      && Placed(freed, keepalives, Tags(delivered + netifRing), SkbTags(processed))
      && |netifRing| <= RingWork.OVPN_QUEUE_LEN
    }

    /** What was taken from the socket is processed, in the hands of the worker or in the ring, in the order it came. */
    ghost predicate InOrder()
      reads `arrived, `processed, `rxRing, `hand
    {
      && arrived == processed + InHand(hand) + rxRing
      && |rxRing| <= RingWork.OVPN_QUEUE_LEN
      && forall s :: s in rxRing ==> IsData(s)
    }

    /** The timer was reset once per credit, and the credits are sound; what went on was earned by one. */
    ghost predicate Credits()
      reads `timerResets, `credited, `keys, `hand, `delivered, `netifRing
    {
      && Upright(keys, credited, delivered + netifRing)
      && timerResets == |credited|
      && HandKnown(keys, hand)
    }

    ghost predicate Valid()
      reads this
    {
      Accounted() && InOrder() && Credits()
    }

    ghost function Seen(): View
      reads this
    {
      View(keys, rxRing, hand, netifRing, delivered, arrived, processed, credited)
    }

    constructor (udp: bool, localAddress: nat)
      ensures Valid()
      ensures Seen() == NEW_PEER
      ensures this.udp == udp && this.localAddress == localAddress
    {
      this.udp, this.localAddress, keys, hand := udp, localAddress, NO_KEYS, Free;
      rxRing, netifRing, delivered, freed, keepalives := [], [], [], [], [];
      timerResets, rxBytes, arrived, processed, credited := 0, 0, [], [], [];
    }

    /** Takes a packet from the socket. Only data packets are queued, and only while there is room; `sent` tells
        whether another packet reaches user space. A negative result leaves packet and reference to the caller. */
    method Recv(skb: Skb, sent: bool) returns (ret: int)
      requires InOrder() && skb.data != []
      modifies this`rxRing, this`arrived
      ensures InOrder()
      ensures ret <= 0
      ensures ret == 0 <==>
        if OpcodeFromSkb(skb.data) == OVPN_DATA_V2 then |old(rxRing)| < RingWork.OVPN_QUEUE_LEN else sent
      ensures arrived == old(arrived) + if ret == 0 && OpcodeFromSkb(skb.data) == OVPN_DATA_V2 then [skb] else []
      ensures rxRing == old(rxRing) + if ret == 0 && OpcodeFromSkb(skb.data) == OVPN_DATA_V2 then [skb] else []
    {
      if OpcodeFromSkb(skb.data) != OVPN_DATA_V2 {
        return if sent then 0 else -1;
      }
      if |rxRing| >= RingWork.OVPN_QUEUE_LEN {
        return -28;
      }
      rxRing := rxRing + [skb];
      arrived := arrived + [skb];
      return 0;
    }

    /** Whatever mix of arrivals, decryption and polling led here: what the tun device got is in arrival order. */
    lemma DeliveredInOrder()
      requires Accounted() && InOrder()
      ensures Subsequence(Tags(delivered), SkbTags(arrived))
    {
      hide Subsequence;
      var onward := Tags(delivered + netifRing);
      assert onward[..|delivered|] == Tags(delivered);
      var waiting := InHand(hand) + rxRing;
      assert arrived == processed + waiting;
      SubsequencePrefix(onward, |delivered|, SkbTags(processed));
      assert SkbTags(arrived) == SkbTags(processed) + SkbTags(waiting);
      SubsequenceExtends(Tags(delivered), SkbTags(processed), SkbTags(waiting));
    }

    /** Once the rings are empty, every packet taken was freed, consumed or delivered, and none of them twice. */
    lemma NothingLost()
      requires Accounted() && InOrder() && rxRing == [] && hand.Free? && netifRing == []
      ensures multiset(freed) + multiset(keepalives) + multiset(Tags(delivered)) == multiset(SkbTags(arrived))
    {
      hide Subsequence;
      assert delivered + netifRing == delivered && processed + [] + rxRing == processed;
    }

    /** Hands up to `budget` packets to the tun device, oldest first. */
    method NapiPoll(budget: int) returns (done: int)
      requires Accounted() && Credits()
      modifies this`netifRing, this`delivered
      ensures Accounted() && Credits()
      ensures done == if budget <= 0 then 0 else if budget < |old(netifRing)| then budget else |old(netifRing)|
      ensures delivered == old(delivered) + old(netifRing)[..done] && netifRing == old(netifRing)[done..]
    {
      hide Placed, Upright;
      done := 0;
      if budget <= 0 {
        return;
      }
      while done < budget && netifRing != []
        invariant 0 <= done <= budget && done <= |old(netifRing)|
        invariant delivered == old(delivered) + old(netifRing)[..done] && netifRing == old(netifRing)[done..]
      {
        delivered := delivered + [netifRing[0]];
        netifRing := netifRing[1..];
        done := done + 1;
      }
      assert delivered + netifRing == old(delivered + netifRing);
    }

    /** The packet has left the receive ring and was put nowhere: it is freed. */
    method Drop(skb: Skb)
      requires Accounted()
      modifies this`freed, this`processed
      ensures Accounted()
      ensures freed == old(freed) + [skb.tag] && processed == old(processed) + [skb]
    {
      hide Placed;
      assert SkbTags(processed + [skb]) == SkbTags(processed) + [skb.tag];
      PlacedOneMore(freed, keepalives, Tags(delivered + netifRing), SkbTags(processed), skb.tag);
      freed := freed + [skb.tag];
      processed := processed + [skb];
    }

    method ConsumeKeepalive(skb: Skb)
      requires Accounted()
      modifies this`keepalives, this`processed
      ensures Accounted()
      ensures keepalives == old(keepalives) + [skb.tag] && processed == old(processed) + [skb]
    {
      hide Placed;
      assert SkbTags(processed + [skb]) == SkbTags(processed) + [skb.tag];
      PlacedOneMore(freed, keepalives, Tags(delivered + netifRing), SkbTags(processed), skb.tag);
      keepalives := keepalives + [skb.tag];
      processed := processed + [skb];
    }

    method QueueForNapi(skb: Skb, payload: Bytes)
      requires Accounted() && |netifRing| < RingWork.OVPN_QUEUE_LEN
      modifies this`netifRing, this`processed
      ensures Accounted()
      ensures netifRing == old(netifRing) + [Inner(skb.tag, payload)] && processed == old(processed) + [skb]
    {
      hide Placed;
      var inner := Inner(skb.tag, payload);
      assert SkbTags(processed + [skb]) == SkbTags(processed) + [skb.tag];
      assert Tags(delivered + (netifRing + [inner])) == Tags(delivered + netifRing) + [skb.tag];
      PlacedOneMore(freed, keepalives, Tags(delivered + netifRing), SkbTags(processed), skb.tag);
      netifRing := netifRing + [inner];
      processed := processed + [skb];
    }

    /** Everything after decryption that depends on what the payload is. */
    method Dispatch(skb: Skb, payload: Bytes) returns (ret: int)
      requires Accounted()
      modifies this`netifRing, this`freed, this`keepalives, this`processed
      ensures Accounted() && processed == old(processed) + [skb]
      ensures ret == 0 <==> IsIp(payload) && skb.allowed && |old(netifRing)| < RingWork.OVPN_QUEUE_LEN
      ensures netifRing == old(netifRing) + (if ret == 0 then [Inner(skb.tag, payload)] else [])
      ensures keepalives == old(keepalives) + (if !IsIp(payload) && IsKeepalive(payload) then [skb.tag] else [])
      ensures keepalives != old(keepalives) <==> |payload| >= 16 && payload[..16] == KEEPALIVE
      ensures skb.allowed && |old(netifRing)| < RingWork.OVPN_QUEUE_LEN ==>
        (ret == 0 <==> |payload| >= 20 && (0x40 <= payload[0] < 0x50 || 0x60 <= payload[0] < 0x70))
      ensures ret <= 0
    {
      if IsKeepalive(payload) {
        KeepaliveIsNoIp(payload);
      }
      if !IsIp(payload) {
        if payload == [] {
          Drop(skb);
          return -22;
        }
        if IsKeepalive(payload) {
          ConsumeKeepalive(skb);
          return -1;
        }
        Drop(skb);
        return -93;
      }
      if !skb.allowed {
        Drop(skb);
        return -1;
      }
      if |netifRing| >= RingWork.OVPN_QUEUE_LEN {
        Drop(skb);
        return -28;
      }
      QueueForNapi(skb, payload);
      return 0;
    }

    // Key changes

    method KeysChanged(keys': Keys)
      requires Credits() && Sane(keys') && Extends(keys, keys')
      modifies this`keys
      ensures Credits() && keys == keys'
    {
      ChangeKeeps(keys, keys', credited, delivered + netifRing);
      hide Upright;
      keys := keys';
    }

    method InstallKey(which: KeySlots.Which, key: RxKey)
      requires Credits()
      modifies this`keys
      ensures Credits() && keys == Installed(old(keys), which, key)
      ensures keys.primary == if which.Primary? then Some(old(keys).next) else old(keys).primary
      ensures keys.secondary == if which.Secondary? then Some(old(keys).next) else old(keys).secondary
      ensures which.Primary? ==> Lookup(keys, key.keyId) == Some(old(keys).next)
      ensures Extends(old(keys), keys)
    {
      InstallExtends(keys, which, key);
      InstallTakesPlace(keys, which, key);
      hide Credits, Extends, Sane, Installed, Lookup;
      KeysChanged(Installed(keys, which, key));
    }

    method DeleteKey(which: KeySlots.Which)
      requires Credits()
      modifies this`keys
      ensures Credits() && keys == Deleted(old(keys), which)
      ensures keys.primary == if which.Primary? then None else old(keys).primary
      ensures keys.secondary == if which.Secondary? then None else old(keys).secondary
      ensures keys.slots == old(keys).slots
    {
      MovesExtend(keys, which);
      hide Credits, Extends, Sane;
      KeysChanged(Deleted(keys, which));
    }

    /** The first store of a swap if none is under way, or else the second. */
    method SwapStore()
      requires Credits()
      modifies this`keys
      ensures Credits() && keys == if old(keys).aside.None? then SwapBegun(old(keys)) else SwapEnded(old(keys))
      ensures old(keys).aside.None? ==>
        keys.primary == keys.secondary == old(keys).secondary && keys.aside == Some(old(keys).primary)
      ensures old(keys).aside.Some? ==>
        keys.primary == old(keys).primary && keys.secondary == old(keys).aside.value && keys.aside.None?
      ensures keys.slots == old(keys).slots
    {
      MovesExtend(keys, KeySlots.Primary);
      hide Credits, Extends, Sane;
      KeysChanged(if keys.aside.None? then SwapBegun(keys) else SwapEnded(keys));
    }

    // The worker

    /** Takes the oldest packet off the ring and loads the primary key. */
    method Take(held: bool)
      requires InOrder() && Credits() && hand.Free? && rxRing != []
      modifies this`rxRing, this`hand
      ensures InOrder() && Credits()
      ensures IsData(old(rxRing)[0]) && hand == LoadPrimary(keys, old(rxRing)[0], held) && rxRing == old(rxRing)[1..]
    {
      hide Upright;
      var skb := rxRing[0];
      assert skb in rxRing;
      if Names(keys, keys.primary, KeyIdFromSkb(skb.data)) {
        hand := Holding(Flight(skb, if held then keys.primary else None));
      } else {
        hand := Looking(skb);
      }
      rxRing := rxRing[1..];
    }

    /** The primary is not the packet's key: loads the secondary. */
    method Look(held: bool)
      requires InOrder() && Credits() && hand.Looking?
      modifies this`hand
      ensures InOrder() && Credits()
      ensures IsData(old(hand).skb) && hand == LoadSecondary(keys, old(hand).skb, held)
    {
      hide Upright;
      var skb := hand.skb;
      if held && Names(keys, keys.secondary, KeyIdFromSkb(skb.data)) {
        hand := Holding(Flight(skb, keys.secondary));
      } else {
        hand := Holding(Flight(skb, None));
      }
    }

    /** Lets cipher and window judge a packet. Of all keys only the one looked up sees it, only its window can
        change, and only if the packet is authentic; it passes exactly when that window takes it, too. */
    method Decrypt(f: Flight) returns (r: Result<Bytes>)
      requires Known(keys, f)
      modifies this`keys
      ensures r == Outcome(old(keys), f)
      ensures r.Ok? <==> Passes(old(keys), f)
      ensures r.Ok? ==> r.value == Payload(old(keys), f.gen.value, f.skb)
      ensures keys == KeysAfter(old(keys), f)
      ensures keys == old(keys).(slots := keys.slots) && keys.slots.Keys == old(keys).slots.Keys
      ensures forall g :: g in keys.slots && Some(g) != f.gen ==> keys.slots[g] == old(keys).slots[g]
      ensures f.gen.None? || !Authentic(old(keys), f.gen.value, f.skb) ==> keys == old(keys)
      ensures f.gen.Some? && Authentic(old(keys), f.gen.value, f.skb) ==>
        && |f.skb.data| >= OVERHEAD
        && var key := old(keys).slots[f.gen.value];
           keys.slots[f.gen.value] == key.(recv := Receive(key.recv, PktidOf(f.skb.data), 0, f.skb.now, key.timeout))
    {
      OutcomeIsExact(keys, f);
      if f.gen.None? {
        return Err(EINVAL);
      }
      var g, skb := f.gen.value, f.skb;
      var key := keys.slots[g];
      if |skb.data| >= OVERHEAD && skb.fault.Some? {
        return Err(skb.fault.value);
      }
      r := Decapsulated(key.recv, key.open, key.tail, skb.data, skb.now);
      hide Judge, Receive;
      var recv := AfterDecrypt(key.recv, key.open, key.tail, skb.data, skb.now, key.timeout);
      if Opened(key.open, key.tail, skb.data).Some? {
        keys := keys.(slots := keys.slots[g := key.(recv := recv)]);
      }
    }

    /** Finishes the packet in hand, under whatever keys there are now. Only one that passes resets the timer, moves
        the learned address, counts in the statistics or goes on. */
    method Finish() returns (ret: int)
      requires Accounted() && Credits() && InOrder() && hand.Holding?
      modifies this`keys, this`hand, this`netifRing, this`freed, this`keepalives, this`processed,
               this`timerResets, this`localAddress, this`rxBytes, this`credited
      ensures Accounted() && Credits() && InOrder() && hand.Free?
      ensures processed == old(processed) + [old(hand).f.skb]
      ensures var f := old(hand).f;
        && keys == KeysAfter(old(keys), f)
        && credited == CreditsAfter(old(keys), f, old(credited))
        && localAddress == (if Passes(old(keys), f) && udp then f.skb.local else old(localAddress))
        && rxBytes == old(rxBytes) + (if Passes(old(keys), f) then |f.skb.data| else 0)
        && netifRing == OnwardAfter(old(keys), f, old(netifRing), RingWork.OVPN_QUEUE_LEN)
        && (ret == 0 <==> GoesOn(old(keys), f) && |old(netifRing)| < RingWork.OVPN_QUEUE_LEN)
        && keepalives == old(keepalives) + (if IsPing(old(keys), f) then [f.skb.tag] else [])
    {
      hide Passes, Payload, KeysAfter, CreditsAfter, Upright, IsIp, IsKeepalive, Accounted, Authentic, OnwardAfter,
           GoesOn, IsPing;
      var f := hand.f;
      FinishKeeps(keys, f, credited, delivered, netifRing);
      assert arrived == processed + [f.skb] + rxRing;
      hand := Free;
      var r := Decrypt(f);
      ret := Settle(f, r, old(keys));
    }

    /** Acts on the judgement of a packet. */
    method Settle(f: Flight, r: Result<Bytes>, ghost before: Keys) returns (ret: int)
      requires Accounted() && (r.Ok? <==> Passes(before, f))
      requires r.Ok? ==> r.value == Payload(before, f.gen.value, f.skb)
      modifies this`netifRing, this`freed, this`keepalives, this`processed,
               this`timerResets, this`localAddress, this`rxBytes, this`credited
      ensures Accounted() && processed == old(processed) + [f.skb]
      ensures timerResets == old(timerResets) + |credited| - |old(credited)|
      ensures credited == CreditsAfter(before, f, old(credited))
      ensures localAddress == (if Passes(before, f) && udp then f.skb.local else old(localAddress))
      ensures rxBytes == old(rxBytes) + (if Passes(before, f) then |f.skb.data| else 0)
      ensures netifRing == OnwardAfter(before, f, old(netifRing), RingWork.OVPN_QUEUE_LEN)
      ensures netifRing == old(netifRing) ||
        (Passes(before, f) && netifRing == old(netifRing) + [Inner(f.skb.tag, Payload(before, f.gen.value, f.skb))])
      ensures ret == 0 <==> GoesOn(before, f) && |old(netifRing)| < RingWork.OVPN_QUEUE_LEN
      ensures keepalives == old(keepalives) + (if IsPing(before, f) then [f.skb.tag] else [])
    {
      assert Passes(before, f) ==> f.gen.Some?;
      hide Passes, Payload, IsIp, IsKeepalive, Accounted, Authentic;
      if r.Err? {
        Drop(f.skb);
        return -1;
      }
      Reward(f);
      ret := Dispatch(f.skb, r.value);
      assert old(netifRing) + [] == old(netifRing);
    }

    /** What a packet that passed is good for. */
    method Reward(f: Flight)
      requires f.gen.Some?
      modifies this`timerResets, this`localAddress, this`rxBytes, this`credited
      ensures timerResets == old(timerResets) + 1 && rxBytes == old(rxBytes) + |f.skb.data|
      ensures localAddress == if udp then f.skb.local else old(localAddress)
      ensures credited == old(credited) + [Credit(f.gen.value, f.skb)]
    {
      timerResets := timerResets + 1;
      credited := credited + [Credit(f.gen.value, f.skb)];
      if udp {
        localAddress := f.skb.local;
      }
      rxBytes := rxBytes + |f.skb.data|;
    }

    /** One turn of the worker's loop with nothing in between. */
    method DecryptOne() returns (ret: int)
      requires Accounted() && Credits() && InOrder() && hand.Free? && rxRing != []
      modifies this`keys, this`hand, this`rxRing, this`netifRing, this`freed, this`keepalives, this`processed,
               this`timerResets, this`localAddress, this`rxBytes, this`credited
      ensures Accounted() && Credits() && InOrder() && hand.Free?
      ensures rxRing == old(rxRing)[1..] && processed == old(processed) + [old(rxRing)[0]]
      ensures var f := Took(old(keys), old(rxRing)[0]);
        && keys == KeysAfter(old(keys), f)
        && credited == CreditsAfter(old(keys), f, old(credited))
        && localAddress == (if Passes(old(keys), f) && udp then f.skb.local else old(localAddress))
        && rxBytes == old(rxBytes) + (if Passes(old(keys), f) then |f.skb.data| else 0)
        && netifRing == OnwardAfter(old(keys), f, old(netifRing), RingWork.OVPN_QUEUE_LEN)
        && (ret == 0 <==> GoesOn(old(keys), f) && |old(netifRing)| < RingWork.OVPN_QUEUE_LEN)
        && keepalives == old(keepalives) + (if IsPing(old(keys), f) then [f.skb.tag] else [])
    {
      hide Passes, KeysAfter, CreditsAfter, OnwardAfter, GoesOn, IsPing, Accounted, Credits;
      Take(true);
      if hand.Looking? {
        Look(true);
      }
      ret := Finish();
    }

    /** Empties the receive ring, oldest packet first, with no key change and no arrival meanwhile. */
    method DecryptWork()
      requires Accounted() && Credits() && InOrder() && hand.Free?
      modifies this
      ensures Accounted() && Credits() && InOrder() && hand.Free?
      ensures rxRing == [] && processed == arrived == old(arrived) && delivered == old(delivered)
      ensures keys == KeysAfterAll(old(keys), old(rxRing))
      ensures credited == old(credited) + CreditsOf(old(keys), old(rxRing))
      ensures netifRing == old(netifRing) + Onward(old(keys), old(rxRing), RingWork.OVPN_QUEUE_LEN - |old(netifRing)|)
    {
      ghost var done: seq<Skb> := [];
      ghost var room := RingWork.OVPN_QUEUE_LEN - |netifRing|;
      NothingYet(keys, room);
      hide Accounted, Credits, KeysAfter, CreditsAfter, OnwardAfter, GoesOn, IsPing, Took, KeysAfterAll, CreditsOf,
           Onward;
      while rxRing != []
        invariant Accounted() && Credits() && InOrder() && hand.Free?
        invariant done + rxRing == old(rxRing) && arrived == old(arrived) && delivered == old(delivered)
        invariant keys == KeysAfterAll(old(keys), done)
        invariant credited == old(credited) + CreditsOf(old(keys), done)
        invariant netifRing == old(netifRing) + Onward(old(keys), done, room)
        decreases |rxRing|
      {
        var skb := rxRing[0];
        AllAfter(old(keys), done, skb, room);
        CreditsAfterSum(keys, Took(keys, skb), old(credited), CreditsOf(old(keys), done));
        OnwardAfterSum(keys, Took(keys, skb), old(netifRing), Onward(old(keys), done, room), room);
        var ret := DecryptOne();
        assert done + [skb] + rxRing == old(rxRing);
        done := done + [skb];
      }
      assert done + [] == done && processed + [] + [] == processed;
    }

    /** The worker goes on. */
    method WorkerStep(op: Op)
      requires Valid() && (op.TakeNext? || op.LookOn? || op.FinishIt?)
      modifies this
      ensures Valid() && Seen() == Next(old(Seen()), op)
    {
      assert hand.Looking? ==> IsData(hand.skb);
      assert rxRing != [] ==> rxRing[0] in rxRing;
      hide Accounted, Credits, KeysAfter, CreditsAfter, OnwardAfter, GoesOn, IsPing, LoadPrimary, LoadSecondary;
      if op.TakeNext? {
        if hand.Free? && rxRing != [] {
          Take(op.held);
        }
      } else if op.LookOn? {
        if hand.Looking? {
          Look(op.held);
        }
      } else if hand.Holding? {
        var ret := Finish();
      }
    }

    /** Somebody changes the keys, unless a swap is half-done. */
    method KeysStep(op: Op)
      requires Valid() && (op.NewKey? || op.DelKey? || op.SwapFirst? || op.SwapSecond?)
      modifies this
      ensures Valid() && Seen() == Next(old(Seen()), op)
    {
      hide Accounted, Credits, InOrder;
      if op.SwapSecond? {
        if keys.aside.Some? {
          SwapStore();
        }
      } else if keys.aside.None? {
        if op.NewKey? {
          InstallKey(op.which, op.key);
        } else if op.DelKey? {
          DeleteKey(op.which);
        } else {
          SwapStore();
        }
      }
    }

    /** One thing happens. */
    method Step(op: Op)
      requires Valid() && (op.Arrive? ==> op.skb.data != [])
      modifies this
      ensures Valid() && Seen() == Next(old(Seen()), op)
    {
      if op.Arrive? {
        hide Accounted, Credits, InOrder;
        var ret := Recv(op.skb, op.sent);
      } else if op.Poll? {
        hide Accounted, Credits, InOrder;
        var done := NapiPoll(op.budget);
      } else if op.NewKey? || op.DelKey? || op.SwapFirst? || op.SwapSecond? {
        hide Next, Valid;
        KeysStep(op);
      } else {
        hide Next, Valid;
        WorkerStep(op);
      }
    }
  }

  /** Whatever happens to a new peer, in whatever order, shows in it as specified. The timer is reset once per
      credit, and all of the above holds of the credits; the tun device gets payloads in the order in which
      their packets came; and once nothing is waiting, every packet is accounted for exactly once. */
  method AnyRun(udp: bool, localAddress: nat, ops: seq<Op>) returns (peer: RxPeer)
    requires forall op :: op in ops && op.Arrive? ==> op.skb.data != []
    ensures peer.Seen() == ViewAfter(ops)
    ensures peer.timerResets == |peer.credited|
    ensures forall c :: c in peer.credited ==> Authentic(peer.keys, c.gen, c.skb)
    ensures Distinct(peer.credited)
    ensures Earned(peer.keys, peer.delivered, peer.credited)
    ensures Subsequence(Tags(peer.delivered), SkbTags(peer.arrived))
    ensures peer.rxRing == [] && peer.hand.Free? && peer.netifRing == [] ==>
      multiset(peer.freed) + multiset(peer.keepalives) + multiset(Tags(peer.delivered)) == multiset(SkbTags(peer.arrived))
  {
    peer := new RxPeer(udp, localAddress);
    assert ViewAfter([]) == NEW_PEER && ops[..0] == [];
    for k := 0 to |ops|
      invariant peer.Valid() && fresh(peer) && peer.Seen() == ViewAfter(ops[..k])
    {
      hide RxPeer.Valid, Next, ViewAfter;
      ViewAfterOne(ops, k);
      peer.Step(ops[k]);
    }
    assert ops[..|ops|] == ops;
    NoCreditTwice(ops);
    hide Subsequence, Placed, Authentic, Distinct, Earned, ViewAfter, InGoodOrder, Upright;
    peer.DeliveredInOrder();
    if peer.rxRing == [] && peer.hand.Free? && peer.netifRing == [] {
      peer.NothingLost();
    }
  }
}
