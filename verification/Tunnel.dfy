/** A key slot over its lifetime, and two of them facing each other. */
module Tunnel {
  import opened Words
  import opened Proto
  import opened ReplaySpec
  import opened ReplayRuns
  import opened ReplayTheorems
  import opened Aead

  /** The counter after `calls`, in the order in which their draws took effect. */
  function CounterAfter(calls: seq<Call>): (n: int)
    ensures 1 <= n <= PKTID_LIMIT
  {
    if calls == [] then 1
    else
      var n := CounterAfter(calls[..|calls|-1]);
      if DrawsId(n, calls[|calls|-1]) then n + 1 else n
  }

  /** Every IV that reached the cipher, failed encryptions included. */
  function IvsUsed(calls: seq<Call>, tail: Bytes): seq<Bytes> {
    if calls == [] then []
    else
      var before := calls[..|calls|-1];
      var n := CounterAfter(before);
      IvsUsed(before, tail) + (if DrawsId(n, calls[|calls|-1]) then [Iv(n, tail)] else [])
  }

  /** The IDs drawn are 1, 2, 3, ... without a gap. */
  lemma {:induction false} IdsAreConsecutive(calls: seq<Call>, tail: Bytes)
    ensures |IvsUsed(calls, tail)| == CounterAfter(calls) - 1
    ensures forall k :: 0 <= k < |IvsUsed(calls, tail)| ==> IvsUsed(calls, tail)[k] == Iv(k + 1, tail)
  {
    if calls != [] {
      IdsAreConsecutive(calls[..|calls|-1], tail);
    }
  }

  /** How many calls get past preparing the request. */
  function Attempts(calls: seq<Call>): nat {
    if calls == [] then 0
    else Attempts(calls[..|calls|-1]) + (if calls[|calls|-1].fault.BeforeCipher? then 0 else 1)
  }

  /** Every attempt uses up an ID, whether the cipher then fails or not, until all are gone. */
  lemma {:induction false} AttemptsUseIds(calls: seq<Call>)
    ensures CounterAfter(calls) == if Attempts(calls) < 0xFFFF_FFFF then 1 + Attempts(calls) else 0x1_0000_0000
  {
    if calls != [] {
      AttemptsUseIds(calls[..|calls|-1]);
    }
  }

  /** Every attempt runs the cipher with an IV of its own, in order, until all IDs are gone. */
  lemma {:induction false} AttemptsUseIvs(calls: seq<Call>, tail: Bytes)
    ensures |IvsUsed(calls, tail)| == if Attempts(calls) < 0xFFFF_FFFF then Attempts(calls) else 0xFFFF_FFFF
    ensures forall k :: 0 <= k < |calls| && !calls[k].fault.BeforeCipher? && Attempts(calls[..k]) < 0xFFFF_FFFF ==>
      var n := Attempts(calls[..k]);
      n < |IvsUsed(calls, tail)| && IvsUsed(calls, tail)[n] == Be32(n + 1) + tail
  {
    AttemptsUseIds(calls);
    IdsAreConsecutive(calls, tail);
    forall k | 0 <= k < |calls| && !calls[k].fault.BeforeCipher? ensures Attempts(calls[..k]) < Attempts(calls) {
      AttemptsGrow(calls, k);
    }
  }

  lemma {:induction false} AttemptsGrow(calls: seq<Call>, k: nat)
    requires k < |calls| && !calls[k].fault.BeforeCipher?
    ensures Attempts(calls[..k]) < Attempts(calls)
  {
    var last := |calls| - 1;
    if k < last {
      AttemptsGrow(calls[..last], k);
      assert calls[..last][..k] == calls[..k];
    }
  }

  /** No two runs of the cipher under one key slot share an IV, and there are fewer than 2^32 of them. */
  lemma {:induction false} NoncesNeverRepeat(calls: seq<Call>, tail: Bytes)
    ensures |IvsUsed(calls, tail)| < PKTID_LIMIT
    ensures forall i, j :: 0 <= i < j < |IvsUsed(calls, tail)| ==> IvsUsed(calls, tail)[i] != IvsUsed(calls, tail)[j]
  {
    IdsAreConsecutive(calls, tail);
    forall i, j | 0 <= i < j < |IvsUsed(calls, tail)|
      ensures IvsUsed(calls, tail)[i] != IvsUsed(calls, tail)[j]
    {
      IvIsInjective(i + 1, j + 1, tail);
    }
  }

  /** Across slots it takes different nonce tails: two slots have run the cipher with one and the same IV if and only
      if both have run it at all and their tails are equal, for every slot starts with the first ID. */
  lemma {:induction false} SlotsShareIvs(calls: seq<Call>, tail: Bytes, calls': seq<Call>, tail': Bytes)
    requires |tail| == |tail'| == NONCE_TAIL_SIZE
    ensures (exists iv :: iv in IvsUsed(calls, tail) && iv in IvsUsed(calls', tail'))
       <==> IvsUsed(calls, tail) != [] && IvsUsed(calls', tail') != [] && tail == tail'
  {
    hide IvsUsed, CounterAfter;
    var ivs, ivs' := IvsUsed(calls, tail), IvsUsed(calls', tail');
    IdsAreConsecutive(calls, tail);
    IdsAreConsecutive(calls', tail');
    if iv :| iv in ivs && iv in ivs' {
      assert iv[4..] == tail && iv[4..] == tail';
    }
    if ivs != [] && ivs' != [] && tail == tail' {
      assert ivs[0] in ivs && ivs'[0] in ivs' && ivs[0] == ivs'[0];
    }
  }

  /** Once the IDs are gone every later call fails and the cipher is never run again. */
  lemma {:induction false} ExhaustionIsFinal(calls: seq<Call>, more: seq<Call>, seal: Seal, tail: Bytes, keyId: byte)
    requires CounterAfter(calls) == PKTID_LIMIT
    ensures CounterAfter(calls + more) == PKTID_LIMIT
    ensures IvsUsed(calls + more, tail) == IvsUsed(calls, tail)
    ensures forall call: Call :: !call.fault.BeforeCipher? ==>
      EncryptResult(CounterAfter(calls + more), seal, tail, keyId, call) == Err(ERANGE)
  {
    if more == [] {
      assert calls + more == calls;
    } else {
      ExhaustionIsFinal(calls, more[..|more|-1], seal, tail, keyId);
      assert (calls + more)[..|calls + more|-1] == calls + more[..|more|-1];
    }
  }

  lemma {:induction false} OneMoreCall(calls: seq<Call>, k: nat, tail: Bytes)
    requires k < |calls|
    ensures var n := CounterAfter(calls[..k]);
      && CounterAfter(calls[..k+1]) == n + (if DrawsId(n, calls[k]) then 1 else 0)
      && IvsUsed(calls[..k+1], tail) == IvsUsed(calls[..k], tail) + (if DrawsId(n, calls[k]) then [Iv(n, tail)] else [])
  {
    assert calls[..k+1][..k] == calls[..k];
  }

  lemma {:induction false} NoCalls(tail: Bytes)
    ensures CounterAfter([]) == 1 && IvsUsed([], tail) == []
  {
  }

  /** A slot that has used no ID yet gives, over any calls, exactly those packets and uses exactly those IVs. */
  method EncryptAll(sender: KeySlot, calls: seq<Call>) returns (results: seq<Result<Bytes>>, ivs: seq<Bytes>)
    requires sender.Valid() && sender.pidXmit.seqNum == 1
    modifies sender.pidXmit
    ensures sender.Valid()
    ensures ivs == IvsUsed(calls, sender.tailXmit)
    ensures |results| == |calls|
    ensures forall k :: 0 <= k < |calls| ==>
      results[k] == EncryptResult(CounterAfter(calls[..k]), sender.seal, sender.tailXmit, sender.keyId, calls[k])
  {
    hide Encapsulated, EncryptResult, KeySlot.Valid, CounterAfter, IvsUsed, DrawsId, Iv;
    results, ivs := [], [];
    NoCalls(sender.tailXmit);
    for k := 0 to |calls|
      invariant sender.Valid()
      invariant sender.pidXmit.seqNum == CounterAfter(calls[..k])
      invariant ivs == IvsUsed(calls[..k], sender.tailXmit)
      invariant |results| == k
      invariant forall i :: 0 <= i < k ==>
        results[i] == EncryptResult(CounterAfter(calls[..i]), sender.seal, sender.tailXmit, sender.keyId, calls[i])
    {
      OneMoreCall(calls, k, sender.tailXmit);
      var r, iv := sender.Encrypt(calls[k]);
      results := results + [r];
      if iv.Some? {
        ivs := ivs + [iv.value];
      }
    }
    assert calls[..|calls|] == calls;
  }

  /** The same from the making of the slot on. */
  method DriveSlot(keyId: byte, seal: Seal, open: Open, tail: Bytes, calls: seq<Call>)
    returns (results: seq<Result<Bytes>>, ivs: seq<Bytes>)
    requires |tail| == NONCE_TAIL_SIZE
    ensures ivs == IvsUsed(calls, tail)
    ensures |results| == |calls|
    ensures forall k :: 0 <= k < |calls| ==>
      results[k] == EncryptResult(CounterAfter(calls[..k]), seal, tail, keyId, calls[k])
  {
    hide EncryptResult, KeySlot.Valid, CounterAfter, IvsUsed;
    var slot := new KeySlot(keyId, seal, open, tail, tail, 0);
    results, ivs := EncryptAll(slot, calls);
  }

  /** Call `i` gave a packet. */
  ghost predicate Sealed(calls: seq<Call>, i: nat) {
    i < |calls| && calls[i].fault.NoFault? && CounterAfter(calls[..i]) != PKTID_LIMIT
  }

  lemma {:induction false} CounterGrows(calls: seq<Call>, i: nat, j: nat)
    requires i < j <= |calls|
    ensures CounterAfter(calls[..i]) <= CounterAfter(calls[..j])
    ensures Sealed(calls, i) ==> CounterAfter(calls[..i]) < CounterAfter(calls[..j])
    decreases j
  {
    OneMoreCall(calls, j - 1, []);
    if i < j - 1 {
      CounterGrows(calls, i, j - 1);
    }
  }

  /** The network hands over the packet of call `index`, in any order and as often as it likes, or bytes of its own. */
  datatype Delivery = Genuine(index: nat, now: nat) | Foreign(bytes: Bytes, now: nat)

  /** What the network made up does not open. */
  ghost predicate ForeignFails(open: Open, tail: Bytes, ds: seq<Delivery>) {
    forall k :: 0 <= k < |ds| && ds[k].Foreign? ==> Opened(open, tail, ds[k].bytes).None?
  }

  /** What is genuine was sent. */
  ghost predicate AllSealed(calls: seq<Call>, ds: seq<Delivery>) {
    forall k :: 0 <= k < |ds| && ds[k].Genuine? ==> Sealed(calls, ds[k].index)
  }

  ghost function ArrivalOf(calls: seq<Call>, d: Delivery): Event
    requires d.Genuine? && Sealed(calls, d.index)
  {
    Event(CounterAfter(calls[..d.index]), 0, d.now)
  }

  /** The genuine packets, as the replay window sees them. */
  ghost function Arrivals(calls: seq<Call>, ds: seq<Delivery>): seq<Event>
    requires AllSealed(calls, ds)
  {
    if ds == [] then []
    else
      var d := ds[|ds|-1];
      Arrivals(calls, ds[..|ds|-1]) + (if d.Genuine? then [ArrivalOf(calls, d)] else [])
  }

  lemma {:induction false} ArrivalsPrefix(calls: seq<Call>, ds: seq<Delivery>, k: nat)
    requires AllSealed(calls, ds) && k <= |ds|
    ensures Arrivals(calls, ds[..k]) <= Arrivals(calls, ds)
    ensures k < |ds| && ds[k].Genuine? ==>
      var n := |Arrivals(calls, ds[..k])|;
      n < |Arrivals(calls, ds)| && Arrivals(calls, ds)[n] == ArrivalOf(calls, ds[k])
  {
    var last := |ds| - 1;
    if k == |ds| {
      assert ds[..k] == ds;
    } else {
      ArrivalsPrefix(calls, ds[..last], k);
      assert ds[..last][..k] == ds[..k];
    }
  }

  /** The packet was not delivered before. */
  ghost predicate FirstDelivery(ds: seq<Delivery>, k: nat)
    requires k < |ds| && ds[k].Genuine?
  {
    forall j :: 0 <= j < k && ds[j].Genuine? ==> ds[j].index != ds[k].index
  }

  /** Packets of different calls carry different IDs, whatever failed in between. */
  lemma IdsTellCalls(calls: seq<Call>, a: nat, b: nat)
    requires Sealed(calls, a) && Sealed(calls, b)
    ensures CounterAfter(calls[..a]) == CounterAfter(calls[..b]) <==> a == b
  {
    hide CounterAfter;
    if a < b {
      CounterGrows(calls, a, b);
    } else if b < a {
      CounterGrows(calls, b, a);
    }
  }

  lemma {:induction false} CarriedByArrivals(calls: seq<Call>, ds: seq<Delivery>, index: nat)
    requires AllSealed(calls, ds) && Sealed(calls, index)
    ensures Carried(Arrivals(calls, ds), CounterAfter(calls[..index])) <==>
            exists j :: 0 <= j < |ds| && ds[j].Genuine? && ds[j].index == index
  {
    if ds != [] {
      var last := |ds| - 1;
      var d, before := ds[last], ds[..last];
      CarriedByArrivals(calls, before, index);
      hide CounterAfter, Carried;
      if d.Genuine? {
        IdsTellCalls(calls, d.index, index);
        CarriedAfter(Arrivals(calls, before), ArrivalOf(calls, d), CounterAfter(calls[..index]));
      } else {
        assert Arrivals(calls, before) + [] == Arrivals(calls, before);
      }
      assert forall j :: 0 <= j < last ==> before[j] == ds[j];
    }
  }

  lemma {:induction false} FirstDeliveryIsFirstCopy(calls: seq<Call>, ds: seq<Delivery>, k: nat)
    requires AllSealed(calls, ds) && k < |ds| && ds[k].Genuine?
    ensures var n := |Arrivals(calls, ds[..k])|;
      n < |Arrivals(calls, ds)| && (FirstDelivery(ds, k) <==> FirstCopy(Arrivals(calls, ds), n))
  {
    hide CounterAfter, Carried, Arrivals;
    ArrivalsPrefix(calls, ds, k);
    CarriedByArrivals(calls, ds[..k], ds[k].index);
    assert forall j :: 0 <= j < k ==> ds[..k][j] == ds[j];
    assert Arrivals(calls, ds)[..|Arrivals(calls, ds[..k])|] == Arrivals(calls, ds[..k]);
  }

  lemma DecryptFollowsWindow(s: Receiver, seal: Seal, open: Open, tail: Bytes, keyId: byte, peerId: u32,
                             pktid: u32, payload: Bytes, now: ulong, timeout: nat)
    requires SameKey(seal, open)
    ensures var wire := Encapsulated(seal, tail, keyId, peerId, pktid, payload);
      && AfterDecrypt(s, open, tail, wire, now, timeout) == Receive(s, pktid, 0, now, timeout)
      && Decapsulated(s, open, tail, wire, now)
         == (var v := Judge(s, pktid, 0, now); if v == Accepted then Ok(payload) else Err(ErrnoOf(v)))
  {
    hide Encapsulated, Receive, Judge;
    EncapsulationRoundTrip(seal, open, tail, keyId, peerId, pktid, payload);
  }

  lemma ForeignIsRefused(s: Receiver, open: Open, tail: Bytes, bytes: Bytes, now: ulong, timeout: nat)
    requires Opened(open, tail, bytes).None?
    ensures AfterDecrypt(s, open, tail, bytes, now, timeout) == s
    ensures Decapsulated(s, open, tail, bytes, now) == Err(if |bytes| < OVERHEAD then EINVAL else EBADMSG)
  {
  }

  /** What the receiving end makes of delivery `k`. */
  ghost function Outcome(calls: seq<Call>, ds: seq<Delivery>, k: nat): Result<Bytes>
    requires AllSealed(calls, ds) && k < |ds|
  {
    match ds[k]
    case Genuine(index, _) => if FirstDelivery(ds, k) then Ok(calls[index].payload) else Err(EINVAL)
    case Foreign(bytes, _) => Err(if |bytes| < OVERHEAD then EINVAL else EBADMSG)
  }

  lemma {:induction false} StampStaysZero(es: seq<Event>, timeout: nat)
    requires forall e :: e in es ==> e.time == 0
    ensures StateAfter(es, timeout).time == 0
  {
    if es != [] {
      StampStaysZero(es[..|es|-1], timeout);
    }
  }

  lemma {:induction false} WindowDecides(es: seq<Event>, timeout: nat, k: nat)
    requires Benign(es, timeout) && timeout < LONG_SIZE / 2 && k < |es|
    requires forall e :: e in es ==> e.time == 0
    ensures Judge(StateAfter(es[..k], timeout), es[k].id, 0, Jiffies(es[k].now))
         == if FirstCopy(es, k) then Accepted else Invalid
  {
    ExactlyOnce(es, timeout);
    StampStaysZero(es[..k], timeout);
    assert es[k] in es;
    assert Verdicts(es, timeout)[k] == Accepted <==> FirstCopy(es, k);
  }

  /** One genuine packet, after `ds[..k]` went the same way. */
  method ReceiveGenuine(sender: KeySlot, receiver: KeySlot, wire: Bytes, ghost calls: seq<Call>, ghost ds: seq<Delivery>,
                        ghost k: nat, now: ulong) returns (r: Result<Bytes>)
    requires receiver.Valid() && SameKey(sender.seal, receiver.open) && sender.tailXmit == receiver.tailRecv
    requires AllSealed(calls, ds) && k < |ds| && ds[k].Genuine? && now == Jiffies(ds[k].now)
    requires Benign(Arrivals(calls, ds), receiver.pidRecv.timeout) && receiver.pidRecv.timeout < LONG_SIZE / 2
    requires receiver.pidRecv.Contents() == StateAfter(Arrivals(calls, ds[..k]), receiver.pidRecv.timeout)
    requires var call := calls[ds[k].index];
      wire == Encapsulated(sender.seal, sender.tailXmit, sender.keyId, call.peerId,
                           CounterAfter(calls[..ds[k].index]), call.payload)
    modifies receiver.pidRecv, receiver.pidRecv.history
    ensures receiver.Valid() && r == Outcome(calls, ds, k)
    ensures receiver.pidRecv.Contents() == StateAfter(Arrivals(calls, ds[..k+1]), receiver.pidRecv.timeout)
  {
    hide Encapsulated, KeySlot.Valid, SameKey, Benign, FirstCopy, FirstDelivery, StateAfter, Receive, Judge,
         Decapsulated, AfterDecrypt, CounterAfter;
    ghost var es, timeout, n := Arrivals(calls, ds), receiver.pidRecv.timeout, |Arrivals(calls, ds[..k])|;
    ghost var call := calls[ds[k].index];
    ArrivalsPrefix(calls, ds, k);
    assert es[..n] == Arrivals(calls, ds[..k]);
    assert ds[..k+1][..k] == ds[..k];
    VerdictsAfter(es[..n], es[n], timeout);
    StampsAreZero(calls, ds);
    WindowDecides(es, timeout, n);
    FirstDeliveryIsFirstCopy(calls, ds, k);
    DecryptFollowsWindow(StateAfter(es[..n], timeout), sender.seal, receiver.open, receiver.tailRecv, sender.keyId,
                         call.peerId, es[n].id, call.payload, now, timeout);
    r := receiver.Decrypt(wire, now, None);
  }

  lemma {:induction false} StampsAreZero(calls: seq<Call>, ds: seq<Delivery>)
    requires AllSealed(calls, ds)
    ensures forall e :: e in Arrivals(calls, ds) ==> e.time == 0
  {
    if ds != [] {
      StampsAreZero(calls, ds[..|ds|-1]);
    }
  }

  /** Payloads cross the tunnel exactly once: whatever calls failed, whatever the network reorders or repeats within the
      window and whatever it slips in, the first copy of each packet comes out as it went in, and every other copy
      and everything that is not from the sender is refused. */
  method Transfer(sender: KeySlot, receiver: KeySlot, calls: seq<Call>, ds: seq<Delivery>)
    returns (got: seq<Result<Bytes>>)
    requires sender.Valid() && sender.pidXmit.seqNum == 1
    requires receiver.Valid() && receiver.pidRecv.Contents() == FRESH_RECEIVER
    requires SameKey(sender.seal, receiver.open) && sender.tailXmit == receiver.tailRecv
    requires sender.pidXmit != receiver.pidXmit
    requires AllSealed(calls, ds) && ForeignFails(receiver.open, receiver.tailRecv, ds)
    requires Benign(Arrivals(calls, ds), receiver.pidRecv.timeout) && receiver.pidRecv.timeout < LONG_SIZE / 2
    modifies sender.pidXmit, receiver.pidRecv, receiver.pidRecv.history
    ensures |got| == |ds|
    ensures forall k :: 0 <= k < |ds| ==> got[k] == Outcome(calls, ds, k)
  {
    hide Encapsulated, KeySlot.Valid, SameKey, Benign, FirstDelivery, StateAfter, Decapsulated, AfterDecrypt,
         CounterAfter, IvsUsed, Opened;
    var results, ivs := EncryptAll(sender, calls);
    ghost var timeout := receiver.pidRecv.timeout;
    got := [];
    StartsFresh(timeout);
    for k := 0 to |ds|
      invariant receiver.Valid()
      invariant receiver.pidRecv.Contents() == StateAfter(Arrivals(calls, ds[..k]), timeout)
      invariant |got| == k
      invariant forall i :: 0 <= i < k ==> got[i] == Outcome(calls, ds, i)
    {
      var r;
      match ds[k] {
        case Genuine(index, now) =>
          assert Sealed(calls, index);
          r := ReceiveGenuine(sender, receiver, results[index].value, calls, ds, k, Jiffies(now));
        case Foreign(bytes, now) =>
          ForeignIsRefused(receiver.pidRecv.Contents(), receiver.open, receiver.tailRecv, bytes, Jiffies(now), timeout);
          assert ds[..k+1][..k] == ds[..k];
          assert Arrivals(calls, ds[..k]) + [] == Arrivals(calls, ds[..k]);
          r := receiver.Decrypt(bytes, Jiffies(now), None);
      }
      got := got + [r];
    }
  }

  lemma {:induction false} StartsFresh(timeout: nat)
    ensures StateAfter([], timeout) == FRESH_RECEIVER
  {
  }
}
