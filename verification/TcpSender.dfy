/** The sending side of the TCP transport, and the two sides together. */
module TcpSender {
  import opened Words
  import opened Proto
  import opened TcpFraming
  import RingWork

  /** What `kernel_sendmsg` answers: bytes taken (perhaps fewer than offered), try again, or an error. */
  datatype SendResult = Wrote(n: nat) | Again | Failed

  function Flatten(ring: seq<Bytes>): Bytes {
    if ring == [] then [] else ring[0] + Flatten(ring[1..])
  }

  lemma {:induction false} FlattenAppend(ring: seq<Bytes>, last: Bytes)
    ensures Flatten(ring + [last]) == Flatten(ring) + last
  {
    if ring == [] {
      assert [last][1..] == [];
    } else {
      assert (ring + [last])[1..] == ring[1..] + [last];
      FlattenAppend(ring[1..], last);
    }
  }

  lemma {:induction false} StreamAppend(packets: seq<Bytes>, last: Bytes)
    ensures Stream(packets + [last]) == Stream(packets) + Framed(last)
  {
    if packets == [] {
      assert [last][1..] == [];
    } else {
      assert (packets + [last])[1..] == packets[1..] + [last];
      StreamAppend(packets[1..], last);
    }
  }

  lemma HeadShrinks(ring: seq<Bytes>, n: nat)
    requires ring != [] && n <= |ring[0]|
    ensures var left := ring[0][n..];
      ring[0][..n] + Flatten(if left == [] then ring[1..] else [left] + ring[1..]) == Flatten(ring)
  {
    var left := ring[0][n..];
    assert ring[0][..n] + left == ring[0];
    if left != [] {
      assert ([left] + ring[1..])[1..] == ring[1..];
    }
  }

  /** How many of the answers take at least a byte, and how many bytes they could take in all. */
  function Takers(results: seq<SendResult>): nat {
    if results == [] then 0
    else Takers(results[..|results|-1]) + (if results[|results|-1].Wrote? && results[|results|-1].n > 0 then 1 else 0)
  }

  function Room(results: seq<SendResult>): nat {
    if results == [] then 0
    else Room(results[..|results|-1]) + (if results[|results|-1].Wrote? then results[|results|-1].n else 0)
  }

  lemma NoneYet(results: seq<SendResult>)
    ensures Takers(results[..0]) == Room(results[..0]) == 0
  {
  }

  lemma TakersAfter(results: seq<SendResult>, k: nat)
    requires k < |results|
    ensures Takers(results[..k+1]) == Takers(results[..k]) + (if results[k].Wrote? && results[k].n > 0 then 1 else 0)
    ensures Room(results[..k+1]) == Room(results[..k]) + (if results[k].Wrote? then results[k].n else 0)
  {
    assert results[..k+1][..k] == results[..k];
  }

  /** The transmit ring of a TCP peer. `wire` is what the socket has taken, `queued` the packets let into the ring. */
  class Transmitter {
    var ring: seq<Bytes>
    var wire: Bytes
    var deleted: bool
    ghost var queued: seq<Bytes>

    ghost predicate Valid()
      reads `ring, `wire, `queued
    {
      && |ring| <= RingWork.OVPN_QUEUE_LEN
      && (forall k :: 0 <= k < |ring| ==> ring[k] != [])
      && wire + Flatten(ring) == Stream(queued)
    }

    constructor ()
      ensures Valid() && ring == [] && wire == [] && queued == [] && !deleted
    {
      ring, wire, deleted, queued := [], [], false, [];
    }

    /** Prepends the length and enqueues; a full ring drops the packet whole. */
    method SendSkb(packet: Bytes) returns (kept: bool)
      requires Valid()
      modifies this`ring, this`queued
      ensures Valid()
      ensures kept == (|old(ring)| < RingWork.OVPN_QUEUE_LEN)
      ensures queued == if kept then old(queued) + [packet] else old(queued)
    {
      var skb := Be16(|packet| % U16_SIZE) + packet;
      if |ring| >= RingWork.OVPN_QUEUE_LEN {
        return false;
      }
      FlattenAppend(ring, skb);
      StreamAppend(queued, packet);
      ring := ring + [skb];
      queued := queued + [packet];
      return true;
    }

    /** Offers the head of the ring to the socket, which takes at most `room` bytes of it; a packet leaves the
        ring once all of it has been taken. */
    method SendOne(room: nat) returns (n: nat)
      requires Valid() && ring != []
      modifies this`ring, this`wire
      ensures Valid() && n == if room < |old(ring)[0]| then room else |old(ring)[0]|
      ensures wire == old(wire) + old(ring)[0][..n] && (room > 0 ==> n > 0)
    {
      var skb := ring[0];
      n := if room < |skb| then room else |skb|;
      HeadShrinks(ring, n);
      wire := wire + skb[..n];
      skb := skb[n..];
      ring := if skb == [] then ring[1..] else [skb] + ring[1..];
    }

    /** Sends until the ring is empty or the socket fails. */
    method TxWork(results: seq<SendResult>)
      requires Valid()
      modifies this`ring, this`wire, this`deleted
      ensures Valid()
      ensures old(wire) <= wire
      ensures deleted ==> old(deleted) || Failed in results
      ensures ring != [] ==> deleted == (old(deleted) || Failed in results)
      ensures Failed !in results && ring != [] ==>
        Takers(results) <= |wire| - |old(wire)| <= Room(results)
    {
      hide Valid, Takers, Room;
      NoneYet(results);
      var k := 0;
      while ring != [] && k < |results|
        invariant Valid() && old(wire) <= wire && 0 <= k <= |results|
        invariant deleted == old(deleted) && forall j :: 0 <= j < k ==> results[j] != Failed
        invariant Takers(results[..k]) <= |wire| - |old(wire)| <= Room(results[..k])
        decreases |results| - k
      {
        TakersAfter(results, k);
        match results[k] {
          case Wrote(m) =>
            var n := SendOne(m);
          case Again =>
          case Failed =>
            deleted := true;
            break;
        }
        k := k + 1;
      }
      assert results[..|results|] == results;
    }
  }

  /** Whatever the socket splits or delays on either side: what came out is the beginning of what was put in,
      and all of it once everything has been sent and read. */
  lemma EndToEnd(tx: Transmitter, rx: TcpReceiver)
    requires tx.Valid() && rx.Valid() && rx.cuts == [] && rx.consumed <= tx.wire
    requires AllSendable(tx.queued)
    ensures rx.delivered <= tx.queued
    ensures tx.ring == [] && rx.consumed == tx.wire ==> rx.delivered == tx.queued && rx.Unfinished() == []
  {
    var rest := tx.wire[|rx.consumed|..] + Flatten(tx.ring);
    assert rx.consumed + rest == Stream(tx.queued);
    PrefixOfStream(tx.queued, rx.consumed, rest);
    FramingRoundTrip(tx.queued);
    assert tx.ring == [] ==> tx.wire + Flatten(tx.ring) == tx.wire;
  }

  lemma {:induction false} FirstCut(prefix: Bytes, more: Bytes)
    requires |prefix| == 2
    ensures WithoutPrefixes(prefix + more, [0]) == more
  {
    var cuts: seq<nat> := [0];
    assert cuts[..0] == [] && (prefix + more)[..0] == [] && (prefix + more)[2..] == more;
  }

  /** A packet for which there is no memory loses only its prefix: however its data is read, the receiver takes it
      for packets with prefixes of their own. */
  method LosePrefix(packet: Bytes, budget: seq<nat>) returns (delivered: seq<Bytes>, taken: nat)
    requires Sendable(packet)
    ensures taken <= |packet| && delivered == Deframed(packet[..taken]).packets
  {
    hide Deframed, WithoutPrefixes, LostPrefixes, FromBe16;
    var prefix := Be16(|packet|);
    var rx := new TcpReceiver();
    assert rx.Unfinished() + prefix == prefix;
    var n := rx.RxOne(prefix, false);
    assert rx.consumed == prefix && rx.cuts == [0];
    taken := rx.RxWork(packet, budget, _ => true);
    FirstCut(prefix, packet[..taken]);
    delivered := rx.delivered;
  }

  /** Of this packet it makes another, which nobody sent. */
  lemma LostPrefixMisparses()
    ensures Deframed(Framed([0, 1, 7])) == Parsed([[0, 1, 7]], [])
    ensures Deframed([0, 1, 7]) == Parsed([[7]], [])
  {
    var packet: Bytes := [0, 1, 7];
    DeframedFirst(packet, []);
    assert Framed(packet) + [] == Framed(packet);
    assert packet[..2] == [0, 1] && packet[2..3] == [7] && packet[3..] == [];
  }
}
