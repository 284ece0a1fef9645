/** Packets over a byte stream: each is preceded by its length in two bytes, most significant first. */
module TcpFraming {
  import opened Words
  import opened Proto

  /** `ovpn_tcp_send_skb`: the length is kept in 16 bits, whatever the packet's is. */
  function Framed(packet: Bytes): Bytes {
    Be16(|packet| % U16_SIZE) + packet
  }

  function Stream(packets: seq<Bytes>): Bytes {
    if packets == [] then [] else Framed(packets[0]) + Stream(packets[1..])
  }

  /** The packets in a stretch of the stream and what is left over. */
  datatype Parsed = Parsed(packets: seq<Bytes>, tail: Bytes)

  /** The first packet is complete; a length of zero never is. */
  predicate StartsWithPacket(s: Bytes) {
    |s| >= 2 && FromBe16(s[..2]) > 0 && |s| >= 2 + FromBe16(s[..2])
  }

  function Deframed(s: Bytes): Parsed
    decreases |s|
  {
    if !StartsWithPacket(s) then Parsed([], s)
    else
      var end := 2 + FromBe16(s[..2]);
      var rest := Deframed(s[end..]);
      Parsed([s[2..end]] + rest.packets, rest.tail)
  }

  lemma {:induction false} DeframedStep(s: Bytes, end: nat, more: Bytes)
    requires StartsWithPacket(s) && end == 2 + FromBe16(s[..2])
    ensures var rest := Deframed(s[end..] + more);
      Deframed(s + more) == Parsed([s[2..end]] + rest.packets, rest.tail)
  {
    assert (s + more)[..2] == s[..2] && (s + more)[2..end] == s[2..end];
    assert (s + more)[end..] == s[end..] + more;
  }

  /** The packets of both parses, and the tail of the second. */
  function Joined(d: Parsed, e: Parsed): Parsed {
    Parsed(d.packets + e.packets, e.tail)
  }

  lemma JoinedFirst(packet: Bytes, d: Parsed, e: Parsed)
    ensures Joined(Parsed([packet] + d.packets, d.tail), e)
         == Parsed([packet] + Joined(d, e).packets, Joined(d, e).tail)
  {
    assert [packet] + d.packets + e.packets == [packet] + (d.packets + e.packets);
  }

  lemma JoinedNone(tail: Bytes, e: Parsed)
    ensures Joined(Parsed([], tail), e) == e
  {
    assert [] + e.packets == e.packets;
  }

  /** Reading on means parsing on from the tail. */
  lemma {:induction false} DeframedAppend(s: Bytes, more: Bytes)
    ensures Deframed(s + more) == Joined(Deframed(s), Deframed(Deframed(s).tail + more))
    decreases |s|
  {
    hide Joined;
    if StartsWithPacket(s) {
      var end := 2 + FromBe16(s[..2]);
      hide Deframed, StartsWithPacket, FromBe16;
      assert s + [] == s && s[end..] + [] == s[end..];
      DeframedStep(s, end, []);
      DeframedStep(s, end, more);
      DeframedAppend(s[end..], more);
      JoinedFirst(s[2..end], Deframed(s[end..]), Deframed(Deframed(s[end..]).tail + more));
    } else {
      assert Deframed(s) == Parsed([], s);
      hide Deframed, StartsWithPacket, FromBe16;
      JoinedNone(s, Deframed(s + more));
    }
  }

  /** A packet whose length a 16-bit prefix can tell. */
  predicate Sendable(packet: Bytes) {
    1 <= |packet| < U16_SIZE
  }

  lemma {:induction false} DeframedFirst(packet: Bytes, more: Bytes)
    ensures Sendable(packet) ==>
      Deframed(Framed(packet) + more) == Parsed([packet] + Deframed(more).packets, Deframed(more).tail)
    ensures !Sendable(packet) && Deframed(Framed(packet) + more).packets != [] ==>
      Deframed(Framed(packet) + more).packets[0] != packet
  {
    var s, len := Framed(packet) + more, |packet| % U16_SIZE;
    assert s[..2] == Be16(len) && FromBe16(s[..2]) == len;
    hide FromBe16;
    if Sendable(packet) {
      assert len == |packet|;
      assert s[2..2+len] == packet && s[2+len..] == more;
    } else {
      assert len == 0 || len != |packet|;
    }
  }

  predicate AllSendable(packets: seq<Bytes>) {
    forall k :: 0 <= k < |packets| ==> Sendable(packets[k])
  }

  lemma ParseOfRest(packets: seq<Bytes>, rest: Parsed)
    requires packets != []
    ensures Parsed([packets[0]] + rest.packets, rest.tail) == Parsed(packets, []) <==> rest == Parsed(packets[1..], [])
  {
    assert ([packets[0]] + rest.packets)[1..] == rest.packets;
    assert [packets[0]] + packets[1..] == packets;
  }

  /** The receiver recovers a list of packets from their stream exactly when every one of them is sendable. */
  lemma {:induction false} FramingRoundTrip(packets: seq<Bytes>)
    ensures Deframed(Stream(packets)) == Parsed(packets, []) <==> AllSendable(packets)
  {
    if packets != [] {
      FramingRoundTrip(packets[1..]);
      assert AllSendable(packets) <==> Sendable(packets[0]) && AllSendable(packets[1..]);
      assert Stream(packets) == Framed(packets[0]) + Stream(packets[1..]);
      hide Deframed, Stream, Framed, Sendable, AllSendable;
      DeframedFirst(packets[0], Stream(packets[1..]));
      ParseOfRest(packets, Deframed(Stream(packets[1..])));
    }
  }

  /** Any stretch of the stream that has arrived gives the first of the packets and nothing else. */
  lemma {:induction false} PrefixOfStream(packets: seq<Bytes>, arrived: Bytes, rest: Bytes)
    requires AllSendable(packets)
    requires arrived + rest == Stream(packets)
    ensures Deframed(arrived).packets <= packets
  {
    hide Deframed, Stream, AllSendable;
    FramingRoundTrip(packets);
    DeframedAppend(arrived, rest);
  }

  /** The socket writes what it has into the buffer. */
  method CopyAt(buffer: array<byte>, at: nat, chunk: Bytes)
    requires at + |chunk| <= buffer.Length
    modifies buffer
    ensures buffer[..] == old(buffer[..at]) + chunk + old(buffer[at + |chunk|..])
  {
    forall k | 0 <= k < |chunk| {
      buffer[at + k] := chunk[k];
    }
  }

  /** What more bytes do to an unfinished packet. */
  lemma {:induction false} PrefixGrows(tail: Bytes)
    requires |tail| <= 2
    ensures Deframed(tail) == Parsed([], tail)
  {
  }

  lemma {:induction false} DataGrows(prefix: Bytes, data: Bytes)
    requires |prefix| == 2 && |data| < FromBe16(prefix)
    ensures Deframed(prefix + data) == Parsed([], prefix + data)
  {
    assert (prefix + data)[..2] == prefix;
  }

  lemma {:induction false} TailCompletes(prefix: Bytes, packet: Bytes)
    requires |prefix| == 2 && FromBe16(prefix) == |packet| > 0
    ensures Deframed(prefix + packet) == Parsed([packet], [])
  {
    var s := prefix + packet;
    assert s[..2] == prefix && s[2..2+|packet|] == packet && s[2+|packet|..] == [];
  }

  /** A stretch that begins with one whole packet. */
  lemma {:induction false} DeframedHead(first: Bytes, more: Bytes)
    requires |first| > 2 && |first| == 2 + FromBe16(first[..2])
    ensures Deframed(first + more) == Parsed([first[2..]] + Deframed(more).packets, Deframed(more).tail)
  {
    hide Deframed, FromBe16;
    assert first[|first|..] + more == more && first[2..|first|] == first[2..];
    DeframedStep(first, |first|, more);
  }

  lemma CutBack(first: Bytes, rest: Bytes, n: nat)
    requires n <= |rest|
    ensures (first + rest)[..|first + rest| - n] == first + rest[..|rest| - n]
  {
  }

  lemma {:induction false} DeframedNone(s: Bytes)
    requires !StartsWithPacket(s)
    ensures Deframed(s) == Parsed([], s) && Deframed(s[..0]) == Parsed([], [])
  {
  }

  lemma FirstAndRest(s: Bytes) returns (first: Bytes, rest: Bytes)
    requires StartsWithPacket(s)
    ensures s == first + rest && |first| > 2 && |first| == 2 + FromBe16(first[..2]) && |rest| < |s|
  {
    var end := 2 + FromBe16(s[..2]);
    first, rest := s[..end], s[end..];
    assert first[..2] == s[..2];
  }

  /** Without its unfinished end a stretch of the stream gives the same packets. */
  lemma {:induction false} DeframedWithoutTail(s: Bytes)
    ensures |Deframed(s).tail| <= |s|
    ensures Deframed(s[..|s| - |Deframed(s).tail|]) == Parsed(Deframed(s).packets, [])
    decreases |s|
  {
    hide Deframed, StartsWithPacket, FromBe16;
    if StartsWithPacket(s) {
      var first, rest := FirstAndRest(s);
      DeframedWithoutTail(rest);
      DeframedHead(first, rest);
      DeframedHead(first, rest[..|rest| - |Deframed(rest).tail|]);
      CutBack(first, rest, |Deframed(rest).tail|);
    } else {
      DeframedNone(s);
    }
  }

  lemma {:induction false} TailIsSuffix(s: Bytes)
    ensures |Deframed(s).tail| <= |s| && s[|s| - |Deframed(s).tail|..] == Deframed(s).tail
    decreases |s|
  {
    if StartsWithPacket(s) {
      var end := 2 + FromBe16(s[..2]);
      TailIsSuffix(s[end..]);
    }
  }

  /** A zero length is where parsing ends for good. */
  lemma {:induction false} ZeroLengthIsFinal(s: Bytes, more: Bytes)
    requires Deframed(s).tail == [0, 0]
    ensures Deframed(s + more) == Parsed(Deframed(s).packets, [0, 0] + more)
  {
    DeframedAppend(s, more);
    assert ([0, 0] + more)[..2] == [0, 0];
    assert Deframed(s).packets + [] == Deframed(s).packets;
  }

  /** How many bytes of the stream a parse accounts for. */
  function Weight(packets: seq<Bytes>): nat {
    if packets == [] then 0 else 2 + |packets[0]| + Weight(packets[1..])
  }

  lemma {:induction false} NoByteUnaccounted(s: Bytes)
    ensures Weight(Deframed(s).packets) + |Deframed(s).tail| == |s|
    decreases |s|
  {
    if StartsWithPacket(s) {
      var end := 2 + FromBe16(s[..2]);
      NoByteUnaccounted(s[end..]);
      assert Deframed(s).packets[1..] == Deframed(s[end..]).packets;
    }
  }

  lemma TakeMore(stream: Bytes, taken: nat, n: nat)
    requires taken + n <= |stream|
    ensures stream[..taken] + stream[taken..taken + n] == stream[..taken + n]
  {
  }

  /** The stream without the two bytes at each of the places `cuts`. */
  ghost function WithoutPrefixes(s: Bytes, cuts: seq<nat>): Bytes
    decreases |cuts|
  {
    if cuts == [] then s
    else
      var last := cuts[|cuts|-1];
      if last + 2 > |s| then s else WithoutPrefixes(s[..last], cuts[..|cuts|-1]) + s[last+2..]
  }

  /** Each cut takes out the announcement of a packet, where the bytes before it gave whole packets. */
  ghost predicate LostPrefixes(s: Bytes, cuts: seq<nat>)
    decreases |cuts|
  {
    cuts != [] ==>
      var last, before := cuts[|cuts|-1], cuts[..|cuts|-1];
      && last + 2 <= |s| && FromBe16(s[last..last+2]) > 0
      && Deframed(WithoutPrefixes(s[..last], before)).tail == []
      && LostPrefixes(s[..last], before)
  }

  lemma SplitLater(s: Bytes, more: Bytes, n: nat)
    requires n <= |s|
    ensures (s + more)[..n] == s[..n] && (s + more)[n..] == s[n..] + more
  {
  }

  lemma {:induction false} CutsFarBack(s: Bytes, cuts: seq<nat>, more: Bytes)
    requires LostPrefixes(s, cuts)
    ensures LostPrefixes(s + more, cuts)
    ensures WithoutPrefixes(s + more, cuts) == WithoutPrefixes(s, cuts) + more
  {
    if cuts != [] {
      var last := cuts[|cuts|-1];
      hide Deframed, FromBe16;
      SplitLater(s, more, last);
      SplitLater(s, more, last + 2);
      assert (s + more)[last..last+2] == s[last..last+2];
      SeqAssociates(WithoutPrefixes(s[..last], cuts[..|cuts|-1]), s[last+2..], more);
    }
  }

  lemma {:induction false} CutLengths(s: Bytes, cuts: seq<nat>)
    requires LostPrefixes(s, cuts)
    ensures |WithoutPrefixes(s, cuts)| + 2 * |cuts| == |s|
    decreases |cuts|
  {
    if cuts != [] {
      CutLengths(s[..cuts[|cuts|-1]], cuts[..|cuts|-1]);
    }
  }

  /** One more prefix, the last two bytes of the stream, is lost. */
  lemma {:induction false} CutAtEnd(s: Bytes, cuts: seq<nat>, prefix: Bytes)
    requires LostPrefixes(s, cuts) && |prefix| == 2 && FromBe16(prefix) > 0
    requires Deframed(WithoutPrefixes(s, cuts)).tail == []
    ensures LostPrefixes(s + prefix, cuts + [|s|])
    ensures WithoutPrefixes(s + prefix, cuts + [|s|]) == WithoutPrefixes(s, cuts)
  {
    hide Deframed;
    var longer, more := s + prefix, cuts + [|s|];
    assert more[..|cuts|] == cuts && longer[..|s|] == s && longer[|s|..|s|+2] == prefix && longer[|s|+2..] == [];
  }

  /** Where the last cut ends. */
  ghost function AfterCuts(cuts: seq<nat>): nat {
    if cuts == [] then 0 else cuts[|cuts|-1] + 2
  }

  lemma {:induction false} CutsStay(s: Bytes, cuts: seq<nat>, n: nat)
    requires LostPrefixes(s, cuts) && AfterCuts(cuts) <= n <= |s|
    ensures LostPrefixes(s[..n], cuts)
  {
    if cuts != [] {
      hide Deframed, WithoutPrefixes, FromBe16;
      var last := cuts[|cuts|-1];
      assert s[..n][..last] == s[..last] && s[..n][last..last+2] == s[last..last+2];
    }
  }

  /** The last bytes of the stream, when they lie behind every cut, are the last bytes of what is left. */
  lemma {:induction false} TailIsUncut(s: Bytes, cuts: seq<nat>, n: nat)
    requires LostPrefixes(s, cuts) && AfterCuts(cuts) <= n <= |s|
    ensures LostPrefixes(s[..n], cuts)
    ensures WithoutPrefixes(s, cuts) == WithoutPrefixes(s[..n], cuts) + s[n..]
  {
    hide LostPrefixes, WithoutPrefixes;
    CutsStay(s, cuts, n);
    CutsFarBack(s[..n], cuts, s[n..]);
    assert s[..n] + s[n..] == s;
  }

  /** A prefix that announces a packet. */
  predicate Announces(prefix: Bytes) {
    |prefix| == 2 && FromBe16(prefix) > 0
  }

  /** The reading state of a peer. `delivered` is what went to `ovpn_recv`, `consumed` what came from the socket,
      `cuts` where in it the prefixes begin of packets for which there was no memory. */
  class TcpReceiver {
    const rawLen: array<byte>
    var skb: array?<byte>
    var offset: nat
    var dataLen: nat
    var delivered: seq<Bytes>
    ghost var consumed: Bytes
    ghost var cuts: seq<nat>

    /** The unfinished packet as the fields encode it: its prefix so far, then its data so far. */
    ghost function Unfinished(): Bytes
      reads this, rawLen, skb
      requires rawLen.Length == 2
      requires if skb == null then offset <= 2 else offset <= skb.Length
    {
      if skb == null then rawLen[..offset] else rawLen[..] + skb[..offset]
    }

    /** What the receiver remembers having read. */
    ghost function Kept(): Bytes
      reads `consumed, `cuts
    {
      WithoutPrefixes(consumed, cuts)
    }

    ghost predicate Shaped()
      reads this, rawLen, skb
    {
      && rawLen.Length == 2
      && (if skb == null then offset <= 2 && (offset == 2 ==> FromBe16(rawLen[..]) == 0)
          else && skb != rawLen && dataLen == skb.Length == FromBe16(rawLen[..]) && offset < dataLen)
    }

    ghost predicate Valid()
      reads this, rawLen, skb
    {
      && Shaped()
      && Deframed(Kept()) == Parsed(delivered, Unfinished())
      && LostPrefixes(consumed, cuts)
      && AfterCuts(cuts) + |Unfinished()| <= |consumed|
    }

    constructor ()
      ensures Valid() && fresh(rawLen) && skb == null && consumed == [] && cuts == []
    {
      rawLen := new byte[2](_ => 0);
      skb, offset, dataLen, delivered, consumed, cuts := null, 0, 0, [], [], [];
    }

    /** `iov_len` of the next read. */
    function Wanted(): nat
      requires Valid()
      reads this, rawLen, skb
    {
      if skb == null then 2 - offset else dataLen - offset
    }

    /** The packets passed on are the parse of the bytes consumed exactly while memory lasted. */
    lemma ParseOfConsumed()
      requires Valid()
      ensures Deframed(consumed) == Parsed(delivered, Unfinished()) <==> cuts == []
    {
      NoByteUnaccounted(consumed);
      NoByteUnaccounted(Kept());
      CutLengths(consumed, cuts);
    }

    /** Bytes arrived: what is kept grows by them and so does the unfinished packet. */
    lemma {:induction false} KeptGrows(chunk: Bytes)
      requires Valid()
      ensures LostPrefixes(consumed + chunk, cuts)
      ensures WithoutPrefixes(consumed + chunk, cuts) == Kept() + chunk
      ensures Deframed(Kept() + chunk) == Joined(Parsed(delivered, []), Deframed(Unfinished() + chunk))
    {
      hide Deframed;
      CutsFarBack(consumed, cuts, chunk);
      DeframedAppend(Kept(), chunk);
    }

    /** The whole prefix has been read: makes room for the packet it announces. */
    method PrepareSkb(memory: bool) returns (ret: int)
      requires rawLen.Length == 2 && skb == null && offset == 2
      requires Deframed(Kept()) == Parsed(delivered, rawLen[..]) && LostPrefixes(consumed, cuts)
      requires AfterCuts(cuts) + 2 <= |consumed|
      modifies this`skb, this`offset, this`dataLen, this`cuts
      ensures Valid()
      ensures skb != null ==> fresh(skb)
      ensures ret < 0 <==> FromBe16(rawLen[..]) == 0
      ensures ret < 0 ==> skb == null && offset == 2
      ensures cuts == old(cuts) + if !memory && FromBe16(rawLen[..]) > 0 then [|consumed| - 2] else []
    {
      hide Deframed, StartsWithPacket, FromBe16, LostPrefixes, WithoutPrefixes;
      assert rawLen[..2] == rawLen[..];
      var len := FromBe16(rawLen[..]);
      if len == 0 {
        return -22;
      }
      if memory {
        skb := new byte[len];
        assert rawLen[..] + skb[..0] == rawLen[..];
      } else {
        LosePrefix();
        cuts := cuts + [|consumed| - 2];
      }
      offset := 0;
      dataLen := len;
      return 0;
    }

    lemma LosePrefix()
      requires rawLen.Length == 2 && Deframed(Kept()) == Parsed(delivered, rawLen[..]) && LostPrefixes(consumed, cuts)
      requires AfterCuts(cuts) + 2 <= |consumed| && FromBe16(rawLen[..]) > 0
      ensures LostPrefixes(consumed, cuts + [|consumed| - 2])
      ensures Deframed(WithoutPrefixes(consumed, cuts + [|consumed| - 2])) == Parsed(delivered, [])
    {
      hide Deframed, LostPrefixes, WithoutPrefixes, FromBe16;
      var n := |consumed| - 2;
      var before, prefix := consumed[..n], consumed[n..];
      TailIsUncut(consumed, cuts, n);
      var kept := WithoutPrefixes(before, cuts);
      DeframedWithoutTail(kept + prefix);
      TailIsSuffix(kept + prefix);
      assert (kept + prefix)[..|kept|] == kept && (kept + prefix)[|kept|..] == prefix;
      assert before + prefix == consumed;
      CutAtEnd(before, cuts, prefix);
    }

    /** Reads (or finishes reading) the length prefix. */
    method ReadPrefix(chunk: Bytes, memory: bool) returns (ret: int)
      requires Valid() && skb == null && 0 < |chunk| <= Wanted()
      modifies this`skb, this`offset, this`dataLen, this`consumed, this`cuts, rawLen
      ensures Valid()
      ensures consumed == old(consumed) + chunk
      ensures skb != null ==> fresh(skb)
      ensures ret < 0 <==> old(offset) + |chunk| == 2 && FromBe16(rawLen[..]) == 0
      ensures ret < 0 ==> skb == null && offset == 2
      ensures ret >= 0 ==> ret == |chunk|
      ensures cuts == old(cuts) + if !memory && Announces(old(Unfinished()) + chunk) then [|consumed| - 2] else []
    {
      hide Deframed, StartsWithPacket, FromBe16, LostPrefixes, WithoutPrefixes;
      ghost var tail := Unfinished();
      KeptGrows(chunk);
      PrefixGrows(tail + chunk);
      CopyAt(rawLen, offset, chunk);
      offset := offset + |chunk|;
      consumed := consumed + chunk;
      assert rawLen[..offset] == tail + chunk;
      assert delivered + [] == delivered;
      ret := |chunk|;
      if offset == 2 {
        assert rawLen[..2] == rawLen[..];
        var status := PrepareSkb(memory);
        if status < 0 {
          return status;
        }
      }
    }

    /** Reads packet data; a full packet goes up and the state starts over. */
    method ReadData(chunk: Bytes) returns (ret: int)
      requires Valid() && skb != null && 0 < |chunk| <= Wanted()
      modifies this`skb, this`offset, this`dataLen, this`consumed, this`delivered, skb
      ensures Valid()
      ensures consumed == old(consumed) + chunk && ret == |chunk|
      ensures skb == old(skb) || skb == null
    {
      hide Deframed, StartsWithPacket, FromBe16, LostPrefixes, WithoutPrefixes;
      ghost var tail := Unfinished();
      KeptGrows(chunk);
      CopyAt(skb, offset, chunk);
      offset := offset + |chunk|;
      consumed := consumed + chunk;
      assert rawLen[..] + skb[..offset] == tail + chunk;
      if offset == dataLen {
        assert skb[..offset] == skb[..];
        TailCompletes(rawLen[..], skb[..]);
        delivered := delivered + [skb[..]];
        skb, offset, dataLen := null, 0, 0;
      } else {
        DataGrows(rawLen[..], skb[..offset]);
        assert delivered + [] == delivered;
      }
      ret := |chunk|;
    }

    /** One read: the socket hands over `chunk`, no more than was asked for. */
    method RxOne(chunk: Bytes, memory: bool) returns (ret: int)
      requires Valid() && |chunk| <= Wanted()
      modifies this`skb, this`offset, this`dataLen, this`consumed, this`cuts, this`delivered, rawLen, skb
      ensures Valid()
      ensures consumed == old(consumed) + chunk
      ensures skb == old(skb) || skb == null || fresh(skb)
      ensures cuts == old(cuts) +
        if !memory && old(skb) == null && chunk != [] && Announces(old(Unfinished()) + chunk)
        then [|consumed| - 2] else []
      ensures chunk == [] ==> ret == 0 && Wanted() == old(Wanted()) && delivered == old(delivered)
      ensures ret < 0 ==> Wanted() == 0
      ensures chunk != [] && ret >= 0 ==> ret == |chunk|
    {
      hide Deframed;
      if chunk == [] {
        assert consumed + chunk == consumed;
        return 0;
      }
      if skb == null {
        ret := ReadPrefix(chunk, memory);
      } else {
        ret := ReadData(chunk);
      }
    }

    /** Reads until the socket runs dry or a packet of length zero comes. The socket holds `stream` and gives at
        most `budget[k]` bytes, possibly fewer than asked for, on read number `k`; `memory(k)` says whether a
        buffer can be allocated then. */
    method RxWork(stream: Bytes, budget: seq<nat>, memory: nat -> bool) returns (taken: nat)
      requires Valid()
      modifies this`skb, this`offset, this`dataLen, this`consumed, this`cuts, this`delivered, rawLen, skb
      ensures Valid() && taken <= |stream|
      ensures consumed == old(consumed) + stream[..taken]
      ensures (forall k: nat :: memory(k)) ==> cuts == old(cuts)
      ensures 0 !in budget ==> taken == |stream| || Wanted() == 0 || taken >= |budget|
      ensures old(Wanted()) == 0 ==> taken == 0 && Wanted() == 0 && delivered == old(delivered)
    {
      hide Valid, Deframed;
      taken := 0;
      assert consumed + stream[..0] == consumed;
      ghost var stuck := Wanted() == 0;
      var k := 0;
      while k < |budget|
        modifies this`skb, this`offset, this`dataLen, this`consumed, this`cuts, this`delivered, rawLen, skb
        invariant Valid() && taken <= |stream|
        invariant skb == old(skb) || skb == null || fresh(skb)
        invariant consumed == old(consumed) + stream[..taken]
        invariant (forall i: nat :: memory(i)) ==> cuts == old(cuts)
        invariant 0 <= k <= |budget| && (0 !in budget ==> k <= taken)
        invariant stuck ==> taken == 0 && Wanted() == 0 && delivered == old(delivered)
        decreases |budget| - k
      {
        var n := if budget[k] < Wanted() then budget[k] else Wanted();
        n := if n < |stream| - taken then n else |stream| - taken;
        var ret := RxOne(stream[taken..taken + n], memory(k));
        TakeMore(stream, taken, n);
        assert consumed == old(consumed) + (stream[..taken] + stream[taken..taken + n]);
        taken := taken + n;
        if ret <= 0 {
          break;
        }
        k := k + 1;
      }
    }
  }
}
