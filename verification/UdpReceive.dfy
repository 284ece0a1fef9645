/** Which peer a UDP packet belongs to, and who owns the reference taken to it. */
module UdpReceive {
  import opened Words
  import opened Proto
  import opened PeerTable

  /** `Handled(h)`: the packet and one reference to `h` were passed to `ovpn_recv`. */
  datatype Disposition = Dropped | ToUserspace | Handled(h: Handle)

  predicate NamesPeer(data: seq<byte>) {
    |data| >= 4 && OpcodeFromSkb(data) == OVPN_DATA_V2 && PeerIdFromSkb(data) != OVPN_PEER_ID_UNDEF
  }

  /** The peer a packet may be attributed to: by the ID it names, or else by the address it came from. */
  ghost predicate Attributed(m: Model, addrHash: Addr -> nat, size: nat, data: seq<byte>, src: Addr, h: Handle) {
    if NamesPeer(data) then PeerIdFromSkb(data) in m.table && m.table[PeerIdFromSkb(data)] == h
    else |data| >= 4 && LinkedFor(m, addrHash, size, src, h)
  }

  /** Only a packet that names a known peer moves a binding, and only that peer's. */
  ghost function AfterFloat(m: Model, data: seq<byte>, src: Addr, acceptable: bool): Model {
    if NamesPeer(data) && PeerIdFromSkb(data) in m.table
    then Floated(m, m.table[PeerIdFromSkb(data)], src, acceptable)
    else m
  }

  lemma HoldAndFloat(m: Model, h: Handle, src: Addr, acceptable: bool)
    requires h in m.refs
    ensures Held(m, h).id == m.id && h in Floated(m, h, src, acceptable).refs
    ensures Floated(Held(m, h), h, src, acceptable) == Held(Floated(m, h, src, acceptable), h)
  {
    if h in m.bind && m.bind[h] != src && acceptable {
      var refs, holds := m.refs[h := m.refs[h] + 1], m.holds[h := m.holds[h] + 1];
      var both := m.(refs := refs, holds := holds, bind := m.bind[h := src], floated := m.floated + {h});
      assert Floated(Held(m, h), h, src, acceptable) == both;
      assert Held(Floated(m, h, src, acceptable), h) == both;
    }
  }

  /** Takes a reference to the peer with this ID and notes where it sends from now. */
  method FindNamed(reg: Registry, peerId: u32, src: Addr, acceptable: bool) returns (found: Option<Handle>)
    requires reg.Valid()
    modifies reg
    ensures reg.Valid()
    ensures found == if peerId in old(reg.m).table then Some(old(reg.m).table[peerId]) else None
    ensures found.Some? ==> found.value in old(reg.m).refs
    ensures found.Some? ==> reg.m == Held(Floated(old(reg.m), found.value, src, acceptable), found.value)
    ensures found.None? ==> reg.m == old(reg.m)
  {
    hide Sound, Homed, Held, Floated;
    found := reg.LookupId(peerId);
    if found.Some? {
      KnownPeer(old(reg.m), reg.idHash, reg.size, found.value);
      HoldAndFloat(old(reg.m), found.value, src, acceptable);
      reg.Float(found.value, src, acceptable);
    }
  }

  /** Finds the peer a packet belongs to and takes a reference to it. */
  method FindPeer(reg: Registry, data: seq<byte>, src: Addr, acceptable: bool) returns (found: Option<Handle>)
    requires reg.Valid() && |data| >= 4
    modifies reg
    ensures reg.Valid()
    ensures found.Some? <==> exists h :: Attributed(old(reg.m), reg.addrHash, reg.size, data, src, h)
    ensures found.Some? ==> Attributed(old(reg.m), reg.addrHash, reg.size, data, src, found.value)
    ensures found.Some? ==>
      found.value in old(reg.m).refs && reg.m == Held(AfterFloat(old(reg.m), data, src, acceptable), found.value)
    ensures found.None? ==> reg.m == old(reg.m) == AfterFloat(old(reg.m), data, src, acceptable)
  {
    hide Sound, Homed, LinkedFor, Held, Floated;
    ghost var m := reg.m;
    if OpcodeFromSkb(data) == OVPN_DATA_V2 && PeerIdFromSkb(data) != OVPN_PEER_ID_UNDEF {
      hide OpcodeFromSkb, PeerIdFromSkb;
      found := FindNamed(reg, PeerIdFromSkb(data), src, acceptable);
    } else {
      hide OpcodeFromSkb, PeerIdFromSkb;
      found := reg.LookupTranspAddr(src);
    }
    assert found.Some? ==> Attributed(m, reg.addrHash, reg.size, data, src, found.value);
  }

  /** The first byte says data, and the next three are not all ones. */
  predicate ByPeerId(data: seq<byte>) {
    |data| >= 4 && data[0] / 8 == 9 && !(data[1] == data[2] == data[3] == 0xFF)
  }

  predicate ByAddress(data: seq<byte>) {
    |data| >= 4 && (data[0] / 8 != 9 || data[1] == data[2] == data[3] == 0xFF)
  }

  function PeerIdBytes(data: seq<byte>): u32
    requires |data| >= 4
  {
    data[1] as int * 0x1_0000 + data[2] as int * 0x100 + data[3]
  }

  /** Who gets the packet, as its first four bytes decide. */
  ghost predicate ByHeader(m: Model, addrHash: Addr -> nat, size: nat, data: seq<byte>, src: Addr, queued: bool,
                           d: Disposition)
  {
    && (d.Handled? ==> ByPeerId(data) || ByAddress(data))
    && (ByPeerId(data) ==>
      && (d.Handled? <==> queued && PeerIdBytes(data) in m.table)
      && (d.Handled? ==> d.h == m.table[PeerIdBytes(data)]))
    && (ByAddress(data) ==>
      && (d.Handled? <==> queued && exists h :: LinkedFor(m, addrHash, size, src, h))
      && (d.Handled? ==> LinkedFor(m, addrHash, size, src, d.h)))
  }

  /** Passes the packet and the reference on, or drops both, or leaves the packet to user space. */
  method Dispose(reg: Registry, data: seq<byte>, src: Addr, acceptable: bool, queued: bool) returns (d: Disposition)
    requires reg.Valid()
    modifies reg
    ensures reg.Valid()
    ensures d.Handled? <==> queued && exists h :: Attributed(old(reg.m), reg.addrHash, reg.size, data, src, h)
    ensures d.Handled? ==> Attributed(old(reg.m), reg.addrHash, reg.size, data, src, d.h)
    ensures d.ToUserspace? <==>
      (&& |data| >= 4 && OpcodeFromSkb(data) != OVPN_DATA_V2
       && !exists h :: Attributed(old(reg.m), reg.addrHash, reg.size, data, src, h))
    ensures d.Handled? ==> reg.m.holds == old(reg.m).holds[d.h := old(reg.m).holds[d.h] + 1]
    ensures !d.Handled? ==> reg.m.holds == old(reg.m).holds && reg.m.refs == old(reg.m).refs
    ensures reg.m == AfterFloat(old(reg.m), data, src, acceptable).(refs := reg.m.refs, holds := reg.m.holds)
  {
    hide Sound, Homed, Attributed, Untouched;
    if |data| < 4 {
      TooShort(reg.m, reg.addrHash, reg.size, data, src);
      return Dropped;
    }
    var found := FindPeer(reg, data, src, acceptable);
    if found.None? {
      return if OpcodeFromSkb(data) != OVPN_DATA_V2 then ToUserspace else Dropped;
    }
    if !queued {
      HoldThenPut(AfterFloat(old(reg.m), data, src, acceptable), found.value);
      reg.Put(found.value);
      return Dropped;
    }
    return Handled(found.value);
  }

  /** `ovpn_udp_encap_recv` on the bytes after the UDP header. `acceptable` tells whether a binding to `src` can
      be made, `queued` whether `ovpn_recv` takes the packet and the reference. */
  method EncapRecv(reg: Registry, data: seq<byte>, src: Addr, acceptable: bool, queued: bool) returns (d: Disposition)
    requires reg.Valid()
    modifies reg
    ensures reg.Valid()
    // who it is
    ensures d.Handled? <==> queued && exists h :: Attributed(old(reg.m), reg.addrHash, reg.size, data, src, h)
    ensures d.Handled? ==> Attributed(old(reg.m), reg.addrHash, reg.size, data, src, d.h)
    ensures d.ToUserspace? <==>
      (&& |data| >= 4 && OpcodeFromSkb(data) != OVPN_DATA_V2
       && !exists h :: Attributed(old(reg.m), reg.addrHash, reg.size, data, src, h))
    // in terms of the header: a data packet goes by the three bytes of its peer ID, unless those say undefined
    ensures ByHeader(old(reg.m), reg.addrHash, reg.size, data, src, queued, d)
    ensures ByAddress(data) ==> reg.m.bind == old(reg.m).bind
    // references: one is handed over, or none is kept
    ensures d.Handled? ==> reg.m.holds == old(reg.m).holds[d.h := old(reg.m).holds[d.h] + 1]
    ensures !d.Handled? ==> reg.m.holds == old(reg.m).holds && reg.m.refs == old(reg.m).refs
    // nothing but counts and the address of the peer named changes
    ensures reg.m == AfterFloat(old(reg.m), data, src, acceptable).(refs := reg.m.refs, holds := reg.m.holds)
  {
    if ByAddress(data) {
      AddressMovesNothing(reg.m, reg.addrHash, reg.size, data, src, acceptable);
    }
    hide Attributed, LinkedFor, AfterFloat, OpcodeFromSkb, Registry.Valid, ByHeader, ByAddress;
    d := Dispose(reg, data, src, acceptable, queued);
    HeaderDecides(old(reg.m), reg.addrHash, reg.size, data, src, queued, d);
  }

  lemma HeaderDecides(m: Model, addrHash: Addr -> nat, size: nat, data: seq<byte>, src: Addr, queued: bool,
                      d: Disposition)
    requires d.Handled? <==> queued && exists h :: Attributed(m, addrHash, size, data, src, h)
    requires d.Handled? ==> Attributed(m, addrHash, size, data, src, d.h)
    ensures ByHeader(m, addrHash, size, data, src, queued, d)
  {
    if |data| < 4 {
      TooShort(m, addrHash, size, data, src);
    }
    AttributedByHeader(m, addrHash, size, data, src, true);
    hide Attributed, LinkedFor, AfterFloat;
    if ByPeerId(data) && PeerIdBytes(data) in m.table {
      assert Attributed(m, addrHash, size, data, src, m.table[PeerIdBytes(data)]);
    }
  }

  /** Whom a packet is attributed to, byte by byte; one that does not go by its peer ID moves no binding. */
  lemma AttributedByHeader(m: Model, addrHash: Addr -> nat, size: nat, data: seq<byte>, src: Addr, acceptable: bool)
    ensures ByPeerId(data) ==> forall h ::
      Attributed(m, addrHash, size, data, src, h) <==> PeerIdBytes(data) in m.table && m.table[PeerIdBytes(data)] == h
    ensures ByAddress(data) ==> forall h ::
      Attributed(m, addrHash, size, data, src, h) <==> LinkedFor(m, addrHash, size, src, h)
    ensures ByAddress(data) ==> AfterFloat(m, data, src, acceptable) == m
  {
    if |data| >= 4 {
      HeaderFromBytes(data);
      hide LinkedFor, PeerIdFromSkb;
    }
  }

  lemma AddressMovesNothing(m: Model, addrHash: Addr -> nat, size: nat, data: seq<byte>, src: Addr, acceptable: bool)
    requires ByAddress(data)
    ensures AfterFloat(m, data, src, acceptable) == m
  {
    AttributedByHeader(m, addrHash, size, data, src, acceptable);
  }

  /** A data packet whose peer ID is undefined is treated, as to peer and binding, like any packet that is not data. */
  lemma UndefinedGoesByAddress(m: Model, addrHash: Addr -> nat, size: nat, data: seq<byte>, other: seq<byte>, src: Addr,
                               acceptable: bool)
    requires |data| >= 4 && data[0] / 8 == 9 && data[1] == data[2] == data[3] == 0xFF
    requires |other| >= 4 && other[0] / 8 != 9
    ensures forall h :: Attributed(m, addrHash, size, data, src, h) <==> Attributed(m, addrHash, size, other, src, h)
    ensures AfterFloat(m, data, src, acceptable) == AfterFloat(m, other, src, acceptable) == m
  {
    hide Attributed, AfterFloat;
    AttributedByHeader(m, addrHash, size, data, src, acceptable);
    AttributedByHeader(m, addrHash, size, other, src, acceptable);
  }

  lemma TooShort(m: Model, addrHash: Addr -> nat, size: nat, data: seq<byte>, src: Addr)
    requires |data| < 4
    ensures forall h :: !Attributed(m, addrHash, size, data, src, h)
  {
  }

  lemma KnownPeer(m: Model, hash: u32 -> nat, size: nat, h: Handle)
    requires Sound(m, hash, size) && h in m.refs
    ensures h in m.id
  {
  }
}
