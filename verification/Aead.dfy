/** Packet IDs as nonces, and the packets they seal: one key slot of the data channel. */
module Aead {
  import opened Words
  import opened Proto
  import opened ReplaySpec
  import ReplayWindow

  const AUTH_TAG_SIZE: nat := 16
  const NONCE_WIRE_SIZE: nat := 4
  const NONCE_TAIL_SIZE: nat := 8
  /** Header, packet ID and tag: what encapsulation adds. */
  const OVERHEAD: nat := OVPN_OP_SIZE_V2 + NONCE_WIRE_SIZE + AUTH_TAG_SIZE
  const PKTID_LIMIT: int := 0x1_0000_0000

  datatype Errno = EINVAL | ETIME | ERANGE | ENOBUFS | ENOSPC | ENOMEM | ENODATA | EBADMSG

  datatype Result<+T> = Ok(value: T) | Err(error: Errno)

  /** A keyed cipher: IV, associated data and plaintext to ciphertext followed by its tag. */
  type Seal = f: (Bytes, Bytes, Bytes) -> Bytes | forall iv, ad, p :: |f(iv, ad, p)| == |p| + 16
    witness (iv: Bytes, ad: Bytes, p: Bytes) => p + seq(16, _ => 0)

  type Open = (Bytes, Bytes, Bytes) -> Option<Bytes>

  /** Both ends hold the same key: what one seals the other opens. */
  ghost predicate SameKey(seal: Seal, open: Open) {
    forall iv, ad, p :: open(iv, ad, seal(iv, ad, p)) == Some(p)
  }

  /** The 12-byte IV. */
  function Iv(pktid: u32, tail: Bytes): Bytes {
    Be32(pktid) + tail
  }

  lemma IvIsInjective(a: u32, b: u32, tail: Bytes)
    requires a != b
    ensures Iv(a, tail) != Iv(b, tail)
  {
    assert Iv(a, tail)[..4] == Be32(a) && Iv(b, tail)[..4] == Be32(b);
  }

  /** Packet ID in network order, then the tail. */
  lemma IvLayout(pktid: u32, tail: Bytes)
    requires |tail| == NONCE_TAIL_SIZE
    ensures |Iv(pktid, tail)| == 12 && Iv(pktid, tail)[4..] == tail
    ensures var iv := Iv(pktid, tail);
      iv[0] as int * 0x100_0000 + iv[1] as int * 0x1_0000 + iv[2] as int * 0x100 + iv[3] == pktid
  {
    hide Be32;
    Be32Bytes(pktid);
  }

  /** Header and packet ID, both sent in clear and authenticated. */
  function AssociatedData(keyId: byte, peerId: u32, pktid: u32): (ad: Bytes)
    ensures |ad| == 8
  {
    Be32(OpcodeCompose(OVPN_DATA_V2, keyId, peerId)) + Be32(pktid)
  }

  /** What the tag protects: packet ID and opcode header, as far as their fields go. */
  lemma AssociatedDataTells(keyId: byte, peerId: u32, pktid: u32, keyId': byte, peerId': u32, pktid': u32)
    ensures AssociatedData(keyId, peerId, pktid) == AssociatedData(keyId', peerId', pktid')
       <==> pktid == pktid' && keyId % 8 == keyId' % 8 && peerId % 0x100_0000 == peerId' % 0x100_0000
  {
    hide Be32;
    var ad, ad' := AssociatedData(keyId, peerId, pktid), AssociatedData(keyId', peerId', pktid');
    var op, op' := OpcodeCompose(OVPN_DATA_V2, keyId, peerId), OpcodeCompose(OVPN_DATA_V2, keyId', peerId');
    assert ad[..4] == Be32(op) && ad[4..] == Be32(pktid) && ad'[..4] == Be32(op') && ad'[4..] == Be32(pktid');
    assert FromBe32(Be32(op)) == op && FromBe32(Be32(op')) == op';
    assert FromBe32(Be32(pktid)) == pktid && FromBe32(Be32(pktid')) == pktid';
  }

  /** The packet on the wire: associated data, tag, ciphertext. */
  function Encapsulated(seal: Seal, tail: Bytes, keyId: byte, peerId: u32, pktid: u32, payload: Bytes): Bytes {
    var ad := AssociatedData(keyId, peerId, pktid);
    var sealed := seal(Iv(pktid, tail), ad, payload);
    ad + sealed[|payload|..] + sealed[..|payload|]
  }

  /** The packet on the wire, place by place: what the cipher is given as associated data and as the head of its IV
      comes first, then the tag, which the cipher puts last, then the ciphertext. */
  lemma WireLayout(seal: Seal, tail: Bytes, keyId: byte, peerId: u32, pktid: u32, payload: Bytes)
    ensures var wire := Encapsulated(seal, tail, keyId, peerId, pktid, payload);
      && |wire| == 24 + |payload|
      && wire[..4] == Be32(OpcodeCompose(OVPN_DATA_V2, keyId, peerId)) && wire[4..8] == Be32(pktid)
      && var sealed := seal(Be32(pktid) + tail, wire[..8], payload);
         wire[8..24] == sealed[|payload|..] && wire[24..] == sealed[..|payload|]
  {
    hide Be32;
    var wire := Encapsulated(seal, tail, keyId, peerId, pktid, payload);
    assert wire[..8] == AssociatedData(keyId, peerId, pktid);
    assert wire[..4] == wire[..8][..4] && wire[4..8] == wire[..8][4..];
  }

  function PktidOf(skb: Bytes): u32
    requires |skb| >= OVERHEAD
  {
    FromBe32(skb[4..8])
  }

  /** What the cipher makes of a received packet; a short one is refused before it gets there. */
  function Opened(open: Open, tail: Bytes, skb: Bytes): Option<Bytes> {
    if |skb| < OVERHEAD then None
    else open(Iv(PktidOf(skb), tail), skb[..8], skb[24..] + skb[8..24])
  }

  function ErrnoOf(v: Verdict): Errno {
    if v == TimeWentBack then ETIME else EINVAL
  }

  /** The outcome of decrypting `skb`: authentic first, then fresh. */
  function Decapsulated(s: Receiver, open: Open, tail: Bytes, skb: Bytes, now: ulong): Result<Bytes> {
    if |skb| < OVERHEAD then Err(EINVAL)
    else match Opened(open, tail, skb)
      case None => Err(EBADMSG)
      case Some(payload) =>
        var v := Judge(s, PktidOf(skb), 0, now);
        if v == Accepted then Ok(payload) else Err(ErrnoOf(v))
  }

  function AfterDecrypt(s: Receiver, open: Open, tail: Bytes, skb: Bytes, now: ulong, timeout: nat): Receiver {
    if Opened(open, tail, skb).None? then s
    else Receive(s, if |skb| < OVERHEAD then 0 else PktidOf(skb), 0, now, timeout)
  }

  /** Decrypting what was encrypted gives the payload back, for every payload. */
  lemma EncapsulationRoundTrip(seal: Seal, open: Open, tail: Bytes, keyId: byte, peerId: u32, pktid: u32, payload: Bytes)
    requires SameKey(seal, open)
    ensures var wire := Encapsulated(seal, tail, keyId, peerId, pktid, payload);
      && |wire| == |payload| + OVERHEAD
      && PktidOf(wire) == pktid
      && Opened(open, tail, wire) == Some(payload)
      && OpcodeFromSkb(wire) == OVPN_DATA_V2
      && (KeyIdFromSkb(wire) == keyId && PeerIdFromSkb(wire) == peerId <==> keyId < 8 && peerId < 0x100_0000)
  {
    var wire := Encapsulated(seal, tail, keyId, peerId, pktid, payload);
    var ad, iv := AssociatedData(keyId, peerId, pktid), Iv(pktid, tail);
    var sealed := seal(iv, ad, payload);
    assert wire[..8] == ad;
    assert wire[4..8] == ad[4..8] == Be32(pktid);
    assert wire[8..24] == sealed[|payload|..];
    assert wire[24..] + wire[8..24] == sealed;
    var header := Be32(OpcodeCompose(OVPN_DATA_V2, keyId, peerId));
    assert wire[..4] == header == header[..4];
    HeaderReadsBack(OVPN_DATA_V2, keyId, peerId);
    assert wire[0] == header[0];
  }

  /** Where an encryption can fail: while preparing the request, or in the cipher itself. */
  datatype Fault = NoFault | BeforeCipher(error: Errno) | InCipher(error: Errno)

  datatype Call = Call(payload: Bytes, peerId: u32, fault: Fault)

  /** An ID is drawn unless the request could not be prepared or all IDs are gone. */
  predicate DrawsId(seqNum: int, call: Call) {
    !call.fault.BeforeCipher? && seqNum != PKTID_LIMIT
  }

  function EncryptResult(seqNum: int, seal: Seal, tail: Bytes, keyId: byte, call: Call): Result<Bytes>
    requires 1 <= seqNum <= PKTID_LIMIT
  {
    match call.fault
    case BeforeCipher(e) => Err(e)
    case _ =>
      if seqNum == PKTID_LIMIT then Err(ERANGE)
      else if call.fault.InCipher? then Err(call.fault.error)
      else Ok(Encapsulated(seal, tail, keyId, call.peerId, seqNum, call.payload))
  }

  /** The transmit counter; `atomic64_fetch_add_unless` makes each draw one step. */
  class PktidXmit {
    var seqNum: int

    ghost predicate Valid()
      reads this
    {
      1 <= seqNum <= PKTID_LIMIT
    }

    constructor ()
      ensures Valid() && seqNum == 1
    {
      seqNum := 1;
    }

    method Next() returns (pktid: Option<u32>)
      requires Valid()
      modifies this
      ensures Valid()
      ensures old(seqNum) == PKTID_LIMIT ==> pktid == None && seqNum == PKTID_LIMIT
      ensures old(seqNum) < PKTID_LIMIT ==> pktid == Some(old(seqNum)) && seqNum == old(seqNum) + 1
    {
      var fetched := seqNum;
      if fetched != PKTID_LIMIT {
        seqNum := seqNum + 1;
      }
      if fetched == PKTID_LIMIT {
        return None;
      }
      return Some(fetched % U32_SIZE);
    }
  }

  class KeySlot {
    const keyId: byte
    const seal: Seal
    const open: Open
    const tailXmit: Bytes
    const tailRecv: Bytes
    const pidXmit: PktidXmit
    const pidRecv: ReplayWindow.PktidRecv

    ghost predicate Valid()
      reads this, pidXmit, pidRecv, pidRecv.history
    {
      && |tailXmit| == |tailRecv| == NONCE_TAIL_SIZE
      && pidXmit.Valid() && pidRecv.Valid()
    }

    constructor (keyId: byte, seal: Seal, open: Open, tailXmit: Bytes, tailRecv: Bytes, timeout: nat)
      requires |tailXmit| == |tailRecv| == NONCE_TAIL_SIZE
      ensures Valid() && fresh(pidXmit) && fresh(pidRecv) && fresh(pidRecv.history)
      ensures this.keyId == keyId && this.seal == seal && this.open == open
      ensures this.tailXmit == tailXmit && this.tailRecv == tailRecv
      ensures pidXmit.seqNum == 1 && pidRecv.Contents() == FRESH_RECEIVER && pidRecv.timeout == timeout
    {
      this.keyId, this.seal, this.open := keyId, seal, open;
      this.tailXmit, this.tailRecv := tailXmit, tailRecv;
      pidXmit := new PktidXmit();
      pidRecv := new ReplayWindow.PktidRecv(timeout);
    }

    /** Seals one packet; `iv` is the IV the cipher was run with, if it was. */
    method Encrypt(call: Call) returns (r: Result<Bytes>, iv: Option<Bytes>)
      requires Valid()
      modifies pidXmit
      ensures Valid()
      ensures r == EncryptResult(old(pidXmit.seqNum), seal, tailXmit, keyId, call)
      ensures pidXmit.seqNum == old(pidXmit.seqNum) + (if DrawsId(old(pidXmit.seqNum), call) then 1 else 0)
      ensures iv == if DrawsId(old(pidXmit.seqNum), call) then Some(Iv(old(pidXmit.seqNum), tailXmit)) else None
      // an ID is used up, for good, by every call that gets past preparing the request
      ensures iv.Some? <==> !call.fault.BeforeCipher? && old(pidXmit.seqNum) < 0x1_0000_0000
      ensures pidXmit.seqNum == old(pidXmit.seqNum) + (if iv.Some? then 1 else 0)
      ensures iv.Some? ==> iv.value == Be32(old(pidXmit.seqNum)) + tailXmit
      // what the caller is told
      ensures r.Ok? <==> iv.Some? && call.fault.NoFault?
      ensures call.fault.BeforeCipher? ==> r == Err(call.fault.error)
      ensures iv.None? && !call.fault.BeforeCipher? ==> r == Err(ERANGE)
      ensures iv.Some? && call.fault.InCipher? ==> r == Err(call.fault.error)
    {
      if call.fault.BeforeCipher? {
        return Err(call.fault.error), None;
      }
      var skb: Bytes := call.payload;
      // room for the tag, which the cipher fills in
      skb := seq(AUTH_TAG_SIZE, _ => 0) + skb;
      var pktid := pidXmit.Next();
      if pktid.None? {
        return Err(ERANGE), None;
      }
      var nonce := Be32(pktid.value) + tailXmit;
      skb := nonce[..NONCE_WIRE_SIZE] + skb;
      var op := OpcodeCompose(OVPN_DATA_V2, keyId, call.peerId);
      skb := Be32(op) + skb;
      if call.fault.InCipher? {
        return Err(call.fault.error), Some(nonce);
      }
      assert nonce[..NONCE_WIRE_SIZE] == Be32(pktid.value);
      assert skb[..8] == AssociatedData(keyId, call.peerId, pktid.value);
      assert skb[OVERHEAD..] == call.payload;
      var sealed := seal(nonce, skb[..8], skb[OVERHEAD..]);
      skb := skb[..8] + sealed[|sealed|-AUTH_TAG_SIZE..] + sealed[..|sealed|-AUTH_TAG_SIZE];
      return Ok(skb), Some(nonce);
    }

    /** Opens one packet and, only if it is authentic, shows its ID to the replay window. */
    method Decrypt(skb: Bytes, now: ulong, fault: Option<Errno>) returns (r: Result<Bytes>)
      requires Valid()
      modifies pidRecv, pidRecv.history
      ensures Valid()
      ensures |skb| < OVERHEAD ==> r == Err(EINVAL)
      ensures |skb| < OVERHEAD || fault.Some? ==>
        pidRecv.Contents() == old(pidRecv.Contents()) && pidRecv.history[..] == old(pidRecv.history[..])
      ensures |skb| >= OVERHEAD && fault.Some? ==> r == Err(fault.value)
      ensures fault.None? ==>
        && r == Decapsulated(old(pidRecv.Contents()), open, tailRecv, skb, now)
        && pidRecv.Contents() == AfterDecrypt(old(pidRecv.Contents()), open, tailRecv, skb, now, pidRecv.timeout)
    {
      var payloadLen := |skb| - OVERHEAD;
      if payloadLen < 0 {
        return Err(EINVAL);
      }
      if fault.Some? {
        return Err(fault.value);
      }
      var iv := skb[4..8] + tailRecv;
      assert skb[4..8] == Be32(PktidOf(skb)) by { Be32IsOnto(skb[4..8]); }
      var plain := open(iv, skb[..8], skb[OVERHEAD..] + skb[8..OVERHEAD]);
      if plain.None? {
        return Err(EBADMSG);
      }
      var v := pidRecv.Receive(FromBe32(skb[4..8]), 0, now);
      if v != Accepted {
        return Err(if v == TimeWentBack then ETIME else EINVAL);
      }
      return Ok(plain.value);
    }
  }
}
