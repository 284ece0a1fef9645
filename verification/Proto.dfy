/** The 32-bit header of a data packet and the byte order of everything on the wire. */
module Proto {
  import opened Words

  const OVPN_DATA_V2: byte := 9
  const OVPN_OP_SIZE_V2: nat := 4
  const OVPN_PEER_ID_UNDEF: u32 := 0x00FF_FFFF

  /** `htons` followed by a two-byte store. */
  function Be16(x: u16): (b: seq<byte>)
    ensures |b| == 2 && FromBe16(b) == x
  {
    [x / 0x100, x % 0x100]
  }

  function FromBe16(b: seq<byte>): u16
    requires |b| == 2
  {
    b[0] as int * 0x100 + b[1]
  }

  /** `htonl` followed by a four-byte store. */
  function Be32(x: u32): (b: seq<byte>)
    ensures |b| == 4 && FromBe32(b) == x
  {
    var b := Be16(x / U16_SIZE) + Be16(x % U16_SIZE);
    assert b[..2] == Be16(x / U16_SIZE) && b[2..] == Be16(x % U16_SIZE);
    b
  }

  function FromBe32(b: seq<byte>): u32
    requires |b| == 4
  {
    FromBe16(b[..2]) as int * U16_SIZE + FromBe16(b[2..])
  }

  /** Network order: the most significant byte first. */
  lemma Be32Bytes(x: u32)
    ensures var b := Be32(x);
      b[0] as int * 0x100_0000 + b[1] as int * 0x1_0000 + b[2] as int * 0x100 + b[3] == x
  {
    hide Be32;
    var b := Be32(x);
    assert b[..2] == [b[0], b[1]] && b[2..] == [b[2], b[3]];
  }

  lemma Be32IsOnto(b: seq<byte>)
    requires |b| == 4
    ensures Be32(FromBe32(b)) == b
  {
    var hi, lo := FromBe16(b[..2]), FromBe16(b[2..]);
    assert (hi as int * U16_SIZE + lo) / U16_SIZE == hi && (hi as int * U16_SIZE + lo) % U16_SIZE == lo;
    assert Be16(hi) == b[..2] && Be16(lo) == b[2..];
  }

  /** Shifts and masks of `ovpn_opcode_compose`; the byte-wide `op` drops what `<< 3` pushes out. */
  function OpcodeCompose(opcode: byte, keyId: byte, peerId: u32): u32 {
    var op := opcode * 8 % 0x100 + keyId % 8;
    op * 0x100_0000 + peerId % 0x100_0000
  }

  function OpcodeFromSkb(skb: seq<byte>): byte
    requires |skb| >= 1
  {
    skb[0] / 8
  }

  function KeyIdFromSkb(skb: seq<byte>): byte
    requires |skb| >= 1
  {
    skb[0] % 8
  }

  function PeerIdFromSkb(skb: seq<byte>): u32
    requires |skb| >= 4
  {
    FromBe32(skb[..4]) % 0x100_0000
  }

  lemma HeaderFields(op: byte, peerId: u32)
    ensures var header := Be32(op as int * 0x100_0000 + peerId % 0x100_0000);
      header[0] == op && PeerIdFromSkb(header) == peerId % 0x100_0000
  {
    var low := peerId % 0x100_0000;
    var header := Be32(op as int * 0x100_0000 + low);
    assert (op as int * 0x100_0000 + low) / U16_SIZE == op as int * 0x100 + low / U16_SIZE;
    assert header[..4] == header;
  }

  lemma OpByte(opcode: byte, keyId: byte)
    ensures var op := opcode * 8 % 0x100 + keyId % 8;
      op < 0x100 && op / 8 == opcode % 32 && op % 8 == keyId % 8
  {
    assert opcode * 8 % 0x100 == 8 * (opcode % 32);
  }

  /** A composed header reads back as it was composed exactly when each part fits its field. */
  lemma HeaderReadsBack(opcode: byte, keyId: byte, peerId: u32)
    ensures var header := Be32(OpcodeCompose(opcode, keyId, peerId));
      (OpcodeFromSkb(header) == opcode && KeyIdFromSkb(header) == keyId && PeerIdFromSkb(header) == peerId)
      <==> (opcode < 32 && keyId < 8 && peerId < 0x100_0000)
  {
    hide Be32, PeerIdFromSkb;
    var op := opcode * 8 % 0x100 + keyId % 8;
    OpByte(opcode, keyId);
    HeaderFields(op, peerId);
    assert OpcodeFromSkb(Be32(OpcodeCompose(opcode, keyId, peerId))) == opcode % 32;
    assert (opcode % 32 == opcode <==> opcode < 32) && (keyId % 8 == keyId <==> keyId < 8);
  }

  /** What is read from the first bytes of any packet. */
  lemma HeaderFromBytes(data: seq<byte>)
    requires |data| >= 4
    ensures data[0] as int == OpcodeFromSkb(data) as int * 8 + KeyIdFromSkb(data) && KeyIdFromSkb(data) < 8
    ensures PeerIdFromSkb(data) == data[1] as int * 0x1_0000 + data[2] as int * 0x100 + data[3]
  {
    assert data[..4][..2] == [data[0], data[1]] && data[..4][2..] == [data[2], data[3]];
    var n := FromBe32(data[..4]);
    assert n == data[0] as int * 0x100_0000 + (data[1] as int * 0x1_0000 + data[2] as int * 0x100 + data[3]);
  }

  /** The header byte by byte: opcode in the upper five bits and key ID in the lower three of the first, then the peer
      ID, most significant byte first. */
  lemma HeaderBytes(opcode: byte, keyId: byte, peerId: u32)
    requires opcode < 32 && keyId < 8 && peerId < 0x100_0000
    ensures var header := Be32(OpcodeCompose(opcode, keyId, peerId));
      && header[0] as int == opcode as int * 8 + keyId
      && header[1] as int * 0x1_0000 + header[2] as int * 0x100 + header[3] == peerId
  {
    hide Be32, OpcodeCompose, OpcodeFromSkb, KeyIdFromSkb, PeerIdFromSkb;
    HeaderReadsBack(opcode, keyId, peerId);
    HeaderFromBytes(Be32(OpcodeCompose(opcode, keyId, peerId)));
  }
}
