/** The 32-byte DTXMessageHeader in front of every fragment. */
module MessageHeader {
  import opened Bytes

  const MAGIC: uint32 := 0x1F3D5B79
  const HEADER_SIZE: uint32 := 32

  datatype Header = Header(
    magic: uint32,
    headerSize: uint32,
    fragmentIndex: uint16,
    fragmentCount: uint16,
    length: uint32,
    identifier: uint32,
    conversationIndex: uint32,
    channelCode: uint32,
    expectsReply: uint32
  )

  function Encode(h: Header): (s: seq<byte>)
    ensures |s| == HEADER_SIZE
  {
    LittleEndian(h.magic, 4) + LittleEndian(h.headerSize, 4)
    + LittleEndian(h.fragmentIndex, 2) + LittleEndian(h.fragmentCount, 2) + LittleEndian(h.length, 4)
    + LittleEndian(h.identifier, 4) + LittleEndian(h.conversationIndex, 4)
    + LittleEndian(h.channelCode, 4) + LittleEndian(h.expectsReply, 4)
  }

  /** The header that the first 32 bytes of `s` spell. */
  function Decode(s: seq<byte>): Header
    requires |s| >= HEADER_SIZE
  {
    Header(ReadUint32(s, 0), ReadUint32(s, 4), ReadUint16(s, 8), ReadUint16(s, 10), ReadUint32(s, 12),
           ReadUint32(s, 16), ReadUint32(s, 20), ReadUint32(s, 24), ReadUint32(s, 28))
  }

  lemma DecodeOfEncode(h: Header, rest: seq<byte>)
    ensures Decode(Encode(h) + rest) == h
  {
    var s := Encode(h) + rest;
    PowersOf256();
    hide LittleEndian;
    hide FromLittleEndian;
    hide Pow256;
    assert s[0..4] == LittleEndian(h.magic, 4);
    assert s[4..8] == LittleEndian(h.headerSize, 4);
    assert s[8..10] == LittleEndian(h.fragmentIndex, 2);
    assert s[10..12] == LittleEndian(h.fragmentCount, 2);
    assert s[12..16] == LittleEndian(h.length, 4);
    assert s[16..20] == LittleEndian(h.identifier, 4);
    assert s[20..24] == LittleEndian(h.conversationIndex, 4);
    assert s[24..28] == LittleEndian(h.channelCode, 4);
    assert s[28..32] == LittleEndian(h.expectsReply, 4);
    Bytes.DecodeOfEncode(h.magic, 4);
    Bytes.DecodeOfEncode(h.headerSize, 4);
    Bytes.DecodeOfEncode(h.fragmentIndex, 2);
    Bytes.DecodeOfEncode(h.fragmentCount, 2);
    Bytes.DecodeOfEncode(h.length, 4);
    Bytes.DecodeOfEncode(h.identifier, 4);
    Bytes.DecodeOfEncode(h.conversationIndex, 4);
    Bytes.DecodeOfEncode(h.channelCode, 4);
    Bytes.DecodeOfEncode(h.expectsReply, 4);
  }

  lemma EncodeOfDecode(s: seq<byte>)
    requires |s| >= HEADER_SIZE
    ensures Encode(Decode(s)) == s[..HEADER_SIZE]
  {
    hide LittleEndian;
    hide FromLittleEndian;
    hide Pow256;
    Bytes.EncodeOfDecode(s[0..4]);
    Bytes.EncodeOfDecode(s[4..8]);
    Bytes.EncodeOfDecode(s[8..10]);
    Bytes.EncodeOfDecode(s[10..12]);
    Bytes.EncodeOfDecode(s[12..16]);
    Bytes.EncodeOfDecode(s[16..20]);
    Bytes.EncodeOfDecode(s[20..24]);
    Bytes.EncodeOfDecode(s[24..28]);
    Bytes.EncodeOfDecode(s[28..32]);
    JoinSlices(s, 4, 8);
    JoinSlices(s, 8, 10);
    JoinSlices(s, 10, 12);
    JoinSlices(s, 12, 16);
    JoinSlices(s, 16, 20);
    JoinSlices(s, 20, 24);
    JoinSlices(s, 24, 28);
    JoinSlices(s, 28, 32);
    assert s[0..4] == s[..4];
  }

  /** Only the first 32 bytes matter. */
  lemma DecodeOfPrefix(s: seq<byte>, rest: seq<byte>)
    requires |s| >= HEADER_SIZE
    ensures Decode(s + rest) == Decode(s)
  {
    EncodeOfDecode(s);
    DecodeOfEncode(Decode(s), s[HEADER_SIZE..] + rest);
    assert s + rest == Encode(Decode(s)) + (s[HEADER_SIZE..] + rest);
  }
}
