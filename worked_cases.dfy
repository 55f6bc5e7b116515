/** Concrete packets run through the codec: each lemma here is an instance
    of the all-inputs lemmas of HeaderCodec and PacketCodec on one buffer. */
module WorkedCases {
  import opened Bits
  import opened Wire
  import opened RtpTypes
  import opened ExtensionCodec
  import opened HeaderCodec
  import opened PacketCodec

  /** The smallest packet: V=2, sequence number 1, every other field 0, no
      CSRC, no extension, no payload. */
  const MinimalPacket: seq<byte> := [0x80, 0x00, 0x00, 0x01, 0, 0, 0, 0, 0, 0, 0, 0]

  /** The minimal packet decodes with an empty payload and the fields
      above, and its header marshals back to the same 12 bytes. */
  lemma MinimalPacketCase(prior: Packet)
    ensures var r := PacketUnmarshal(prior, MinimalPacket);
      var h := r.packet.header;
      r.err == None && r.packet.payload == [] &&
      h.version == 2 && !h.padding && !h.extension && h.csrc == [] && !h.marker &&
      h.payloadType == 0 && h.sequenceNumber == 1 && h.timestamp == 0 && h.ssrc == 0 &&
      h.extensions == [] &&
      HeaderMarshal(h) == Marshaled(MinimalPacket, None)
  {
    var buf := MinimalPacket;
    var h2 := FixedFields(FirstFields(prior.header, buf[0]), buf, 0);
    assert h2.version == 2 && !h2.padding && !h2.extension && !h2.marker && h2.payloadType == 0 by {
      ShrValues(buf[0]);
      ShrValues(buf[1]);
    }
    assert HeaderUnmarshal(prior.header, buf) == Decoded(h2, 12, None) by {
      HeaderUnmarshalFits(prior.header, buf, 0, 12, h2);
    }
    assert PacketUnmarshal(prior, buf) == PacketDecoded(Packet(h2, [], prior.paddingSize), None) by {
      PacketUnmarshalFits(prior, buf, Decoded(h2, 12, None), [], 0);
    }
    assert HeaderMarshal(h2) == Marshaled(buf, None) by {
      HeaderReencode(prior.header, buf);
      assert buf[..12] == buf;
    }
  }

  /** A packet with the P bit, payload 0x55 and four bytes of padding. */
  const PaddedPacket: seq<byte> := [0xA0, 0x60, 0x00, 0x01, 0, 0, 0, 0, 0, 0, 0, 0, 0x55, 0, 0, 0, 4]

  /** The padded packet decodes to payload 0x55 and padding size 4, and
      marshals back to the same 17 bytes, ending in the zero padding and the
      size byte. */
  lemma PaddedPacketCase(prior: Packet)
    ensures var r := PacketUnmarshal(prior, PaddedPacket);
      r.err == None && r.packet.header.padding && r.packet.payload == [0x55] &&
      r.packet.paddingSize == 4 &&
      PacketMarshal(r.packet) == Marshaled(PaddedPacket, None)
  {
    PaddedPacketRoundTrip(prior, PaddedPacket);
  }

  /** The same for every 17-byte packet with byte 0 0xA0 (V=2, P set, no X,
      no CSRC), one payload byte and the padding 0 0 0 4. */
  lemma PaddedPacketRoundTrip(prior: Packet, buf: seq<byte>)
    requires |buf| == 17 && buf[0] == 0xA0 && buf[13] == 0 && buf[14] == 0 && buf[15] == 0 && buf[16] == 4
    ensures var r := PacketUnmarshal(prior, buf);
      r.err == None && r.packet.header.padding && r.packet.payload == [buf[12]] &&
      r.packet.paddingSize == 4 &&
      PacketMarshal(r.packet) == Marshaled(buf, None)
  {
    var h2 := FixedFields(FirstFields(prior.header, buf[0]), buf, 0);
    assert h2.padding && !h2.extension && CsrcCount(buf[0]) == 0 by {
      ShrValues(buf[0]);
    }
    var d := Decoded(h2, 12, None);
    HeaderUnmarshalFits(prior.header, buf, 0, 12, h2);
    var p := Packet(h2, [buf[12]], 4);
    assert buf[12..13] == [buf[12]];
    PacketUnmarshalFits(prior, buf, d, [buf[12]], 4);
    HeaderReencode(prior.header, buf);
    assert PaddedHeader(p) == h2;
    assert PacketBytes(p) == buf by {
      assert Padding(4) == [0, 0, 0, 4];
      assert buf == buf[..12] + [buf[12]] + [0, 0, 0, 4];
    }
    PacketMarshalBytes(p);
  }

  /** An RFC 8285 one-byte block: profile 0xBEDE, two words, the elements
      id 1 with 0xAA and id 2 with 0xBB 0xCC, and three bytes of padding. */
  const OneBytePacket: seq<byte> :=
    [0x90, 0x60, 0x00, 0x01, 0, 0, 0, 0, 0, 0, 0, 0,
     0xBE, 0xDE, 0x00, 0x02, 0x10, 0xAA, 0x21, 0xBB, 0xCC, 0, 0, 0]

  /** The header of OneBytePacket. */
  const OneByteHeader: Header :=
    Header(2, false, true, false, 0x60, 1, 0, 0, [], OneByteProfile,
           [Extension(1, [0xAA]), Extension(2, [0xBB, 0xCC])])

  /** The one-byte block decodes to its two elements in order, whatever the
      receiver held, and the header marshals back to the same 24 bytes: the
      body padded to a word boundary and a length word of 2. */
  lemma OneByteCase(prior: Header)
    ensures HeaderUnmarshal(prior, OneBytePacket) == Decoded(OneByteHeader, 24, None)
    ensures HeaderMarshal(OneByteHeader) == Marshaled(OneBytePacket, None)
  {
    OneByteCaseBytes();
    HeaderRoundTrip(prior, OneByteHeader, OneBytePacket);
    HeaderMarshalBytes(OneByteHeader);
  }

  /** OneByteHeader is well-formed and its bytes are OneBytePacket. */
  lemma OneByteCaseBytes()
    ensures WellFormed(OneByteHeader) && HeaderBytes(OneByteHeader) == OneBytePacket
  {
    OneByteCaseHeader(OneByteHeader, OneBytePacket);
  }

  /** A header with the fields of OneByteHeader is well-formed and its bytes
      are those of OneBytePacket. */
  lemma OneByteCaseHeader(h: Header, buf: seq<byte>)
    requires h == OneByteHeader && buf == OneBytePacket
    ensures WellFormed(h) && HeaderBytes(h) == buf
  {
    FixedReencode(h, buf);
    OneByteCaseBlock(h);
    assert CsrcBytes([]) == [];
    assert buf == buf[..12] + buf[12..];
  }

  /** The extension block of a header with the elements of OneByteHeader:
      profile, length word 2, the two units and three zero bytes. */
  lemma OneByteCaseBlock(h: Header)
    requires h.extension && h.extensionProfile == OneByteProfile
    requires h.extensions == [Extension(1, [0xAA]), Extension(2, [0xBB, 0xCC])]
    ensures SizeDefined(h) && BodySize(h) == 5 && RoundUp4(BodySize(h)) / 4 < 0x1_0000
    ensures ExtensionBlock(h) == [0xBE, 0xDE, 0x00, 0x02, 0x10, 0xAA, 0x21, 0xBB, 0xCC, 0, 0, 0]
  {
    var e1 := Extension(1, [0xAA]);
    var e2 := Extension(2, [0xBB, 0xCC]);
    OneByteHeadValue(1, 1);
    OneByteHeadValue(2, 2);
    assert OneByteUnit(e1) == [0x10, 0xAA] && OneByteUnit(e2) == [0x21, 0xBB, 0xCC];
    assert h.extensions[1..] == [e2] && [e2][1..] == [];
    assert OneByteBody([e2]) == OneByteUnit(e2);
    assert OneByteBody(h.extensions) == OneByteUnit(e1) + OneByteUnit(e2);
    assert OneByteBodySize([e2]) == 3;
    assert RoundUp4(5) == 8 && Zeros(3) == [0, 0, 0];
  }

  /** A one-byte block whose second unit has the reserved id 15, followed
      by what looks like an id-2 element. */
  const ReservedIdPacket: seq<byte> :=
    [0x90, 0x60, 0x00, 0x01, 0, 0, 0, 0, 0, 0, 0, 0,
     0xBE, 0xDE, 0x00, 0x02, 0x10, 0xAA, 0xF0, 0x21, 0xBB, 0xCC, 0, 0]

  /** The scan stops at the id-15 unit: only the element before it is kept
      and Unmarshal reports the cursor just after the id-15 byte, 19, not
      the end of the block. Marshal then writes a 20-byte header with a
      one-word block, so re-encoding this header does not give back the
      bytes consumed. */
  lemma ReservedIdCase(prior: Header)
    ensures var r := HeaderUnmarshal(prior, ReservedIdPacket);
      r.err == None && r.n == 19 && r.header.extensionProfile == OneByteProfile &&
      r.header.extensions == [Extension(1, [0xAA])] &&
      HeaderSize(r.header) == 20 && r.n != HeaderSize(r.header)
  {
    ReservedIdTruncation(prior, ReservedIdPacket);
  }

  /** The same for every 24-byte buffer with the fixed header byte 0x90, no
      CSRC, a two-word one-byte block, and the units 0x10 0xAA and 0xF0 at
      its start: the bytes after the id-15 byte play no part. */
  lemma ReservedIdTruncation(prior: Header, buf: seq<byte>)
    requires |buf| == 24 && buf[0] == 0x90
    requires buf[12] == 0xBE && buf[13] == 0xDE && buf[14] == 0x00 && buf[15] == 0x02
    requires buf[16] == 0x10 && buf[17] == 0xAA && buf[18] == 0xF0
    ensures var r := HeaderUnmarshal(prior, buf);
      r.err == None && r.n == 19 && r.header.extensionProfile == OneByteProfile &&
      r.header.extensions == [Extension(1, [0xAA])] &&
      HeaderSize(r.header) == 20 && r.n != HeaderSize(r.header)
  {
    var h2 := FixedFields(FirstFields(prior, buf[0]), buf, 0);
    assert h2.extension && CsrcCount(buf[0]) == 0 by {
      ShrValues(buf[0]);
    }
    HeaderUnmarshalFits(prior, buf, 0, 12, h2);
    ExtensionUnmarshalFits(h2, buf, 12);
    ReservedIdScan(buf, 24);
    assert OneByteBodySize([Extension(1, [0xAA])]) == 2;
  }

  /** The one-byte scan of a block starting with the units 0x10 0xAA and
      0xF0, as in ReservedIdPacket: an element, then the id-15 byte. */
  lemma ReservedIdScan(buf: seq<byte>, end: int)
    requires 19 <= end <= |buf| && buf[16] == 0x10 && buf[17] == 0xAA && buf[18] == 0xF0
    ensures OneByteScan(buf, 16, end, []) == Scan([Extension(1, [0xAA])], 19, None)
  {
    var e1 := Extension(1, [0xAA]);
    OneByteHeadFields(1, 0, buf[16]);
    assert buf[17..18] == [0xAA];
    OneByteScanElement(buf, 16, 17, 18, end, [], e1);
    OneByteHeadFields(15, 0, buf[18]);
    OneByteScanReserved(buf, 18, 19, end, [e1]);
  }
}
