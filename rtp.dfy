/** The RtpHeader and RtpPacket objects of pkg/av/rtp.go: their fields, and
    the methods that decode into them and encode them into a caller's
    buffer, each written step by step as in the source and proved against
    the value-level codec of HeaderCodec and PacketCodec. */
module Rtp {
  import opened Bits
  import opened Wire
  import opened RtpTypes
  import opened ExtensionCodec
  import opened HeaderCodec
  import opened PacketCodec

  /** An RTP header. Decoding assigns its fields one after another. */
  class RtpHeader {
    var version: byte
    var padding: bool
    var extension: bool
    var marker: bool
    var payloadType: byte
    var sequenceNumber: uint16
    var timestamp: uint32
    var ssrc: uint32
    var csrc: seq<uint32>
    var extensionProfile: uint16
    var extensions: seq<Extension>

    /** The header's fields as a value. */
    function Value(): Header
      reads this
    {
      Header(version, padding, extension, marker, payloadType, sequenceNumber,
             timestamp, ssrc, csrc, extensionProfile, extensions)
    }

    /** A header with Go's zero value. */
    constructor ()
      ensures Value() == ZeroHeader
    {
      version, padding, extension, marker, payloadType := 0, false, false, false, 0;
      sequenceNumber, timestamp, ssrc := 0, 0, 0;
      csrc, extensionProfile, extensions := [], 0, [];
    }

    /** RtpHeader.Unmarshal: decodes buf into the fields and returns the
        number of bytes read. */
    method Unmarshal(buf: seq<byte>) returns (n: int, err: Option<RtpError>)
      modifies this
      ensures Decoded(Value(), n, err) == HeaderUnmarshal(old(Value()), buf)
    {
      ghost var prior := Value();
      if |buf| < HeaderLength {
        return 0, Some(HeaderSizeInsufficient(|buf|, HeaderLength));
      }
      var nCsrc := Mask(buf[0], CcMask);
      version, padding, extension, csrc :=
        Mask(Shr(buf[0], VersionShift), VersionMask),
        Mask(Shr(buf[0], PaddingShift), PaddingMask) > 0,
        Mask(Shr(buf[0], ExtensionShift), ExtensionMask) > 0,
        Zeros32(nCsrc);
      n := CsrcOffset + nCsrc * CsrcLength;
      if |buf| < n {
        HeaderUnmarshalShort(prior, buf, n, Value());
        return n, Some(HeaderSizeInsufficient(|buf|, n));
      }
      ReadFixed(buf);
      HeaderUnmarshalFits(prior, buf, nCsrc, n, Value());
      if extension {
        n, err := UnmarshalExtension(buf, n);
      } else {
        err := None;
      }
    }

    /** The reads once the CSRC list is known to fit: the second byte, the
        sequence number, timestamp and SSRC, the CSRC identifiers, and the
        extension list cleared. */
    method ReadFixed(buf: seq<byte>)
      requires CsrcOffset + 4 * |csrc| <= |buf|
      modifies this
      ensures Value() == FixedFields(old(Value()), buf, |old(csrc)|)
    {
      ReadCsrc(buf);
      marker, payloadType := Mask(Shr(buf[1], MarkerShift), MarkerMask) > 0, Mask(buf[1], PtMask);
      sequenceNumber, timestamp, ssrc := U16At(buf, SeqNumOffset), U32At(buf, TimestampOffset), U32At(buf, SsrcOffset);
      extensions := [];
    }

    /** The loop over the CSRC slots: each is read from its offset. */
    method ReadCsrc(buf: seq<byte>)
      requires CsrcOffset + 4 * |csrc| <= |buf|
      modifies this
      ensures Value() == old(Value()).(csrc := CsrcList(buf, |old(csrc)|))
    {
      var count := |csrc|;
      for i := 0 to count
        invariant |csrc| == count
        invariant Value() == old(Value()).(csrc := csrc)
        invariant forall j :: 0 <= j < i ==> csrc[j] == U32At(buf, CsrcOffset + 4 * j)
      {
        var offset := CsrcOffset + i * CsrcLength;
        csrc := csrc[i := U32At(buf, offset)];
      }
      assert csrc == CsrcList(buf, count);
    }

    /** The extension part of Unmarshal, from the cursor n0 just after the
        CSRC list: the profile and length words, then the body. */
    method UnmarshalExtension(buf: seq<byte>, n0: int) returns (n: int, err: Option<RtpError>)
      requires extension && extensions == [] && 0 <= n0 <= |buf|
      modifies this
      ensures Decoded(Value(), n, err) == ExtensionUnmarshal(old(Value()), buf, n0)
    {
      if |buf| < n0 + 4 {
        return n0, Some(ExtensionSizeInsufficient(|buf|, n0 + 4));
      }
      extensionProfile := U16At(buf, n0);
      n := n0 + 2;
      var extensionLength := U16At(buf, n) * 4;
      n := n + 2;
      if |buf| < n + extensionLength {
        return n, Some(ExtensionSizeInsufficient(|buf|, n + extensionLength));
      }
      var end := n + extensionLength;
      if extensionProfile == OneByteProfile {
        var exts;
        exts, n, err := ScanOneByte(buf, n, end, extensions);
        extensions := exts;
      } else if extensionProfile == TwoByteProfile {
        var exts;
        exts, n, err := ScanTwoByte(buf, n, end, extensions);
        extensions := exts;
      } else {
        extensions := extensions + [Extension(0, buf[n..end])];
        n := n + |extensions[0].payload|;
        err := None;
      }
    }

    /** RtpHeader.MarshalSize. */
    method MarshalSize() returns (size: int)
      requires SizeDefined(Value())
      ensures size == HeaderSize(Value())
    {
      size := 12 + |csrc| * CsrcLength;
      if extension {
        var extSize := 4;
        if extensionProfile == OneByteProfile {
          for i := 0 to |extensions|
            invariant extSize == 4 + OneByteBodySize(extensions[..i])
          {
            assert extensions[..i + 1] == extensions[..i] + [extensions[i]];
            OneByteBodyAppend(extensions[..i], extensions[i]);
            extSize := extSize + 1 + |extensions[i].payload|;
          }
          assert extensions[..|extensions|] == extensions;
        } else if extensionProfile == TwoByteProfile {
          for i := 0 to |extensions|
            invariant extSize == 4 + TwoByteBodySize(extensions[..i])
          {
            assert extensions[..i + 1] == extensions[..i] + [extensions[i]];
            TwoByteBodyAppend(extensions[..i], extensions[i]);
            extSize := extSize + 2 + |extensions[i].payload|;
          }
          assert extensions[..|extensions|] == extensions;
        } else {
          extSize := extSize + |extensions[0].payload|;
        }
        size := size + ((extSize + 3) / 4) * 4;
      }
    }

    /** RtpHeader.MarshalTo: ErrShortBuffer if buf is smaller than
        MarshalSize(); otherwise the header's fields written from the
        front. */
    method MarshalTo(buf: array<byte>) returns (n: int, err: Option<RtpError>)
      requires SizeDefined(Value())
      modifies buf
      ensures Written(n, err, buf[..]) == HeaderMarshalInto(Value(), old(buf[..]))
    {
      var size := MarshalSize();
      if size > buf.Length {
        return 0, Some(ShortBuffer);
      }
      ghost var s := buf[..];
      n, err := PutHeader(buf, Value());
      HeaderWritten(Value(), s, n, err, buf[..]);
    }

    /** RtpHeader.Marshal: MarshalTo into a fresh zeroed buffer of
        MarshalSize() bytes, cut to the count written. */
    method Marshal() returns (bytes: seq<byte>, err: Option<RtpError>)
      requires SizeDefined(Value())
      ensures Marshaled(bytes, err) == HeaderMarshal(Value())
    {
      var size := MarshalSize();
      var buf := new byte[size](_ => 0);
      assert buf[..] == Zeros(size);
      var n;
      n, err := MarshalTo(buf);
      if err.Some? {
        return [], err;
      }
      bytes := buf[..n];
    }
  }

  /** An RTP packet: the header it embeds, the payload and the padding
      size. */
  class RtpPacket {
    const header: RtpHeader
    var payload: seq<byte>
    var paddingSize: byte

    /** The packet's fields as a value. */
    function Value(): Packet
      reads this, header
    {
      Packet(header.Value(), payload, paddingSize)
    }

    /** A packet with Go's zero value. */
    constructor ()
      ensures Value() == Packet(ZeroHeader, [], 0)
      ensures fresh(header)
    {
      header := new RtpHeader();
      payload, paddingSize := [], 0;
    }

    /** RtpPacket.Unmarshal: the header, then the padding size from the
        last byte when the P bit is set, then the payload between them. */
    method Unmarshal(buf: seq<byte>) returns (err: Option<RtpError>)
      modifies this, header
      ensures PacketDecoded(Value(), err) == PacketUnmarshal(old(Value()), buf)
    {
      ghost var prior := Value();
      HeaderUnmarshalOutcome(prior.header, buf);
      var n;
      n, err := header.Unmarshal(buf);
      if err.Some? {
        return;
      }
      var end := |buf|;
      if header.padding {
        paddingSize := buf[end - 1];
        end := end - paddingSize;
      }
      if end < n {
        return Some(BufferTooSmall);
      }
      payload := buf[n..end];
    }

    /** RtpPacket.MarshalSize: the header's size plus the payload and the
        padding. */
    method MarshalSize() returns (size: int)
      requires SizeDefined(header.Value())
      ensures size == PacketSize(Value())
    {
      size := header.MarshalSize();
      size := size + |payload| + paddingSize;
    }

    /** RtpPacket.MarshalTo: sets the header's P bit from the padding size,
        marshals the header, then, if the whole packet fits, copies the
        payload and writes the padding size into the last padding byte. */
    method MarshalTo(buf: array<byte>) returns (n: int, err: Option<RtpError>)
      requires SizeDefined(header.Value())
      modifies header, buf
      ensures Written(n, err, buf[..]) == PacketMarshalInto(old(Value()), old(buf[..]))
      ensures Value() == old(Value()).(header := PaddedHeader(old(Value())))
    {
      ghost var p := Value();
      header.padding := paddingSize != 0;
      PaddedHeaderSize(p);
      assert header.Value() == PaddedHeader(p);
      n, err := header.MarshalTo(buf);
      if err.Some? {
        return 0, err;
      }
      n, err := PutPayloadAndPadding(buf, n, payload, header.padding, paddingSize);
    }

    /** RtpPacket.Marshal: MarshalTo into a fresh zeroed buffer of
        MarshalSize() bytes, cut to the count written. */
    method Marshal() returns (bytes: seq<byte>, err: Option<RtpError>)
      requires SizeDefined(header.Value())
      modifies header
      ensures Marshaled(bytes, err) == PacketMarshal(old(Value()))
      ensures Value() == old(Value()).(header := PaddedHeader(old(Value())))
    {
      var size := MarshalSize();
      var buf := new byte[size](_ => 0);
      assert buf[..] == Zeros(size);
      var n;
      n, err := MarshalTo(buf);
      if err.Some? {
        return [], err;
      }
      bytes := buf[..n];
    }
  }

  /** The end of RtpPacket.MarshalTo, after the header: the room check,
      then the payload and, when the P bit is set, the last padding byte. */
  method PutPayloadAndPadding(buf: array<byte>, at: nat, payload: seq<byte>, padding: bool, paddingSize: byte)
    returns (n: int, err: Option<RtpError>)
    requires at <= buf.Length && padding == (paddingSize != 0)
    modifies buf
    ensures at + |payload| + paddingSize > buf.Length ==>
      n == 0 && err == Some(ShortBuffer) && buf[..] == old(buf[..])
    ensures at + |payload| + paddingSize <= buf.Length ==>
      n == at + |payload| + paddingSize && err == None &&
      buf[..] == PayloadAndPadding(old(buf[..]), at, payload, paddingSize)
  {
    if at + |payload| + paddingSize > buf.Length {
      return 0, Some(ShortBuffer);
    }
    var m := Copy(buf, at, payload);
    assert payload[..m] == payload;
    if padding {
      buf[at + m + (paddingSize - 1)] := paddingSize;
    }
    n, err := at + m + paddingSize, None;
  }

  /** The RFC 8285 one-byte loop over [start, end): the elements found
      are appended to acc. */
  method ScanOneByte(buf: seq<byte>, start: int, end: int, acc: seq<Extension>)
    returns (exts: seq<Extension>, n: int, err: Option<RtpError>)
    requires 0 <= start <= end <= |buf|
    ensures Scan(exts, n, err) == OneByteScan(buf, start, end, acc)
  {
    exts := acc;
    ghost var target := OneByteScan(buf, start, end, acc);
    n := start;
    while n < end
      invariant start <= n <= |buf|
      invariant OneByteScan(buf, n, end, exts) == target
      decreases end - n
    {
      ghost var head := n;
      if buf[n] == 0x00 {
        n := n + 1;                               // padding
        OneByteScanPadding(buf, head, n, end, exts);
      } else {
        var extid := Shr(buf[n], 4);
        var len := Mask(buf[n], 0x0F) + 1;
        n := n + 1;
        if extid == ExtensionIdReserved {
          OneByteScanReserved(buf, head, n, end, exts);
          break;
        }
        if n + len > |buf| {
          OneByteScanOverrun(buf, head, n, end, exts);
          return exts, n, Some(SliceOutOfRange);
        }
        var extension := Extension(extid, buf[n..n + len]);
        OneByteScanElement(buf, head, n, n + len, end, exts, extension);
        exts := exts + [extension];
        n := n + len;
      }
    }
    err := None;
  }

  /** The RFC 8285 two-byte loop over [start, end): the elements found
      are appended to acc. */
  method ScanTwoByte(buf: seq<byte>, start: int, end: int, acc: seq<Extension>)
    returns (exts: seq<Extension>, n: int, err: Option<RtpError>)
    requires 0 <= start <= end <= |buf|
    ensures Scan(exts, n, err) == TwoByteScan(buf, start, end, acc)
  {
    exts := acc;
    ghost var target := TwoByteScan(buf, start, end, acc);
    n := start;
    while n < end
      invariant start <= n <= |buf|
      invariant TwoByteScan(buf, n, end, exts) == target
      decreases end - n
    {
      ghost var head := n;
      if buf[n] == 0x00 {
        n := n + 1;                               // padding
        TwoByteScanPadding(buf, head, n, end, exts);
      } else {
        var extid := buf[n];
        n := n + 1;
        if n >= |buf| {
          TwoByteScanNoLength(buf, head, n, end, exts);
          return exts, n, Some(SliceOutOfRange);
        }
        ghost var p := n;
        var len := buf[n];
        n := n + 1;
        if n + len > |buf| {
          TwoByteScanOverrun(buf, head, p, n, end, exts);
          return exts, n, Some(SliceOutOfRange);
        }
        var extension := Extension(extid, buf[n..n + len]);
        TwoByteScanElement(buf, head, p, n, n + len, end, exts, extension);
        exts := exts + [extension];
        n := n + len;
      }
    }
    err := None;
  }

  /** The CSRC loop of MarshalTo: each identifier as 4 big-endian bytes
      from position at on. */
  method PutCsrcList(buf: array<byte>, at: nat, csrc: seq<uint32>) returns (next: nat)
    requires at + 4 * |csrc| <= buf.Length
    modifies buf
    ensures next == at + 4 * |csrc|
    ensures buf[..] == Overlay(old(buf[..]), at, CsrcBytes(csrc))
  {
    ghost var s := buf[..];
    next := at;
    for i := 0 to |csrc|
      invariant next == at + 4 * i
      invariant buf[..] == Overlay(s, at, CsrcBytes(csrc[..i]))
    {
      PutUint32(buf, next, csrc[i]);
      OverlayAdjacent(s, at, CsrcBytes(csrc[..i]), U32Bytes(csrc[i]));
      CsrcBytesStep(csrc, i);
      next := next + 4;
    }
    assert csrc[..|csrc|] == csrc;
  }

  /** One element of MarshalTo's one-byte loop:
      buf[at] = id<<4 | (uint8(len(payload)) - 1), then the payload. */
  method PutOneByteUnit(buf: array<byte>, at: nat, e: Extension) returns (next: nat)
    requires at + 1 + |e.payload| <= buf.Length
    modifies buf
    ensures next == at + |OneByteUnit(e)|
    ensures buf[..] == Overlay(old(buf[..]), at, OneByteUnit(e))
  {
    ghost var s := buf[..];
    var b := OneByteHead(e);
    buf[at] := b;
    UpdateOverlay(s, at, b);
    next := at + 1;
    var m := Copy(buf, next, e.payload);
    assert e.payload[..m] == e.payload;
    OverlayAdjacent(s, at, [b], e.payload);
    next := next + m;
  }

  /** One element of MarshalTo's two-byte loop: the id, uint8(len(payload)),
      then the payload. */
  method PutTwoByteUnit(buf: array<byte>, at: nat, e: Extension) returns (next: nat)
    requires at + 2 + |e.payload| <= buf.Length
    modifies buf
    ensures next == at + |TwoByteUnit(e)|
    ensures buf[..] == Overlay(old(buf[..]), at, TwoByteUnit(e))
  {
    ghost var s := buf[..];
    buf[at] := e.id;
    UpdateOverlay(s, at, e.id);
    ghost var s1 := buf[..];
    buf[at + 1] := U8(|e.payload|);
    UpdateOverlay(s1, at + 1, U8(|e.payload|));
    OverlayAdjacent(s, at, [e.id], [U8(|e.payload|)]);
    assert [e.id] + [U8(|e.payload|)] == [e.id, U8(|e.payload|)];
    next := at + 2;
    var m := Copy(buf, next, e.payload);
    assert e.payload[..m] == e.payload;
    OverlayAdjacent(s, at, [e.id, U8(|e.payload|)], e.payload);
    next := next + m;
  }

  /** MarshalTo's one-byte loop over the whole list. */
  method PutOneByteBody(buf: array<byte>, at: nat, exts: seq<Extension>) returns (next: nat)
    requires at + |OneByteBody(exts)| <= buf.Length
    modifies buf
    ensures next == at + |OneByteBody(exts)|
    ensures buf[..] == Overlay(old(buf[..]), at, OneByteBody(exts))
  {
    ghost var s := buf[..];
    next := at;
    for i := 0 to |exts|
      invariant next == at + |OneByteBody(exts[..i])| <= buf.Length
      invariant buf[..] == Overlay(s, at, OneByteBody(exts[..i]))
    {
      OneByteBodyPrefixStep(exts, i);
      next := PutOneByteUnit(buf, next, exts[i]);
      OverlayAdjacent(s, at, OneByteBody(exts[..i]), OneByteUnit(exts[i]));
    }
    assert exts[..|exts|] == exts;
  }

  /** MarshalTo's two-byte loop over the whole list. */
  method PutTwoByteBody(buf: array<byte>, at: nat, exts: seq<Extension>) returns (next: nat)
    requires at + |TwoByteBody(exts)| <= buf.Length
    modifies buf
    ensures next == at + |TwoByteBody(exts)|
    ensures buf[..] == Overlay(old(buf[..]), at, TwoByteBody(exts))
  {
    ghost var s := buf[..];
    next := at;
    for i := 0 to |exts|
      invariant next == at + |TwoByteBody(exts[..i])| <= buf.Length
      invariant buf[..] == Overlay(s, at, TwoByteBody(exts[..i]))
    {
      TwoByteBodyPrefixStep(exts, i);
      next := PutTwoByteUnit(buf, next, exts[i]);
      OverlayAdjacent(s, at, TwoByteBody(exts[..i]), TwoByteUnit(exts[i]));
    }
    assert exts[..|exts|] == exts;
  }

  /** MarshalTo's padding loop: k zero bytes from position at on. */
  method PutZeros(buf: array<byte>, at: nat, k: nat) returns (next: nat)
    requires at + k <= buf.Length
    modifies buf
    ensures next == at + k
    ensures buf[..] == Overlay(old(buf[..]), at, Zeros(k))
  {
    ghost var s := buf[..];
    next := at;
    for i := 0 to k
      invariant next == at + i
      invariant buf[..] == Overlay(s, at, Zeros(i))
    {
      ghost var before := buf[..];
      buf[next] := 0;
      UpdateOverlay(before, next, 0);
      OverlayAdjacent(s, at, Zeros(i), [0]);
      ZerosSucc(i);
      next := next + 1;
    }
  }

  /** The writes of MarshalTo once the size check has passed: the fixed
      header and the CSRC list, then, when the X bit is set, the extension
      block, or only its profile when an RFC 3550 payload is refused. */
  method PutHeader(buf: array<byte>, h: Header) returns (n: int, err: Option<RtpError>)
    requires SizeDefined(h) && HeaderSize(h) <= buf.Length
    modifies buf
    ensures !h.extension ==>
      n == 12 + 4 * |h.csrc| && err == None && buf[..] == Overlay(old(buf[..]), 0, FixedBytes(h) + CsrcBytes(h.csrc))
    ensures h.extension && Unaligned(h) ==>
      n == 0 && err == Some(ShortBuffer) &&
      buf[..] == Overlay(Overlay(old(buf[..]), 0, FixedBytes(h) + CsrcBytes(h.csrc)), 12 + 4 * |h.csrc|, U16Bytes(h.extensionProfile))
    ensures h.extension && !Unaligned(h) ==>
      n == 12 + 4 * |h.csrc| + |ExtensionBlock(h)| && err == None &&
      buf[..] == Overlay(Overlay(old(buf[..]), 0, FixedBytes(h) + CsrcBytes(h.csrc)), 12 + 4 * |h.csrc|, ExtensionBlock(h))
  {
    n := PutPrefix(buf, h);
    if h.extension {
      n, err := PutExtensionBlock(buf, n, h);
    } else {
      err := None;
    }
  }

  /** The fixed header, then the CSRC list after it. */
  method PutPrefix(buf: array<byte>, h: Header) returns (n: nat)
    requires 12 + 4 * |h.csrc| <= buf.Length
    modifies buf
    ensures n == 12 + 4 * |h.csrc|
    ensures buf[..] == Overlay(old(buf[..]), 0, FixedBytes(h) + CsrcBytes(h.csrc))
  {
    ghost var s := buf[..];
    PutFixedHeader(buf, h);
    n := PutCsrcList(buf, 12, h.csrc);
    OverlayAdjacent(s, 0, FixedBytes(h), CsrcBytes(h.csrc));
  }

  /** The first 12 bytes of MarshalTo: V, P, X and CC, M and PT, then the
      sequence number, timestamp and SSRC. */
  method PutFixedHeader(buf: array<byte>, h: Header)
    requires 12 <= buf.Length
    modifies buf
    ensures buf[..] == Overlay(old(buf[..]), 0, FixedBytes(h))
  {
    ShlOneByte(PaddingShift);
    ShlOneByte(ExtensionShift);
    ShlOneByte(MarkerShift);
    var b0 := Or8(U8(Shl(h.version, VersionShift)), U8(|h.csrc|));
    if h.padding {
      b0 := Or8(b0, Shl(1, PaddingShift));
    }
    if h.extension {
      b0 := Or8(b0, Shl(1, ExtensionShift));
    }
    var b1 := h.payloadType;
    if h.marker {
      b1 := Or8(b1, Shl(1, MarkerShift));
    }
    assert [b0, b1] + U16Bytes(h.sequenceNumber) + U32Bytes(h.timestamp) + U32Bytes(h.ssrc) == FixedBytes(h);
    PutFixed(buf, b0, b1, h.sequenceNumber, h.timestamp, h.ssrc);
  }

  /** The fixed 12 bytes: the two flag bytes, then PutUint16 and PutUint32
      at offsets 2, 4 and 8. */
  method PutFixed(buf: array<byte>, b0: byte, b1: byte, sequenceNumber: uint16, timestamp: uint32, ssrc: uint32)
    requires 12 <= buf.Length
    modifies buf
    ensures buf[..] == Overlay(old(buf[..]), 0, [b0, b1] + U16Bytes(sequenceNumber) + U32Bytes(timestamp) + U32Bytes(ssrc))
  {
    ghost var s := buf[..];
    buf[0] := b0;
    UpdateOverlay(s, 0, b0);
    ghost var s1 := buf[..];
    buf[1] := b1;
    UpdateOverlay(s1, 1, b1);
    OverlayAdjacent(s, 0, [b0], [b1]);
    assert [b0] + [b1] == [b0, b1];
    PutUint16(buf, SeqNumOffset, sequenceNumber);
    OverlayAdjacent(s, 0, [b0, b1], U16Bytes(sequenceNumber));
    PutUint32(buf, TimestampOffset, timestamp);
    OverlayAdjacent(s, 0, [b0, b1] + U16Bytes(sequenceNumber), U32Bytes(timestamp));
    PutUint32(buf, SsrcOffset, ssrc);
    OverlayAdjacent(s, 0, [b0, b1] + U16Bytes(sequenceNumber) + U32Bytes(timestamp), U32Bytes(ssrc));
  }

  /** The extension part of MarshalTo for header h, from position n0 just
      after the CSRC list: the profile, the body for the profile, the length
      word back-filled with the body rounded up to whole words, then zero
      padding. An RFC 3550 payload that is not whole words stops it after
      the profile. */
  method PutExtensionBlock(buf: array<byte>, n0: nat, h: Header) returns (n: int, err: Option<RtpError>)
    requires h.extension && SizeDefined(h)
    requires n0 + RoundUp4(4 + BodySize(h)) <= buf.Length
    modifies buf
    ensures Unaligned(h) ==>
      n == 0 && err == Some(ShortBuffer) && buf[..] == Overlay(old(buf[..]), n0, U16Bytes(h.extensionProfile))
    ensures !Unaligned(h) ==>
      n == n0 + |ExtensionBlock(h)| && err == None && buf[..] == Overlay(old(buf[..]), n0, ExtensionBlock(h))
  {
    ghost var s := buf[..];
    RoundUp4Shift(BodySize(h));
    var extHeaderPos := n0;
    PutUint16(buf, n0, h.extensionProfile);
    n := n0 + 4;
    var startExtensionsPos := n;
    n, err := PutExtensionBody(buf, n, h);
    if err.Some? {
      return 0, err;
    }
    var extSize := n - startExtensionsPos;
    var roundedExtSize := ((extSize + 3) / 4) * 4;
    PutUint16(buf, extHeaderPos + 2, (roundedExtSize / 4) % 0x1_0000);
    ExtensionBlockWrites(h, s, n0, n, extSize, roundedExtSize, (roundedExtSize / 4) % 0x1_0000);
    n := PutZeros(buf, n, roundedExtSize - extSize);
  }

  /** The switch on the profile in MarshalTo: the RFC 8285 loops, or the
      first payload when it is whole words. */
  method PutExtensionBody(buf: array<byte>, at: nat, h: Header) returns (n: int, err: Option<RtpError>)
    requires h.extension && SizeDefined(h) && at + BodySize(h) <= buf.Length
    modifies buf
    ensures Unaligned(h) ==> err == Some(ShortBuffer) && buf[..] == old(buf[..])
    ensures !Unaligned(h) ==>
      err == None && n == at + |ExtensionBody(h)| && buf[..] == Overlay(old(buf[..]), at, ExtensionBody(h))
  {
    if h.extensionProfile == OneByteProfile {
      OneByteBodyLength(h.extensions);
      n := PutOneByteBody(buf, at, h.extensions);
    } else if h.extensionProfile == TwoByteProfile {
      TwoByteBodyLength(h.extensions);
      n := PutTwoByteBody(buf, at, h.extensions);
    } else {
      var extlen := |h.extensions[0].payload|;
      if extlen % 4 != 0 {
        return 0, Some(ShortBuffer);
      }
      var m := Copy(buf, at, h.extensions[0].payload);
      assert h.extensions[0].payload[..m] == h.extensions[0].payload;
      n := at + m;
    }
    err := None;
  }
}
