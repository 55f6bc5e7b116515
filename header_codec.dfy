/** The RTP header codec of pkg/av/rtp.go on values: what RtpHeader.Unmarshal
    makes of a buffer, the size RtpHeader.MarshalSize computes, and the bytes
    RtpHeader.MarshalTo writes. The fixed header and the CSRC list follow
    section 5.1 of RFC 3550, the extension block section 5.3.1 of RFC 3550
    and sections 4.2 and 4.3 of RFC 8285. */
module HeaderCodec {
  import opened Bits
  import opened Wire
  import opened RtpTypes
  import opened ExtensionCodec

  /** The outcome of RtpHeader.Unmarshal: the receiver's value afterwards,
      the returned byte count n and the returned error. */
  datatype Decoded = Decoded(header: Header, n: int, err: Option<RtpError>)

  /** The CSRC count: the low nibble of byte 0. */
  function CsrcCount(b0: byte): nat {
    Mask(b0, CcMask)
  }

  /** The zero-filled CSRC slice make([]uint32, count) allocates. */
  function Zeros32(count: nat): (r: seq<uint32>)
    ensures |r| == count && forall i :: 0 <= i < count ==> r[i] == 0
  {
    seq(count, _ => 0)
  }

  /** The CSRC identifiers, big-endian at 12, 16, 20, ... */
  function CsrcList(buf: seq<byte>, count: nat): (r: seq<uint32>)
    requires CsrcOffset + 4 * count <= |buf|
    ensures |r| == count
    ensures forall i :: 0 <= i < count ==> r[i] == U32At(buf, CsrcOffset + 4 * i)
  {
    seq(count, i requires 0 <= i < count => U32At(buf, CsrcOffset + 4 * i))
  }

  /** The profile switch of Unmarshal over the declared block [start, end):
      an RFC 8285 scan, or the whole block as one element with id 0. Only the
      extension list changes; scans may stop early or run out of input. */
  function DecodeExtensionBody(h: Header, buf: seq<byte>, start: int, end: int): (r: Decoded)
    requires 0 <= start <= end <= |buf|
  {
    if h.extensionProfile == OneByteProfile then
      var s := OneByteScan(buf, start, end, []);
      Decoded(h.(extensions := s.exts), s.n, s.err)
    else if h.extensionProfile == TwoByteProfile then
      var s := TwoByteScan(buf, start, end, []);
      Decoded(h.(extensions := s.exts), s.n, s.err)
    else
      Decoded(h.(extensions := [Extension(0, buf[start..end])]), end, None)
  }

  /** The extension part of Unmarshal, from the cursor n just after the CSRC
      list of a header whose X bit is set: the profile word, the length word
      and the body. The fields before the extension are left alone. */
  function ExtensionUnmarshal(h: Header, buf: seq<byte>, n: int): (r: Decoded)
    requires h.extension && 0 <= n <= |buf|
  {
    if |buf| < n + 4 then
      Decoded(h, n, Some(ExtensionSizeInsufficient(|buf|, n + 4)))
    else
      var h3 := h.(extensionProfile := U16At(buf, n));
      var extensionLength := U16At(buf, n + 2) * 4;
      if |buf| < n + 4 + extensionLength then
        Decoded(h3, n + 4, Some(ExtensionSizeInsufficient(|buf|, n + 4 + extensionLength)))
      else
        DecodeExtensionBody(h3, buf, n + 4, n + 4 + extensionLength)
  }

  /** The fields Unmarshal reads from byte 0: V, P and X, and a zero-filled
      CSRC list of CC entries. */
  function FirstFields(h: Header, b0: byte): (r: Header)
    ensures |r.csrc| == CsrcCount(b0) && r.extensionProfile == h.extensionProfile
  {
    h.(version := Mask(Shr(b0, VersionShift), VersionMask),
       padding := Mask(Shr(b0, PaddingShift), PaddingMask) > 0,
       extension := Mask(Shr(b0, ExtensionShift), ExtensionMask) > 0,
       csrc := Zeros32(CsrcCount(b0)))
  }

  /** The fields Unmarshal reads once the CSRC list is known to fit: the
      marker, payload type, sequence number, timestamp, SSRC and the CSRC
      list itself; the extension list is cleared. */
  function FixedFields(h: Header, buf: seq<byte>, count: nat): (r: Header)
    requires CsrcOffset + 4 * count <= |buf|
    ensures r.extension == h.extension && |r.csrc| == count && r.extensions == []
  {
    h.(marker := Mask(Shr(buf[1], MarkerShift), MarkerMask) > 0,
       payloadType := Mask(buf[1], PtMask),
       sequenceNumber := U16At(buf, SeqNumOffset),
       timestamp := U32At(buf, TimestampOffset),
       ssrc := U32At(buf, SsrcOffset),
       csrc := CsrcList(buf, count),
       extensions := [])
  }

  /** RtpHeader.Unmarshal(buf) on a receiver whose value is prior. Fields
      are assigned in the order of the source, so an error leaves the ones
      assigned so far; the profile is only read when the X bit is set. The
      CSRC list is allocated before the length check, zero-filled. */
  function HeaderUnmarshal(prior: Header, buf: seq<byte>): (r: Decoded)
  {
    if |buf| < HeaderLength then
      Decoded(prior, 0, Some(HeaderSizeInsufficient(|buf|, HeaderLength)))
    else
      var count := CsrcCount(buf[0]);
      var h1 := FirstFields(prior, buf[0]);
      var n := CsrcOffset + 4 * count;
      if |buf| < n then
        Decoded(h1, n, Some(HeaderSizeInsufficient(|buf|, n)))
      else
        var h2 := FixedFields(h1, buf, count);
        if !h2.extension then Decoded(h2, n, None)
        else ExtensionUnmarshal(h2, buf, n)
  }

  /** The profile switch changes only the extension list, leaves the cursor
      within the buffer, and fails only in an RFC 8285 scan that runs out of
      input. */
  lemma DecodeExtensionBodyOutcome(h: Header, buf: seq<byte>, start: int, end: int)
    requires 0 <= start <= end <= |buf|
    ensures var r := DecodeExtensionBody(h, buf, start, end);
      r.header == h.(extensions := r.header.extensions) && start <= r.n <= |buf| &&
      (r.err.Some? ==> r.err == Some(SliceOutOfRange) && !IsGenericProfile(h.extensionProfile)) &&
      (IsGenericProfile(h.extensionProfile) ==>
        r.header.extensions == [Extension(0, buf[start..end])] && r.n == end && r.err == None)
  {
    if h.extensionProfile == OneByteProfile {
      OneByteScanBounds(buf, start, end, []);
    } else if h.extensionProfile == TwoByteProfile {
      TwoByteScanBounds(buf, start, end, []);
    }
  }

  /** The extension part keeps the X bit and the CSRC list; it fails when
      the profile and length words or the declared block do not fit, or when
      an RFC 8285 scan runs out of input; on success the cursor stays within
      the buffer. */
  lemma ExtensionUnmarshalOutcome(h: Header, buf: seq<byte>, n: int)
    requires h.extension && 0 <= n <= |buf|
    ensures var r := ExtensionUnmarshal(h, buf, n);
      r.header.extension && r.header.csrc == h.csrc &&
      (r.err.Some? ==>
        match r.err.value
        case ExtensionSizeInsufficient(have, need) => have == |buf| < need
        case SliceOutOfRange => !IsGenericProfile(r.header.extensionProfile)
        case _ => false) &&
      (r.err.None? ==> n <= r.n <= |buf|) &&
      (|buf| < n + 4 <==> r.err == Some(ExtensionSizeInsufficient(|buf|, n + 4))) &&
      (|buf| < n + 4 ==> r.n == n) &&
      (n + 4 <= |buf| < n + 4 + 4 * U16At(buf, n + 2) ==> r.n == n + 4) &&
      (n + 4 <= |buf| ==>
        r.header.extensionProfile == U16At(buf, n) &&
        (|buf| < n + 4 + 4 * U16At(buf, n + 2) <==>
         r.err == Some(ExtensionSizeInsufficient(|buf|, n + 4 + 4 * U16At(buf, n + 2)))))
  {
    if |buf| >= n + 4 {
      var extensionLength := U16At(buf, n + 2) * 4;
      if |buf| >= n + 4 + extensionLength {
        DecodeExtensionBodyOutcome(h.(extensionProfile := U16At(buf, n)), buf, n + 4, n + 4 + extensionLength);
      }
    }
  }

  /** The errors of Unmarshal: a buffer shorter than the fixed header
      leaves the receiver untouched; a CSRC list that does not fit reports
      the size it needs; extension errors only with the X bit set. On
      success the CSRC list has CC entries and the cursor stays within the
      buffer. */
  lemma HeaderUnmarshalOutcome(prior: Header, buf: seq<byte>)
    ensures var r := HeaderUnmarshal(prior, buf);
      (|buf| < HeaderLength ==> r == Decoded(prior, 0, Some(HeaderSizeInsufficient(|buf|, HeaderLength)))) &&
      (HeaderLength <= |buf| < CsrcOffset + 4 * CsrcCount(buf[0]) ==>
        r.n == CsrcOffset + 4 * CsrcCount(buf[0]) &&
        r.err == Some(HeaderSizeInsufficient(|buf|, r.n))) &&
      (r.err.Some? ==>
        match r.err.value
        case HeaderSizeInsufficient(have, need) => have == |buf| < need
        case ExtensionSizeInsufficient(have, need) => r.header.extension && have == |buf| < need
        case SliceOutOfRange => r.header.extension && !IsGenericProfile(r.header.extensionProfile)
        case _ => false) &&
      (r.err.None? ==>
        |buf| >= HeaderLength && |r.header.csrc| == CsrcCount(buf[0]) &&
        CsrcOffset + 4 * |r.header.csrc| <= r.n <= |buf|)
  {
    if HeaderLength <= |buf| {
      var count := CsrcCount(buf[0]);
      if CsrcOffset + 4 * count <= |buf| {
        var h2 := FixedFields(FirstFields(prior, buf[0]), buf, count);
        if h2.extension {
          ExtensionUnmarshalOutcome(h2, buf, CsrcOffset + 4 * count);
        }
      }
    }
  }

  /** The fields Unmarshal decodes, as RFC 3550 section 5.1 lays them out:
      V in the top two bits of byte 0, then P, X and the four-bit CC; M in
      the top bit of byte 1 and the seven-bit PT; the big-endian sequence
      number, timestamp and SSRC at 2, 4 and 8; CC CSRC identifiers from 12,
      which stay zero when the list does not fit. */
  lemma HeaderUnmarshalFields(prior: Header, buf: seq<byte>)
    requires HeaderLength <= |buf|
    ensures var r := HeaderUnmarshal(prior, buf);
      r.header.version == buf[0] / 64 &&
      r.header.padding == (buf[0] / 32 % 2 == 1) &&
      r.header.extension == (buf[0] / 16 % 2 == 1) &&
      |r.header.csrc| == buf[0] % 16 &&
      (CsrcOffset + 4 * |r.header.csrc| <= |buf| ==>
        r.header.marker == (buf[1] >= 128) &&
        r.header.payloadType == buf[1] % 128 &&
        r.header.sequenceNumber == U16At(buf, 2) &&
        r.header.timestamp == U32At(buf, 4) &&
        r.header.ssrc == U32At(buf, 8) &&
        forall i :: 0 <= i < |r.header.csrc| ==> r.header.csrc[i] == U32At(buf, 12 + 4 * i)) &&
      (|buf| < CsrcOffset + 4 * |r.header.csrc| ==>
        forall i :: 0 <= i < |r.header.csrc| ==> r.header.csrc[i] == 0)
  {
    ShrValues(buf[0]);
    ShrValues(buf[1]);
    var count := CsrcCount(buf[0]);
    var n := CsrcOffset + 4 * count;
    if n <= |buf| {
      var h2 := FixedFields(FirstFields(prior, buf[0]), buf, count);
      HeaderUnmarshalFits(prior, buf, count, n, h2);
      if h2.extension {
        ExtensionUnmarshalHeader(h2, buf, n);
      }
    } else {
      HeaderUnmarshalShort(prior, buf, n, FirstFields(prior, buf[0]));
    }
  }

  /** The extension part changes only the profile and the extension list. */
  lemma ExtensionUnmarshalHeader(h: Header, buf: seq<byte>, n: int)
    requires h.extension && 0 <= n <= |buf|
    ensures var r := ExtensionUnmarshal(h, buf, n);
      r.header == h.(extensionProfile := r.header.extensionProfile, extensions := r.header.extensions)
  {
    if |buf| >= n + 4 {
      var extensionLength := U16At(buf, n + 2) * 4;
      if |buf| >= n + 4 + extensionLength {
        DecodeExtensionBodyOutcome(h.(extensionProfile := U16At(buf, n)), buf, n + 4, n + 4 + extensionLength);
      }
    }
  }

  /** MarshalSize and MarshalTo read Extensions[0] for an RFC 3550 profile,
      which panics when the list is empty. */
  predicate SizeDefined(h: Header) {
    h.extension && IsGenericProfile(h.extensionProfile) ==> |h.extensions| > 0
  }

  /** The extension body MarshalSize accounts for, after the 4-byte
      profile-and-length word. */
  function BodySize(h: Header): nat
    requires h.extension && SizeDefined(h)
  {
    if h.extensionProfile == OneByteProfile then OneByteBodySize(h.extensions)
    else if h.extensionProfile == TwoByteProfile then TwoByteBodySize(h.extensions)
    else |h.extensions[0].payload|
  }

  /** RtpHeader.MarshalSize: 12 bytes, 4 per CSRC, and, with the X bit, the
      extension block rounded up to a 32-bit boundary. */
  function HeaderSize(h: Header): (size: nat)
    requires SizeDefined(h)
    ensures size % 4 == 0
    ensures size >= CsrcOffset + 4 * |h.csrc|
    ensures !h.extension ==> size == CsrcOffset + 4 * |h.csrc|
  {
    CsrcOffset + 4 * |h.csrc| + (if h.extension then RoundUp4(4 + BodySize(h)) else 0)
  }

  /** Byte 0 as MarshalTo writes it: (Version << 6) | uint8(len(CSRC)) in
      uint8 arithmetic, unmasked, then the P and X bits OR'ed in. */
  function FirstByte(h: Header): byte {
    var b := Or8(U8(Shl(h.version, VersionShift)), U8(|h.csrc|));
    SetIf(SetIf(b, h.padding, PaddingShift), h.extension, ExtensionShift)
  }

  /** Byte 1: the payload type, unmasked, with the marker bit OR'ed in. */
  function SecondByte(h: Header): byte {
    SetIf(h.payloadType, h.marker, MarkerShift)
  }

  /** The 12 fixed bytes. */
  function FixedBytes(h: Header): (r: seq<byte>)
    ensures |r| == 12
  {
    [FirstByte(h), SecondByte(h)]
    + U16Bytes(h.sequenceNumber) + U32Bytes(h.timestamp) + U32Bytes(h.ssrc)
  }

  /** The CSRC identifiers, 4 big-endian bytes each, in list order. */
  function CsrcBytes(csrc: seq<uint32>): (r: seq<byte>)
    ensures |r| == 4 * |csrc|
  {
    if csrc == [] then [] else CsrcBytes(csrc[..|csrc| - 1]) + U32Bytes(csrc[|csrc| - 1])
  }

  /** One more identifier of the list written: its 4 bytes follow the
      prefix's. */
  lemma CsrcBytesStep(csrc: seq<uint32>, i: int)
    requires 0 <= i < |csrc|
    ensures CsrcBytes(csrc[..i + 1]) == CsrcBytes(csrc[..i]) + U32Bytes(csrc[i])
  {
    assert csrc[..i + 1][..i] == csrc[..i];
  }

  /** The i-th CSRC sits at bytes 4i to 4i+4 of the list. */
  lemma {:induction false} CsrcBytesAt(csrc: seq<uint32>, i: int)
    requires 0 <= i < |csrc|
    ensures CsrcBytes(csrc)[4 * i..4 * i + 4] == U32Bytes(csrc[i])
    decreases |csrc|
  {
    var init := csrc[..|csrc| - 1];
    assert CsrcBytes(csrc) == CsrcBytes(init) + U32Bytes(csrc[|csrc| - 1]);
    if i < |csrc| - 1 {
      CsrcBytesAt(init, i);
      assert CsrcBytes(csrc)[4 * i..4 * i + 4] == CsrcBytes(init)[4 * i..4 * i + 4];
    } else {
      assert CsrcBytes(csrc)[4 * i..4 * i + 4] == CsrcBytes(csrc)[|CsrcBytes(init)|..];
    }
  }

  /** The extension body MarshalTo writes: the RFC 8285 units of every
      element, or for any other profile the payload of the first element
      alone. */
  function ExtensionBody(h: Header): (body: seq<byte>)
    requires h.extension && SizeDefined(h)
    ensures |body| == BodySize(h)
  {
    OneByteBodyLength(h.extensions);
    TwoByteBodyLength(h.extensions);
    if h.extensionProfile == OneByteProfile then OneByteBody(h.extensions)
    else if h.extensionProfile == TwoByteProfile then TwoByteBody(h.extensions)
    else h.extensions[0].payload
  }

  /** The extension block: profile, length in 32-bit words (back-filled as
      uint16, so it wraps), body, and zero bytes up to the word boundary. */
  function ExtensionBlock(h: Header): (block: seq<byte>)
    requires h.extension && SizeDefined(h)
    ensures |block| == RoundUp4(4 + BodySize(h))
  {
    var body := ExtensionBody(h);
    var rounded := RoundUp4(|body|);
    U16Bytes(h.extensionProfile) + U16Bytes((rounded / 4) % 0x1_0000)
    + body + Zeros(rounded - |body|)
  }

  /** The bytes a successful MarshalTo writes. Their number is exactly what
      MarshalSize computes. */
  function HeaderBytes(h: Header): (r: seq<byte>)
    requires SizeDefined(h)
    ensures |r| == HeaderSize(h)
  {
    FixedBytes(h) + CsrcBytes(h.csrc) + (if h.extension then ExtensionBlock(h) else [])
  }

  /** An RFC 3550 extension whose payload is not whole 32-bit words, which
      MarshalTo refuses. */
  predicate Unaligned(h: Header) {
    h.extension && IsGenericProfile(h.extensionProfile) && |h.extensions| > 0
    && |h.extensions[0].payload| % 4 != 0
  }

  /** What MarshalTo has written when it refuses an unaligned payload: the
      fixed header, the CSRC list and the profile. */
  function UnalignedPrefix(h: Header): (r: seq<byte>)
    ensures |r| == CsrcOffset + 4 * |h.csrc| + 2
  {
    FixedBytes(h) + CsrcBytes(h.csrc) + U16Bytes(h.extensionProfile)
  }

  /** The outcome of a MarshalTo: the returned count and error and the
      destination buffer's contents afterwards. */
  datatype Written = Written(n: int, err: Option<RtpError>, buf: seq<byte>)

  /** RtpHeader.MarshalTo(buf) on a header whose value is h: ShortBuffer if
      buf is smaller than MarshalSize, ShortBuffer again, after the first
      bytes are written, for an unaligned RFC 3550 payload; otherwise
      HeaderBytes(h) over the front of buf. */
  function HeaderMarshalInto(h: Header, buf: seq<byte>): (r: Written)
    requires SizeDefined(h)
    ensures |r.buf| == |buf|
  {
    var size := HeaderSize(h);
    if size > |buf| then Written(0, Some(ShortBuffer), buf)
    else if Unaligned(h) then Written(0, Some(ShortBuffer), Overlay(buf, 0, UnalignedPrefix(h)))
    else Written(size, None, Overlay(buf, 0, HeaderBytes(h)))
  }

  /** MarshalTo succeeds exactly when the buffer holds MarshalSize() bytes
      and the header is not an unaligned RFC 3550 one; it then returns
      MarshalSize() and has written the header bytes and nothing past them.
      Every failure is ErrShortBuffer with a count of 0, and a buffer that
      is too small is left untouched. */
  lemma HeaderMarshalIntoOutcome(h: Header, buf: seq<byte>)
    requires SizeDefined(h)
    ensures var r := HeaderMarshalInto(h, buf);
      (r.err.None? <==> HeaderSize(h) <= |buf| && !Unaligned(h)) &&
      (r.err.Some? ==> r.n == 0 && r.err == Some(ShortBuffer)) &&
      (r.err.None? ==>
        r.n == HeaderSize(h) && r.buf[..r.n] == HeaderBytes(h) && r.buf[r.n..] == buf[r.n..]) &&
      (HeaderSize(h) > |buf| ==> r.buf == buf)
  {
    if HeaderSize(h) <= |buf| && !Unaligned(h) {
      OverlayParts(buf, 0, HeaderBytes(h));
    }
  }

  /** The extension block in terms of its body and the body's rounded
      length, as MarshalTo assembles it. */
  lemma ExtensionBlockShape(h: Header, body: seq<byte>, rounded: nat)
    requires h.extension && SizeDefined(h)
    requires body == ExtensionBody(h) && rounded == RoundUp4(|body|)
    ensures ExtensionBlock(h) ==
      U16Bytes(h.extensionProfile) + U16Bytes((rounded / 4) % 0x1_0000) + body + Zeros(rounded - |body|)
  {
  }

  /** MarshalTo's writes of the extension block in their order: profile,
      body after the length word, the length word, then zero padding. They
      leave the block over s at n0. */
  lemma ExtensionBlockWrites(h: Header, s: seq<byte>, n0: nat, end: nat, extSize: nat, rounded: nat, words: uint16)
    requires h.extension && SizeDefined(h) && n0 + |ExtensionBlock(h)| <= |s|
    requires extSize == |ExtensionBody(h)| && end == n0 + 4 + extSize
    requires rounded == RoundUp4(extSize) && words == (rounded / 4) % 0x1_0000
    ensures Overlay(Overlay(Overlay(Overlay(s, n0, U16Bytes(h.extensionProfile)), n0 + 4, ExtensionBody(h)),
                            n0 + 2, U16Bytes(words)),
                    end, Zeros(rounded - extSize))
            == Overlay(s, n0, ExtensionBlock(h))
  {
    RoundUp4Shift(extSize);
    BackFill(s, n0, U16Bytes(h.extensionProfile), ExtensionBody(h), U16Bytes(words), Zeros(rounded - extSize));
    ExtensionBlockShape(h, ExtensionBody(h), rounded);
  }


  /** The three ways MarshalTo's writes end for a buffer of MarshalSize()
      bytes (the fixed bytes and CSRC list alone; then the profile of a
      refused RFC 3550 payload; then the whole extension block) give what
      HeaderMarshalInto returns. */
  lemma HeaderWritten(h: Header, s: seq<byte>, n: int, err: Option<RtpError>, b: seq<byte>)
    requires SizeDefined(h) && HeaderSize(h) <= |s|
    requires !h.extension ==>
      n == 12 + 4 * |h.csrc| && err == None && b == Overlay(s, 0, FixedBytes(h) + CsrcBytes(h.csrc))
    requires h.extension && Unaligned(h) ==>
      n == 0 && err == Some(ShortBuffer) &&
      b == Overlay(Overlay(s, 0, FixedBytes(h) + CsrcBytes(h.csrc)), 12 + 4 * |h.csrc|, U16Bytes(h.extensionProfile))
    requires h.extension && !Unaligned(h) ==>
      n == 12 + 4 * |h.csrc| + |ExtensionBlock(h)| && err == None &&
      b == Overlay(Overlay(s, 0, FixedBytes(h) + CsrcBytes(h.csrc)), 12 + 4 * |h.csrc|, ExtensionBlock(h))
    ensures Written(n, err, b) == HeaderMarshalInto(h, s)
  {
    var prefix := FixedBytes(h) + CsrcBytes(h.csrc);
    if !h.extension {
      assert HeaderBytes(h) == prefix;
    } else if Unaligned(h) {
      OverlayAdjacent(s, 0, prefix, U16Bytes(h.extensionProfile));
      assert UnalignedPrefix(h) == prefix + U16Bytes(h.extensionProfile);
    } else {
      OverlayAdjacent(s, 0, prefix, ExtensionBlock(h));
      assert HeaderBytes(h) == prefix + ExtensionBlock(h);
    }
  }

  /** The length word and the padding of the extension block: the word count
      is MarshalSize's body sum rounded up to whole words (modulo 2^16), and
      the bytes from the body end to the boundary are zero. */
  lemma ExtensionBlockLayout(h: Header)
    requires h.extension && SizeDefined(h)
    ensures var bytes := HeaderBytes(h);
      var pos := CsrcOffset + 4 * |h.csrc|;
      U16At(bytes, pos + 2) == (RoundUp4(BodySize(h)) / 4) % 0x1_0000 &&
      forall k :: pos + 4 + BodySize(h) <= k < pos + 4 + RoundUp4(BodySize(h)) ==> bytes[k] == 0
  {
    var bytes := HeaderBytes(h);
    var pos := CsrcOffset + 4 * |h.csrc|;
    var body := ExtensionBody(h);
    var rounded := RoundUp4(|body|);
    var words := (rounded / 4) % 0x1_0000;
    assert bytes == (FixedBytes(h) + CsrcBytes(h.csrc)) + ExtensionBlock(h);
    assert bytes[pos + 2..pos + 4] == U16Bytes(words);
    U16RoundTrip(words, bytes, pos + 2);
    assert forall k :: pos + 4 + |body| <= k < pos + 4 + rounded ==>
      bytes[k] == Zeros(rounded - |body|)[k - pos - 4 - |body|];
  }

  /** A header MarshalTo writes and Unmarshal reads back exactly: version,
      payload type and CSRC count within their bit fields, one-byte ids 1 to
      14 with 1 to 16 payload bytes, two-byte ids other than 0 with at most
      255 bytes, an RFC 3550 profile with a single id-0 extension of whole
      words, a word count that fits in 16 bits, and no extension list when
      the X bit is clear. */
  predicate WellFormed(h: Header) {
    h.version <= 3 && h.payloadType <= 0x7F && |h.csrc| <= 15
    && (!h.extension ==> h.extensions == [])
    && (h.extension ==>
          (if h.extensionProfile == OneByteProfile then
             forall i :: 0 <= i < |h.extensions| ==> OneByteWellFormed(h.extensions[i])
           else if h.extensionProfile == TwoByteProfile then
             forall i :: 0 <= i < |h.extensions| ==> TwoByteShape(h.extensions[i])
           else
             |h.extensions| == 1 && h.extensions[0].id == 0 && |h.extensions[0].payload| % 4 == 0)
          && RoundUp4(BodySize(h)) / 4 < 0x1_0000)
  }

  /** (v << 6) | c for a 2-bit v and a 4-bit c is v above bit 6 plus c. */
  lemma FirstByteHead(v: byte, c: byte)
    requires v <= 3 && c <= 15
    ensures Or8(U8(Shl(v, VersionShift)), U8(c)) == 64 * v + c
  {
    ShlValues(v);
    assert U8(Shl(v, 6)) == Shl(v, 6) && U8(c) == c;
    assert Shl(0, 6) + c == c && Or(v, 0) == v;
    OrBelow(v, 0, c, 6);
  }

  /** OR'ing in the P bit (bit 5) of a byte with bit 5 clear adds 32. */
  lemma PaddingBit(b: byte, v: nat, c: nat, p: bool)
    requires v <= 3 && c <= 15 && b == 64 * v + c
    ensures SetIf(b, p, PaddingShift) == 64 * v + (if p then 32 else 0) + c
  {
    ShlValues(2 * v);
    ShlValues(2 * v + (if p then 1 else 0));
    SetBit(v, c, 5, p);
  }

  /** OR'ing in the X bit (bit 4) of a byte with bit 4 clear adds 16. */
  lemma ExtensionBit(b: byte, q: nat, c: nat, x: bool)
    requires q <= 7 && c <= 15 && b == 32 * q + c
    ensures SetIf(b, x, ExtensionShift) == 32 * q + (if x then 16 else 0) + c
  {
    ShlValues(2 * q);
    ShlValues(2 * q + (if x then 1 else 0));
    SetBit(q, c, 4, x);
  }

  /** The bit fields of a byte laid out as V, P, X and CC. */
  lemma FirstByteFields(v: nat, c: nat, p: nat, x: nat, b: byte)
    requires v <= 3 && c <= 15 && p <= 1 && x <= 1
    requires b == 64 * v + 32 * p + 16 * x + c
    ensures Mask(Shr(b, VersionShift), VersionMask) == v
    ensures Mask(Shr(b, PaddingShift), PaddingMask) == p
    ensures Mask(Shr(b, ExtensionShift), ExtensionMask) == x
    ensures Mask(b, CcMask) == c
  {
    VersionField(b, v, 32 * p + 16 * x + c);
    FlagField(b, PaddingShift, 32, v, 16 * x + c, p);
    FlagField(b, ExtensionShift, 16, 2 * v + p, c, x);
    HighBits(b, 16, 4 * v + 2 * p + x, c);
  }

  /** The two bits above bit 5 of b. */
  lemma VersionField(b: byte, v: nat, lo: nat)
    requires v <= 3 && lo < 64 && b == 64 * v + lo
    ensures Mask(Shr(b, VersionShift), VersionMask) == v
  {
    ShrValues(b);
    HighBits(b, 64, v, lo);
  }

  /** Bit k of b, for k one of the flag positions 4 and 5. */
  lemma FlagField(b: byte, k: nat, d: nat, above: nat, lo: nat, bit: nat)
    requires (k == 4 && d == 16) || (k == 5 && d == 32)
    requires lo < d && bit <= 1 && b == d * (2 * above + bit) + lo
    ensures Mask(Shr(b, k), 1) == bit
  {
    ShrValues(b);
    HighBits(b, d, 2 * above + bit, lo);
    LowBit(above, bit);
  }

  lemma LowBit(above: nat, bit: nat)
    requires bit <= 1
    ensures Mask(2 * above + bit, 1) == bit
  {
  }


  /** Byte 0 as MarshalTo writes it reads back as V, P, X and CC. */
  lemma FirstByteRoundTrip(h: Header, b: byte)
    requires h.version <= 3 && |h.csrc| <= 15 && b == FirstByte(h)
    ensures CsrcCount(b) == |h.csrc|
    ensures Mask(Shr(b, VersionShift), VersionMask) == h.version
    ensures (Mask(Shr(b, PaddingShift), PaddingMask) > 0) == h.padding
    ensures (Mask(Shr(b, ExtensionShift), ExtensionMask) > 0) == h.extension
  {
    var c := |h.csrc|;
    var p := if h.padding then 1 else 0;
    var x := if h.extension then 1 else 0;
    var b1 := Or8(U8(Shl(h.version, VersionShift)), U8(c));
    FirstByteHead(h.version, c);
    var b2 := SetIf(b1, h.padding, PaddingShift);
    PaddingBit(b1, h.version, c, h.padding);
    ExtensionBit(b2, 2 * h.version + p, c, h.extension);
    assert b == SetIf(b2, h.extension, ExtensionShift);
    assert b == 64 * h.version + 32 * p + 16 * x + c;
    FirstByteFields(h.version, c, p, x, b);
  }

  /** Byte 1 as MarshalTo writes it reads back as M and PT. */
  lemma SecondByteRoundTrip(h: Header, b: byte)
    requires h.payloadType <= 0x7F && b == SecondByte(h)
    ensures (Mask(Shr(b, MarkerShift), MarkerMask) > 0) == h.marker
    ensures Mask(b, PtMask) == h.payloadType
  {
    var pt := h.payloadType;
    var m := if h.marker then 1 else 0;
    assert Shl(2 * 0, 7) == 0 && Shl(m, 7) == 128 * m;
    SetBit(0, pt, 7, h.marker);
    assert b == 128 * m + pt;
    ShrValues(b);
  }

  /** The fixed header MarshalTo writes reads back as the fields written. */
  lemma FixedRoundTrip(h: Header, buf: seq<byte>)
    requires h.version <= 3 && h.payloadType <= 0x7F && |h.csrc| <= 15
    requires 12 <= |buf| && buf[..12] == FixedBytes(h)
    ensures CsrcCount(buf[0]) == |h.csrc|
    ensures Mask(Shr(buf[0], VersionShift), VersionMask) == h.version
    ensures (Mask(Shr(buf[0], PaddingShift), PaddingMask) > 0) == h.padding
    ensures (Mask(Shr(buf[0], ExtensionShift), ExtensionMask) > 0) == h.extension
    ensures (Mask(Shr(buf[1], MarkerShift), MarkerMask) > 0) == h.marker
    ensures Mask(buf[1], PtMask) == h.payloadType
    ensures U16At(buf, SeqNumOffset) == h.sequenceNumber
    ensures U32At(buf, TimestampOffset) == h.timestamp
    ensures U32At(buf, SsrcOffset) == h.ssrc
  {
    var f := FixedBytes(h);
    assert buf[0] == f[0] == FirstByte(h) && buf[1] == f[1] == SecondByte(h);
    FirstByteRoundTrip(h, buf[0]);
    SecondByteRoundTrip(h, buf[1]);
    assert f == [FirstByte(h), SecondByte(h)] + U16Bytes(h.sequenceNumber) + (U32Bytes(h.timestamp) + U32Bytes(h.ssrc));
    SplitAt(buf, 0, [FirstByte(h), SecondByte(h)], U16Bytes(h.sequenceNumber) + (U32Bytes(h.timestamp) + U32Bytes(h.ssrc)));
    SplitAt(buf, 2, U16Bytes(h.sequenceNumber), U32Bytes(h.timestamp) + U32Bytes(h.ssrc));
    SplitAt(buf, 4, U32Bytes(h.timestamp), U32Bytes(h.ssrc));
    U16RoundTrip(h.sequenceNumber, buf, SeqNumOffset);
    U32RoundTrip(h.timestamp, buf, TimestampOffset);
    U32RoundTrip(h.ssrc, buf, SsrcOffset);
  }

  /** The i-th CSRC MarshalTo writes reads back as that CSRC. */
  lemma CsrcAtRoundTrip(csrc: seq<uint32>, buf: seq<byte>, i: int)
    requires CsrcOffset + 4 * |csrc| <= |buf|
    requires buf[CsrcOffset..CsrcOffset + 4 * |csrc|] == CsrcBytes(csrc)
    requires 0 <= i < |csrc|
    ensures U32At(buf, CsrcOffset + 4 * i) == csrc[i]
  {
    CsrcWindow(csrc, buf, i);
    U32RoundTrip(csrc[i], buf, CsrcOffset + 4 * i);
  }

  /** The four bytes of the i-th CSRC in a buffer holding the list. */
  lemma CsrcWindow(csrc: seq<uint32>, buf: seq<byte>, i: int)
    requires CsrcOffset + 4 * |csrc| <= |buf|
    requires buf[CsrcOffset..CsrcOffset + 4 * |csrc|] == CsrcBytes(csrc)
    requires 0 <= i < |csrc|
    ensures buf[CsrcOffset + 4 * i..CsrcOffset + 4 * i + 4] == U32Bytes(csrc[i])
  {
    CsrcBytesAt(csrc, i);
    SubWindow(buf, CsrcOffset, CsrcBytes(csrc), 4 * i, 4 * i + 4);
  }

  /** The CSRC list MarshalTo writes reads back in the same order. */
  lemma CsrcRoundTrip(csrc: seq<uint32>, buf: seq<byte>)
    requires CsrcOffset + 4 * |csrc| <= |buf|
    requires buf[CsrcOffset..CsrcOffset + 4 * |csrc|] == CsrcBytes(csrc)
    ensures CsrcList(buf, |csrc|) == csrc
  {
    var list := CsrcList(buf, |csrc|);
    forall i | 0 <= i < |csrc|
      ensures list[i] == csrc[i]
    {
      CsrcAtRoundTrip(csrc, buf, i);
    }
    assert list == csrc;
  }

  /** The extension block at pos holds the profile, the length word, the
      body and zero padding, each at its offset. */
  lemma ExtensionBlockParts(h: Header, buf: seq<byte>, pos: nat)
    requires h.extension && SizeDefined(h)
    requires pos + |ExtensionBlock(h)| <= |buf|
    requires buf[pos..pos + |ExtensionBlock(h)|] == ExtensionBlock(h)
    ensures var body := ExtensionBody(h);
      var rounded := RoundUp4(|body|);
      |ExtensionBlock(h)| == 4 + rounded &&
      U16At(buf, pos) == h.extensionProfile &&
      U16At(buf, pos + 2) == (rounded / 4) % 0x1_0000 &&
      buf[pos + 4..pos + 4 + |body|] == body &&
      buf[pos + 4 + |body|..pos + 4 + rounded] == Zeros(rounded - |body|)
  {
    var body := ExtensionBody(h);
    var rounded := RoundUp4(|body|);
    var words := (rounded / 4) % 0x1_0000;
    var pad := Zeros(rounded - |body|);
    RoundUp4Shift(|body|);
    assert ExtensionBlock(h) == U16Bytes(h.extensionProfile) + (U16Bytes(words) + (body + pad));
    SplitAt(buf, pos, U16Bytes(h.extensionProfile), U16Bytes(words) + (body + pad));
    SplitAt(buf, pos + 2, U16Bytes(words), body + pad);
    SplitAt(buf, pos + 4, body, pad);
    U16RoundTrip(h.extensionProfile, buf, pos);
    U16RoundTrip(words, buf, pos + 2);
  }

  /** A body MarshalTo writes for a well-formed header, followed by zero
      padding up to end, decodes back to the header's elements with the
      cursor at end. */
  lemma ExtensionBodyRoundTrip(h: Header, buf: seq<byte>, start: nat, end: nat)
    requires WellFormed(h) && h.extension
    requires start + |ExtensionBody(h)| <= end <= |buf|
    requires buf[start..start + |ExtensionBody(h)|] == ExtensionBody(h)
    requires buf[start + |ExtensionBody(h)|..end] == Zeros(end - start - |ExtensionBody(h)|)
    requires IsGenericProfile(h.extensionProfile) ==> end == start + |ExtensionBody(h)|
    ensures DecodeExtensionBody(h.(extensions := []), buf, start, end) == Decoded(h, end, None)
  {
    var mid := start + |ExtensionBody(h)|;
    if h.extensionProfile == OneByteProfile {
      OneByteRoundTrip(buf, start, mid, end, h.extensions, []);
      assert [] + h.extensions == h.extensions;
    } else if h.extensionProfile == TwoByteProfile {
      TwoByteRoundTrip(buf, start, mid, end, h.extensions, []);
      assert [] + h.extensions == h.extensions;
    } else {
      assert h.extensions == [Extension(0, buf[start..end])];
    }
  }

  /** The length word of the block at pos counts the words after it, as
      long as that count fits in 16 bits. */
  lemma LengthWordRoundTrip(h: Header, buf: seq<byte>, pos: nat)
    requires h.extension && SizeDefined(h) && RoundUp4(BodySize(h)) / 4 < 0x1_0000
    requires pos + |ExtensionBlock(h)| <= |buf|
    requires buf[pos..pos + |ExtensionBlock(h)|] == ExtensionBlock(h)
    ensures U16At(buf, pos) == h.extensionProfile
    ensures U16At(buf, pos + 2) * 4 == |ExtensionBlock(h)| - 4
    ensures buf[pos + 4..pos + 4 + |ExtensionBody(h)|] == ExtensionBody(h)
    ensures buf[pos + 4 + |ExtensionBody(h)|..pos + |ExtensionBlock(h)|]
            == Zeros(|ExtensionBlock(h)| - 4 - |ExtensionBody(h)|)
  {
    var body := ExtensionBody(h);
    var rounded := RoundUp4(|body|);
    ExtensionBlockParts(h, buf, pos);
    RoundUp4Exact(rounded);
    assert (rounded / 4) % 0x1_0000 == rounded / 4;
  }

  /** The extension block MarshalTo writes at pos reads back as the
      profile, the elements written and a cursor at the end of the block. */
  lemma ExtensionRoundTrip(h: Header, buf: seq<byte>, pos: nat)
    requires WellFormed(h) && h.extension
    requires pos + |ExtensionBlock(h)| <= |buf|
    requires buf[pos..pos + |ExtensionBlock(h)|] == ExtensionBlock(h)
    ensures U16At(buf, pos) == h.extensionProfile
    ensures U16At(buf, pos + 2) * 4 == |ExtensionBlock(h)| - 4
    ensures DecodeExtensionBody(h.(extensions := []), buf, pos + 4, pos + |ExtensionBlock(h)|)
            == Decoded(h, pos + |ExtensionBlock(h)|, None)
  {
    LengthWordRoundTrip(h, buf, pos);
    if IsGenericProfile(h.extensionProfile) {
      RoundUp4Exact(|ExtensionBody(h)|);
      RoundUp4Shift(|ExtensionBody(h)|);
    }
    ExtensionBodyRoundTrip(h, buf, pos + 4, pos + |ExtensionBlock(h)|);
  }

  /** The fixed header and CSRC list MarshalTo writes read back as every
      field of h before the extension; the extension list is cleared and the
      profile is still the receiver's. */
  lemma PrefixRoundTrip(prior: Header, h: Header, buf: seq<byte>)
    requires h.version <= 3 && h.payloadType <= 0x7F && |h.csrc| <= 15
    requires CsrcOffset + 4 * |h.csrc| <= |buf|
    requires buf[..12] == FixedBytes(h)
    requires buf[CsrcOffset..CsrcOffset + 4 * |h.csrc|] == CsrcBytes(h.csrc)
    ensures CsrcCount(buf[0]) == |h.csrc|
    ensures FixedFields(FirstFields(prior, buf[0]), buf, |h.csrc|)
            == h.(extensionProfile := prior.extensionProfile, extensions := [])
  {
    FixedRoundTrip(h, buf);
    CsrcRoundTrip(h.csrc, buf);
  }

  /** The extension block MarshalTo writes after the CSRC list reads back
      as h's profile and elements, whatever profile the receiver held. */
  lemma ExtensionUnmarshalRoundTrip(prior: Header, h: Header, buf: seq<byte>, pos: nat)
    requires WellFormed(h) && h.extension
    requires pos + |ExtensionBlock(h)| <= |buf|
    requires buf[pos..pos + |ExtensionBlock(h)|] == ExtensionBlock(h)
    ensures ExtensionUnmarshal(h.(extensionProfile := prior.extensionProfile, extensions := []), buf, pos)
            == Decoded(h, pos + |ExtensionBlock(h)|, None)
  {
    ExtensionRoundTrip(h, buf, pos);
    var g := h.(extensionProfile := prior.extensionProfile, extensions := []);
    ExtensionUnmarshalFits(g, buf, pos);
    assert g.(extensionProfile := U16At(buf, pos)) == h.(extensions := []);
  }

  /** The extension part on a buffer that holds the profile and length words
      and the whole block they declare: the profile is assigned and the
      body is decoded. */
  lemma ExtensionUnmarshalFits(g: Header, buf: seq<byte>, pos: nat)
    requires g.extension && pos + 4 <= |buf| && pos + 4 + U16At(buf, pos + 2) * 4 <= |buf|
    ensures ExtensionUnmarshal(g, buf, pos)
            == DecodeExtensionBody(g.(extensionProfile := U16At(buf, pos)), buf, pos + 4,
                                   pos + 4 + U16At(buf, pos + 2) * 4)
  {
  }

  /** Unmarshal(Marshal(h)) for a well-formed h, whatever follows the header
      in the buffer and whatever the receiver held before: it succeeds,
      consumes MarshalSize() bytes and yields every field of h. The profile
      is the receiver's old one when the X bit is clear, as Unmarshal does
      not assign it then. */
  lemma HeaderRoundTrip(prior: Header, h: Header, buf: seq<byte>)
    requires WellFormed(h)
    requires HeaderSize(h) <= |buf| && buf[..HeaderSize(h)] == HeaderBytes(h)
    ensures HeaderUnmarshal(prior, buf) ==
      Decoded(h.(extensionProfile := if h.extension then h.extensionProfile else prior.extensionProfile),
              HeaderSize(h), None)
  {
    var pos := CsrcOffset + 4 * |h.csrc|;
    HeaderBytesLayout(h, buf);
    if h.extension {
      ExtendedHeaderRoundTrip(prior, h, buf);
      assert HeaderSize(h) == pos + |ExtensionBlock(h)|;
    } else {
      PlainHeaderRoundTrip(prior, h, buf);
      assert HeaderSize(h) == pos;
    }
  }

  /** Unmarshal of a header without the X bit: the fixed header and the
      CSRC list, and nothing else is consumed. */
  lemma PlainHeaderRoundTrip(prior: Header, h: Header, buf: seq<byte>)
    requires h.version <= 3 && h.payloadType <= 0x7F && |h.csrc| <= 15
    requires !h.extension && h.extensions == []
    requires CsrcOffset + 4 * |h.csrc| <= |buf|
    requires buf[..12] == FixedBytes(h)
    requires buf[CsrcOffset..CsrcOffset + 4 * |h.csrc|] == CsrcBytes(h.csrc)
    ensures HeaderUnmarshal(prior, buf) ==
      Decoded(h.(extensionProfile := prior.extensionProfile), CsrcOffset + 4 * |h.csrc|, None)
  {
    PrefixRoundTrip(prior, h, buf);
    HeaderUnmarshalFits(prior, buf, |h.csrc|, CsrcOffset + 4 * |h.csrc|, FixedFields(FirstFields(prior, buf[0]), buf, |h.csrc|));
  }

  /** Unmarshal of a header with the X bit: the fixed header, the CSRC list
      and the whole extension block. */
  lemma ExtendedHeaderRoundTrip(prior: Header, h: Header, buf: seq<byte>)
    requires WellFormed(h) && h.extension
    requires CsrcOffset + 4 * |h.csrc| + |ExtensionBlock(h)| <= |buf|
    requires buf[..12] == FixedBytes(h)
    requires buf[CsrcOffset..CsrcOffset + 4 * |h.csrc|] == CsrcBytes(h.csrc)
    requires var pos := CsrcOffset + 4 * |h.csrc|;
      buf[pos..pos + |ExtensionBlock(h)|] == ExtensionBlock(h)
    ensures HeaderUnmarshal(prior, buf) ==
      Decoded(h, CsrcOffset + 4 * |h.csrc| + |ExtensionBlock(h)|, None)
  {
    var pos := CsrcOffset + 4 * |h.csrc|;
    var g := h.(extensionProfile := prior.extensionProfile, extensions := []);
    var r := Decoded(h, pos + |ExtensionBlock(h)|, None);
    assert CsrcCount(buf[0]) == |h.csrc| && FixedFields(FirstFields(prior, buf[0]), buf, |h.csrc|) == g
           && ExtensionUnmarshal(g, buf, pos) == r by {
      PrefixRoundTrip(prior, h, buf);
      ExtensionUnmarshalRoundTrip(prior, h, buf, pos);
    }
    HeaderUnmarshalExtended(prior, h, buf, r);
  }

  /** When the fixed header and the CSRC list of h fit and the X bit is set,
      the outcome of Unmarshal is that of its extension part, read from
      where the CSRC list ends. */
  lemma HeaderUnmarshalExtended(prior: Header, h: Header, buf: seq<byte>, r: Decoded)
    requires h.extension && CsrcOffset + 4 * |h.csrc| <= |buf| && CsrcCount(buf[0]) == |h.csrc|
    requires FixedFields(FirstFields(prior, buf[0]), buf, |h.csrc|)
             == h.(extensionProfile := prior.extensionProfile, extensions := [])
    requires ExtensionUnmarshal(h.(extensionProfile := prior.extensionProfile, extensions := []),
                                buf, CsrcOffset + 4 * |h.csrc|) == r
    ensures HeaderUnmarshal(prior, buf) == r
  {
    HeaderUnmarshalFits(prior, buf, |h.csrc|, CsrcOffset + 4 * |h.csrc|, h.(extensionProfile := prior.extensionProfile, extensions := []));
  }

  lemma HeaderBytesLayout(h: Header, buf: seq<byte>)
    requires SizeDefined(h)
    requires HeaderSize(h) <= |buf| && buf[..HeaderSize(h)] == HeaderBytes(h)
    ensures buf[..12] == FixedBytes(h)
    ensures buf[CsrcOffset..CsrcOffset + 4 * |h.csrc|] == CsrcBytes(h.csrc)
    ensures h.extension ==>
      var pos := CsrcOffset + 4 * |h.csrc|;
      pos + |ExtensionBlock(h)| <= |buf| && buf[pos..pos + |ExtensionBlock(h)|] == ExtensionBlock(h)
  {
    var ext := if h.extension then ExtensionBlock(h) else [];
    assert buf[0..HeaderSize(h)] == buf[..HeaderSize(h)];
    SplitAt(buf, 0, FixedBytes(h) + CsrcBytes(h.csrc), ext);
    SplitAt(buf, 0, FixedBytes(h), CsrcBytes(h.csrc));
    assert buf[..12] == buf[0..12];
  }

  /** Unmarshal on a buffer that holds the fixed header and the CSRC list it
      declares: the fields up to the CSRC list, then the extension part when
      the X bit is set. */
  lemma HeaderUnmarshalFits(prior: Header, buf: seq<byte>, count: nat, n: int, h2: Header)
    requires HeaderLength <= |buf| && count == CsrcCount(buf[0])
    requires n == CsrcOffset + 4 * count && n <= |buf|
    requires h2 == FixedFields(FirstFields(prior, buf[0]), buf, count)
    ensures HeaderUnmarshal(prior, buf) ==
      if !h2.extension then Decoded(h2, n, None) else ExtensionUnmarshal(h2, buf, n)
  {
  }

  /** The decode that stops because the CSRC list does not fit. */
  lemma HeaderUnmarshalShort(prior: Header, buf: seq<byte>, n: int, h1: Header)
    requires HeaderLength <= |buf| && n == CsrcOffset + 4 * CsrcCount(buf[0]) && |buf| < n
    requires h1 == FirstFields(prior, buf[0])
    ensures HeaderUnmarshal(prior, buf) == Decoded(h1, n, Some(HeaderSizeInsufficient(|buf|, n)))
  {
  }

  /** The outcome of a Marshal: the bytes returned, nil on error. */
  datatype Marshaled = Marshaled(bytes: seq<byte>, err: Option<RtpError>)

  /** RtpHeader.Marshal: MarshalTo into a fresh zeroed buffer of
      MarshalSize() bytes, cut to the count it returns. */
  function HeaderMarshal(h: Header): Marshaled
    requires SizeDefined(h)
  {
    var w := HeaderMarshalInto(h, Zeros(HeaderSize(h)));
    if w.err.Some? then Marshaled([], w.err) else Marshaled(w.buf[..w.n], None)
  }

  /** Marshal yields exactly the header bytes, or ErrShortBuffer for an RFC
      3550 payload that is not whole words. */
  lemma HeaderMarshalBytes(h: Header)
    requires SizeDefined(h)
    ensures HeaderMarshal(h) ==
      if Unaligned(h) then Marshaled([], Some(ShortBuffer)) else Marshaled(HeaderBytes(h), None)
  {
    var w := HeaderMarshalInto(h, Zeros(HeaderSize(h)));
    if !Unaligned(h) {
      assert w.buf[..w.n] == HeaderBytes(h);
    }
  }

  /** Unmarshal(Marshal(h)) for a well-formed h: Marshal succeeds, and
      decoding its bytes consumes all of them and yields h (with the
      receiver's old profile when the X bit is clear). */
  lemma HeaderMarshalRoundTrip(prior: Header, h: Header)
    requires WellFormed(h)
    ensures HeaderMarshal(h) == Marshaled(HeaderBytes(h), None)
    ensures HeaderUnmarshal(prior, HeaderBytes(h)) ==
      Decoded(h.(extensionProfile := if h.extension then h.extensionProfile else prior.extensionProfile),
              |HeaderBytes(h)|, None)
  {
    HeaderMarshalBytes(h);
    assert HeaderBytes(h)[..HeaderSize(h)] == HeaderBytes(h);
    HeaderRoundTrip(prior, h, HeaderBytes(h));
  }

  /** A byte is its V, P, X and CC fields put back together. */
  lemma FirstByteSplit(b: byte)
    ensures b == 64 * (b / 64) + 32 * (b / 32 % 2) + 16 * (b / 16 % 2) + b % 16
  {
    assert b == 16 * (b / 16) + b % 16;
    assert b / 16 == 2 * (b / 32) + b / 16 % 2;
    assert b / 32 == 2 * (b / 64) + b / 32 % 2;
  }

  /** Byte 0 rebuilt by MarshalTo from the V, P, X and CC fields Unmarshal
      takes out of b is b again: the four fields cover all eight bits. */
  lemma FirstByteReencode(h: Header, b: byte)
    requires h.version == b / 64 && h.padding == (b / 32 % 2 == 1)
    requires h.extension == (b / 16 % 2 == 1) && |h.csrc| == b % 16
    ensures FirstByte(h) == b
  {
    var v := b / 64;
    var c := b % 16;
    var p := b / 32 % 2;
    var b1 := Or8(U8(Shl(h.version, VersionShift)), U8(c));
    FirstByteHead(v, c);
    PaddingBit(b1, v, c, h.padding);
    var b2 := SetIf(b1, h.padding, PaddingShift);
    assert b2 == 32 * (2 * v + p) + c;
    ExtensionBit(b2, 2 * v + p, c, h.extension);
    FirstByteSplit(b);
  }

  /** Byte 1 rebuilt from the M and PT fields taken out of b is b again. */
  lemma SecondByteReencode(h: Header, b: byte)
    requires h.marker == (b >= 128) && h.payloadType == b % 128
    ensures SecondByte(h) == b
  {
    var m := if h.marker then 1 else 0;
    assert Shl(2 * 0, 7) == 0 && Shl(m, 7) == 128 * m by {
      ShlValues(0);
      ShlValues(m);
    }
    SetBit(0, h.payloadType, 7, h.marker);
  }

  /** The fixed header rebuilt from the fields Unmarshal reads out of the
      first 12 bytes of buf is those 12 bytes. */
  lemma FixedReencode(h: Header, buf: seq<byte>)
    requires 12 <= |buf|
    requires h.version == buf[0] / 64 && h.padding == (buf[0] / 32 % 2 == 1)
    requires h.extension == (buf[0] / 16 % 2 == 1) && |h.csrc| == buf[0] % 16
    requires h.marker == (buf[1] >= 128) && h.payloadType == buf[1] % 128
    requires h.sequenceNumber == U16At(buf, 2) && h.timestamp == U32At(buf, 4) && h.ssrc == U32At(buf, 8)
    ensures FixedBytes(h) == buf[..12]
  {
    FirstByteReencode(h, buf[0]);
    SecondByteReencode(h, buf[1]);
    U16Reencode(buf, 2);
    U32Reencode(buf, 4);
    U32Reencode(buf, 8);
    assert buf[..12] == [buf[0], buf[1]] + buf[2..4] + buf[4..8] + buf[8..12];
  }

  /** The CSRC list Unmarshal reads, written back in list order, is the
      bytes it was read from. */
  lemma {:induction false} CsrcReencode(buf: seq<byte>, count: nat)
    requires CsrcOffset + 4 * count <= |buf|
    ensures CsrcBytes(CsrcList(buf, count)) == buf[CsrcOffset..CsrcOffset + 4 * count]
  {
    if count > 0 {
      var list := CsrcList(buf, count);
      var at := CsrcOffset + 4 * (count - 1);
      assert list[..count - 1] == CsrcList(buf, count - 1);
      CsrcReencode(buf, count - 1);
      U32Reencode(buf, at);
      assert buf[CsrcOffset..at + 4] == buf[CsrcOffset..at] + buf[at..at + 4];
    }
  }

  /** The fields Unmarshal reads up to the end of the CSRC list are within
      their ranges, and writing them back gives the bytes they came from. */
  lemma PrefixReencode(prior: Header, buf: seq<byte>)
    requires HeaderLength <= |buf| && CsrcOffset + 4 * CsrcCount(buf[0]) <= |buf|
    ensures var count := CsrcCount(buf[0]);
      var h2 := FixedFields(FirstFields(prior, buf[0]), buf, count);
      h2.version <= 3 && h2.payloadType <= 0x7F && count <= 15 &&
      FixedBytes(h2) == buf[..12] && CsrcBytes(h2.csrc) == buf[CsrcOffset..CsrcOffset + 4 * count]
  {
    var count := CsrcCount(buf[0]);
    var h2 := FixedFields(FirstFields(prior, buf[0]), buf, count);
    ShrValues(buf[0]);
    ShrValues(buf[1]);
    FixedReencode(h2, buf);
    CsrcReencode(buf, count);
  }

  /** An RFC 3550 extension Unmarshal reads from a block whose declared
      length fits is written back as that block: the length word counts
      whole words, so the single payload needs no padding and the word
      count comes out as read. */
  lemma GenericExtensionReencode(h: Header, buf: seq<byte>, n: int)
    requires h.extension && 0 <= n <= |buf|
    ensures var r := ExtensionUnmarshal(h, buf, n);
      r.err.None? && IsGenericProfile(r.header.extensionProfile) ==>
        r.header == h.(extensionProfile := r.header.extensionProfile, extensions := r.header.extensions) &&
        SizeDefined(r.header) && !Unaligned(r.header) && n <= r.n <= |buf| &&
        ExtensionBlock(r.header) == buf[n..r.n] &&
        |r.header.extensions| == 1 && r.header.extensions[0].id == 0 &&
        RoundUp4(BodySize(r.header)) / 4 < 0x1_0000
  {
    if n + 4 <= |buf| && n + 4 + U16At(buf, n + 2) * 4 <= |buf| && IsGenericProfile(U16At(buf, n)) {
      var r := ExtensionUnmarshal(h, buf, n);
      var words: int := U16At(buf, n + 2);
      var end := n + 4 + words * 4;
      ExtensionUnmarshalFits(h, buf, n);
      assert r.header.extensions == [Extension(0, buf[n + 4..end])] && r.n == end;
      RoundUp4Exact(words * 4);
      assert (words * 4 / 4) % 0x1_0000 == words;
      U16Reencode(buf, n);
      U16Reencode(buf, n + 2);
      assert buf[n..end] == buf[n..n + 2] + buf[n + 2..n + 4] + buf[n + 4..end] + Zeros(0);
    }
  }

  /** Marshal(Unmarshal(buf)): a header decoded without error, with the X
      bit clear or an RFC 3550 profile, is well-formed, and MarshalTo writes
      back exactly the bytes Unmarshal consumed. The RFC 8285 profiles do
      not have this direction (see the README). */
  lemma HeaderReencode(prior: Header, buf: seq<byte>)
    ensures var r := HeaderUnmarshal(prior, buf);
      r.err.None? && (!r.header.extension || IsGenericProfile(r.header.extensionProfile)) ==>
        WellFormed(r.header) && HeaderSize(r.header) == r.n &&
        HeaderBytes(r.header) == buf[..r.n] && HeaderMarshal(r.header) == Marshaled(buf[..r.n], None)
  {
    var r := HeaderUnmarshal(prior, buf);
    if r.err.None? && (!r.header.extension || IsGenericProfile(r.header.extensionProfile)) {
      HeaderUnmarshalOutcome(prior, buf);
      var count := CsrcCount(buf[0]);
      var n := CsrcOffset + 4 * count;
      var h2 := FixedFields(FirstFields(prior, buf[0]), buf, count);
      HeaderUnmarshalFits(prior, buf, count, n, h2);
      PrefixReencode(prior, buf);
      if h2.extension {
        GenericExtensionReencode(h2, buf, n);
        ExtendedReencode(h2, r.header, buf, n, r.n);
      } else {
        assert buf[..r.n] == buf[..12] + buf[CsrcOffset..n];
      }
      HeaderMarshalBytes(r.header);
    }
  }

  /** The extended case of HeaderReencode: h2 is what the fixed header and
      the CSRC list decode to, and g adds the RFC 3550 block [n, end). */
  lemma ExtendedReencode(h2: Header, g: Header, buf: seq<byte>, n: int, end: int)
    requires h2.version <= 3 && h2.payloadType <= 0x7F && |h2.csrc| <= 15 && h2.extension
    requires n == CsrcOffset + 4 * |h2.csrc| && n <= end <= |buf|
    requires FixedBytes(h2) == buf[..12] && CsrcBytes(h2.csrc) == buf[CsrcOffset..n]
    requires g == h2.(extensionProfile := g.extensionProfile, extensions := g.extensions)
    requires IsGenericProfile(g.extensionProfile) && SizeDefined(g) && ExtensionBlock(g) == buf[n..end]
    requires |g.extensions| == 1 && g.extensions[0].id == 0 && RoundUp4(BodySize(g)) / 4 < 0x1_0000
    requires !Unaligned(g)
    ensures WellFormed(g) && HeaderBytes(g) == buf[..end]
  {
    assert FixedBytes(g) == FixedBytes(h2);
    assert buf[..end] == buf[..12] + buf[CsrcOffset..n] + buf[n..end];
  }
}
