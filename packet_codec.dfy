/** The packet layer of pkg/av/rtp.go on values: RtpPacket.Unmarshal,
    MarshalSize, MarshalTo and Marshal over the header codec. The padding
    follows section 5.1 of RFC 3550: when the P bit is set, the last byte of
    the packet counts the padding bytes, itself included. */
module PacketCodec {
  import opened Bits
  import opened Wire
  import opened RtpTypes
  import opened HeaderCodec

  /** The outcome of RtpPacket.Unmarshal: the receiver's value afterwards
      and the returned error. */
  datatype PacketDecoded = PacketDecoded(packet: Packet, err: Option<RtpError>)

  /** RtpPacket.Unmarshal(buf) on a receiver whose value is prior: the
      header, then, with the P bit, the padding size from the last byte;
      the payload is what lies between the header and the padding. A header
      error leaves payload and padding size alone; so does a padding size
      that reaches into the header, after the size has been assigned. */
  function PacketUnmarshal(prior: Packet, buf: seq<byte>): (r: PacketDecoded)
  {
    var d := HeaderUnmarshal(prior.header, buf);
    HeaderUnmarshalOutcome(prior.header, buf);
    if d.err.Some? then PacketDecoded(prior.(header := d.header), d.err)
    else
      var paddingSize := if d.header.padding then buf[|buf| - 1] else prior.paddingSize;
      var end := if d.header.padding then |buf| - paddingSize else |buf|;
      if end < d.n then PacketDecoded(Packet(d.header, prior.payload, paddingSize), Some(BufferTooSmall))
      else PacketDecoded(Packet(d.header, buf[d.n..end], paddingSize), None)
  }

  /** The outcome of RtpPacket.Unmarshal, case by case: header errors pass
      through; otherwise the packet fails exactly when the padding size
      exceeds what follows the header, and on success the payload is the
      bytes between the header and the padding. Without the P bit the old
      padding size is kept. */
  lemma PacketUnmarshalOutcome(prior: Packet, buf: seq<byte>)
    ensures var r := PacketUnmarshal(prior, buf);
      var d := HeaderUnmarshal(prior.header, buf);
      r.packet.header == d.header &&
      (d.err.Some? ==> r.err == d.err && r.packet.payload == prior.payload
                       && r.packet.paddingSize == prior.paddingSize) &&
      (d.err.None? ==>
        0 < |buf| &&
        r.packet.paddingSize == (if d.header.padding then buf[|buf| - 1] else prior.paddingSize) &&
        var end := |buf| - (if d.header.padding then r.packet.paddingSize else 0);
        (r.err.Some? <==> end < d.n) &&
        (r.err.Some? ==> r.err == Some(BufferTooSmall) && r.packet.payload == prior.payload) &&
        (r.err.None? ==> 0 <= d.n <= end <= |buf| && r.packet.payload == buf[d.n..end]))
  {
    HeaderUnmarshalOutcome(prior.header, buf);
  }

  /** RtpPacket.MarshalSize: the header, the payload and the padding. */
  function PacketSize(p: Packet): nat
    requires SizeDefined(p.header)
  {
    HeaderSize(p.header) + |p.payload| + p.paddingSize
  }

  /** The header as RtpPacket.MarshalTo leaves it: the P bit set exactly
      when there is padding. */
  function PaddedHeader(p: Packet): (h: Header)
    ensures h.padding == (p.paddingSize != 0)
    ensures h == p.header.(padding := h.padding)
  {
    p.header.(padding := p.paddingSize != 0)
  }

  /** The P bit plays no part in the header size. */
  lemma PaddedHeaderSize(p: Packet)
    requires SizeDefined(p.header)
    ensures SizeDefined(PaddedHeader(p)) && HeaderSize(PaddedHeader(p)) == HeaderSize(p.header)
  {
    var h := PaddedHeader(p);
    if p.header.extension {
      assert BodySize(h) == BodySize(p.header);
    }
  }

  /** The padding of a packet with paddingSize bytes of it: zeros, then the
      size in the last byte. */
  function Padding(paddingSize: byte): (r: seq<byte>)
    ensures |r| == paddingSize
  {
    if paddingSize == 0 then [] else Zeros(paddingSize - 1) + [paddingSize]
  }

  /** The bytes of a marshalled packet. */
  function PacketBytes(p: Packet): (r: seq<byte>)
    requires SizeDefined(p.header)
  {
    HeaderBytes(PaddedHeader(p)) + p.payload + Padding(p.paddingSize)
  }

  /** RtpPacket.MarshalTo(buf) on a packet whose value is p: the header
      with the P bit from the padding size, then, if the whole packet fits,
      the payload and the last padding byte. The padding bytes before the
      last one are not written. Both errors report a count of 0. */
  function PacketMarshalInto(p: Packet, buf: seq<byte>): (r: Written)
    requires SizeDefined(p.header)
    ensures |r.buf| == |buf|
  {
    var w := HeaderMarshalInto(PaddedHeader(p), buf);
    if w.err.Some? then Written(0, w.err, w.buf)
    else if w.n + |p.payload| + p.paddingSize > |buf| then Written(0, Some(ShortBuffer), w.buf)
    else Written(w.n + |p.payload| + p.paddingSize, None, PayloadAndPadding(w.buf, w.n, p.payload, p.paddingSize))
  }

  /** The writes after the header: the payload copied in at position at,
      and, with padding, the padding size into the last padding byte. */
  function PayloadAndPadding(buf: seq<byte>, at: nat, payload: seq<byte>, paddingSize: byte): (r: seq<byte>)
    requires at + |payload| + paddingSize <= |buf|
    ensures |r| == |buf|
  {
    var written := Overlay(buf, at, payload);
    if paddingSize != 0 then written[at + |payload| + paddingSize - 1 := paddingSize] else written
  }

  /** What the writes after the header change in a buffer that agrees with
      orig from at on: the payload at at, the last padding byte, and
      nothing before at, between or after. */
  lemma PayloadAndPaddingLayout(buf: seq<byte>, orig: seq<byte>, at: nat, payload: seq<byte>, paddingSize: byte)
    requires at + |payload| + paddingSize <= |buf| == |orig| && buf[at..] == orig[at..]
    ensures var r := PayloadAndPadding(buf, at, payload, paddingSize);
      var body := at + |payload|;
      var end := body + paddingSize;
      r[..at] == buf[..at] && r[at..body] == payload &&
      (paddingSize != 0 ==> r[end - 1] == paddingSize && r[body..end - 1] == orig[body..end - 1]) &&
      r[end..] == orig[end..]
  {
    var written := Overlay(buf, at, payload);
    var body := at + |payload|;
    var end := body + paddingSize;
    assert written[body..] == buf[body..] == buf[at..][|payload|..];
    assert orig[body..] == orig[at..][|payload|..];
    assert written[end..] == written[body..][paddingSize..];
    assert orig[end..] == orig[body..][paddingSize..];
    if paddingSize != 0 {
      assert written[body..end - 1] == written[body..][..paddingSize - 1];
      assert orig[body..end - 1] == orig[body..][..paddingSize - 1];
      var r := written[end - 1 := paddingSize];
      assert r[..at] == written[..at];
      assert r[at..body] == written[at..body];
      assert r[body..end - 1] == written[body..end - 1];
      assert r[end..] == written[end..];
    }
  }

  /** RtpPacket.Marshal: MarshalTo into a fresh zeroed buffer of
      MarshalSize() bytes, cut to the count it returns. */
  function PacketMarshal(p: Packet): Marshaled
    requires SizeDefined(p.header)
  {
    var w := PacketMarshalInto(p, Zeros(PacketSize(p)));
    if w.err.Some? then Marshaled([], w.err) else Marshaled(w.buf[..w.n], None)
  }

  /** MarshalTo succeeds exactly when the whole packet fits and the header
      is not refused; both failures are ErrShortBuffer with a count of 0. */
  lemma PacketMarshalIntoOutcome(p: Packet, buf: seq<byte>)
    requires SizeDefined(p.header)
    ensures var r := PacketMarshalInto(p, buf);
      |r.buf| == |buf| &&
      (r.err.None? <==> PacketSize(p) <= |buf| && !Unaligned(PaddedHeader(p))) &&
      (r.err.Some? ==> r.n == 0 && r.err == Some(ShortBuffer)) &&
      (r.err.None? ==> r.n == PacketSize(p))
  {
    PaddedHeaderSize(p);
  }

  /** A successful MarshalTo has written the header, the payload and the
      last padding byte, and nothing else. */
  lemma PacketMarshalIntoWrites(p: Packet, buf: seq<byte>)
    requires SizeDefined(p.header)
    requires PacketSize(p) <= |buf| && !Unaligned(PaddedHeader(p))
    ensures var r := PacketMarshalInto(p, buf);
      var size := HeaderSize(p.header);
      var body := size + |p.payload|;
      var end := PacketSize(p);
      r.buf[..size] == HeaderBytes(PaddedHeader(p)) &&
      r.buf[size..body] == p.payload &&
      (p.paddingSize != 0 ==> r.buf[end - 1] == p.paddingSize && r.buf[body..end - 1] == buf[body..end - 1]) &&
      r.buf[end..] == buf[end..]
  {
    var h := PaddedHeader(p);
    PaddedHeaderSize(p);
    var w := HeaderMarshalInto(h, buf);
    assert w.n == HeaderSize(h) && w.err.None?;
    assert PacketMarshalInto(p, buf).buf == PayloadAndPadding(w.buf, w.n, p.payload, p.paddingSize);
    PayloadAndPaddingLayout(w.buf, buf, w.n, p.payload, p.paddingSize);
  }

  /** Marshal yields exactly the packet bytes (the header with the P bit
      from the padding size, the payload and the padding), or ErrShortBuffer
      for an RFC 3550 payload that is not whole words. */
  lemma PacketMarshalBytes(p: Packet)
    requires SizeDefined(p.header)
    ensures PacketMarshal(p) ==
      if Unaligned(PaddedHeader(p)) then Marshaled([], Some(ShortBuffer))
      else Marshaled(PacketBytes(p), None)
  {
    var h := PaddedHeader(p);
    var zeros := Zeros(PacketSize(p));
    PacketMarshalIntoOutcome(p, zeros);
    if !Unaligned(h) {
      PaddedHeaderSize(p);
      PacketMarshalIntoWrites(p, zeros);
      var w := PacketMarshalInto(p, zeros);
      FreshBufferBytes(w.buf, HeaderBytes(h), p.payload, p.paddingSize);
      assert w.buf[..w.n] == w.buf;
    }
  }

  /** A fresh zeroed buffer with the header, the payload and the last
      padding byte written holds exactly the packet bytes. */
  lemma FreshBufferBytes(r: seq<byte>, header: seq<byte>, payload: seq<byte>, paddingSize: byte)
    requires |r| == |header| + |payload| + paddingSize
    requires r[..|header|] == header && r[|header|..|header| + |payload|] == payload
    requires paddingSize != 0 ==>
      var body := |header| + |payload|;
      r[|r| - 1] == paddingSize && r[body..|r| - 1] == Zeros(|r|)[body..|r| - 1]
    ensures r == header + payload + Padding(paddingSize)
  {
    var body := |header| + |payload|;
    if paddingSize != 0 {
      assert r[body..] == r[body..|r| - 1] + [r[|r| - 1]];
      var z := Zeros(|r|)[body..|r| - 1];
      assert forall k :: 0 <= k < |z| ==> z[k] == Zeros(paddingSize - 1)[k];
      assert z == Zeros(paddingSize - 1);
    }
    assert r == r[..|header|] + r[|header|..body] + r[body..];
  }

  /** Unmarshal(Marshal(p)) for a packet with a well-formed header: it
      succeeds and yields the header MarshalTo wrote (P bit from the padding
      size; the receiver's old profile when the X bit is clear), the payload
      and, when there is padding, its size. Without padding the receiver
      keeps its old padding size. */
  lemma PacketRoundTrip(prior: Packet, p: Packet)
    requires WellFormed(p.header)
    ensures PacketMarshal(p) == Marshaled(PacketBytes(p), None)
    ensures var h := PaddedHeader(p);
      PacketUnmarshal(prior, PacketBytes(p)) ==
      PacketDecoded(
        Packet(h.(extensionProfile := if h.extension then h.extensionProfile else prior.header.extensionProfile),
               p.payload,
               if p.paddingSize != 0 then p.paddingSize else prior.paddingSize),
        None)
  {
    var h := PaddedHeader(p);
    var bytes := PacketBytes(p);
    PacketMarshalBytes(p);
    PaddedHeaderSize(p);
    PacketBytesLayout(HeaderBytes(h), p.payload, p.paddingSize);
    HeaderRoundTrip(prior.header, h, bytes);
    var d := Decoded(h.(extensionProfile := if h.extension then h.extensionProfile else prior.header.extensionProfile),
                     HeaderSize(h), None);
    PacketUnmarshalFits(prior, bytes, d, p.payload, p.paddingSize);
  }

  /** The bytes of a packet hold the header, then the payload, and end in
      the padding size when there is padding. */
  lemma PacketBytesLayout(header: seq<byte>, payload: seq<byte>, paddingSize: byte)
    ensures var b := header + payload + Padding(paddingSize);
      |b| == |header| + |payload| + paddingSize &&
      b[..|header|] == header && b[|header|..|header| + |payload|] == payload &&
      (paddingSize != 0 ==> b[|b| - 1] == paddingSize)
  {
    var b := header + payload + Padding(paddingSize);
    assert b[..|header|] == header;
    assert b[|header|..|header| + |payload|] == payload;
  }

  /** RtpPacket.Unmarshal on a buffer whose header decodes, whose P bit
      says whether there is padding and whose last byte, with padding, is
      its size: the payload is what lies between. */
  lemma PacketUnmarshalFits(prior: Packet, buf: seq<byte>, d: Decoded, payload: seq<byte>, paddingSize: byte)
    requires HeaderUnmarshal(prior.header, buf) == d && d.err.None?
    requires d.header.padding == (paddingSize != 0)
    requires 0 <= d.n && |buf| == d.n + |payload| + paddingSize && buf[d.n..d.n + |payload|] == payload
    requires paddingSize != 0 ==> buf[|buf| - 1] == paddingSize
    ensures PacketUnmarshal(prior, buf) ==
      PacketDecoded(Packet(d.header, payload, if paddingSize != 0 then paddingSize else prior.paddingSize), None)
  {
    HeaderUnmarshalOutcome(prior.header, buf);
  }
}
