/** The entities of pkg/av/rtp.go as values: an extension element, the RTP
    header, the packet, and the errors the codec reports. */
module RtpTypes {
  import opened Bits

  datatype Option<+T> = None | Some(value: T)

  // The constants of the Go source. Bit positions and masks apply to the
  // first two header bytes; offsets are byte offsets into the header.
  // Every mask is of the form 2^k - 1 (see Bits.Mask).
  const HeaderLength := 4
  const VersionShift := 6
  const VersionMask: byte := 0x03
  const PaddingShift := 5
  const PaddingMask: byte := 0x01
  const ExtensionShift := 4
  const ExtensionMask: byte := 0x01
  const OneByteProfile: uint16 := 0xBEDE
  const TwoByteProfile: uint16 := 0x1000
  const ExtensionIdReserved: byte := 0x0F
  const CcMask: byte := 0x0F
  const MarkerShift := 7
  const MarkerMask: byte := 0x01
  const PtMask: byte := 0x7F
  const SeqNumOffset := 2
  const TimestampOffset := 4
  const SsrcOffset := 8
  const CsrcOffset := 12
  const CsrcLength := 4

  /** A header extension element: its id and its payload bytes. Decoding
      copies the payload out of the input buffer. */
  datatype Extension = Extension(id: byte, payload: seq<byte>)

  /** The value of an RtpHeader. extensionProfile only means something
      when extension is set. */
  datatype Header = Header(
    version: byte,
    padding: bool,
    extension: bool,
    marker: bool,
    payloadType: byte,
    sequenceNumber: uint16,
    timestamp: uint32,
    ssrc: uint32,
    csrc: seq<uint32>,
    extensionProfile: uint16,
    extensions: seq<Extension>)

  /** The Go zero value of RtpHeader. */
  const ZeroHeader := Header(0, false, false, false, 0, 0, 0, 0, [], 0, [])

  /** The value of an RtpPacket: the embedded header, the payload, and the
      number of trailing padding bytes (the last of which holds that number). */
  datatype Packet = Packet(header: Header, payload: seq<byte>, paddingSize: byte)

  /** The errors of rtp.go. SliceOutOfRange stands for the Go runtime panic
      of a slice expression that runs past the end of the input buffer. */
  datatype RtpError =
    | HeaderSizeInsufficient(have: int, need: int)
    | ExtensionSizeInsufficient(have: int, need: int)
    | ShortBuffer
    | BufferTooSmall
    | SliceOutOfRange

  /** A profile that is neither RFC 8285 form: the RFC 3550 opaque block. */
  predicate IsGenericProfile(profile: uint16) {
    profile != OneByteProfile && profile != TwoByteProfile
  }
}
