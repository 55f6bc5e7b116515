# RTP packet codec, modelled in Dafny

This project models the RTP codec in `pkg/av/rtp.go`. It covers `RtpHeader.Unmarshal`, `MarshalSize`, `MarshalTo` and `Marshal`, and the `RtpPacket` methods of the same names. All of them work on the wire format of RFC 3550 section 5.1: the 12-byte fixed header, the CSRC list and the header extension of section 5.3.1. The extension body can take the one-byte or two-byte forms of RFC 8285 sections 4.2 and 4.3.

The model is in two layers:

- **Value-level specification.** Functions on immutable values state what every operation computes. A decoding takes the receiver's prior value, because the Go methods overwrite fields one by one and an error leaves the fields assigned so far. An encoding into a buffer takes the buffer's prior contents, because `MarshalTo` writes into memory the caller owns.
- **Imperative layer.** `Rtp.RtpHeader` and `Rtp.RtpPacket` are classes with the Go structs' fields. Their methods update the fields or write into an `array<byte>`, with loops carrying their invariants. Each method is proved equal to the value-level function.

Lemmas about the functions then state what the codec promises:

- the error cases;
- the sizes;
- the byte layout that `MarshalTo` writes;
- that `Unmarshal` recovers every well-formed header and packet that `Marshal` produces.
- that `Marshal` writes back the bytes `Unmarshal` consumed, for a header with no extension or an RFC 3550 one.

Modules, in dependency order:

- `Bits`: Go's `uint8`/`uint16`/`uint32` as integer subranges, and the shifts, masks and `|` the codec applies to them.
- `Wire`: big-endian 16- and 32-bit fields, zero runs, rounding up to 4, and `Overlay` (writing a window into a buffer). It also has the array primitives `Copy`, `PutUint16` and `PutUint32`, matching Go's `copy` and `binary.BigEndian.PutUint16`/`PutUint32`.
- `RtpTypes`: the constants at `rtp.go:38-61`, the `Extension`, `Header` and `Packet` values, and the error kinds.
- `ExtensionCodec`: the RFC 8285 scans and the extension body encodings.
- `HeaderCodec`: header decode, size and encode as functions, and their lemmas.
- `PacketCodec`: the same for packets.
- `Rtp`: the classes and the imperative loops.
- `WorkedCases`: concrete packets (a minimal one, a padded one, a one-byte extension block and an id-15 truncation) run through the lemmas above.

Go's errors become an `RtpError` datatype:

- `HeaderSizeInsufficient(have, need)` and `ExtensionSizeInsufficient(have, need)` for the formatted messages;
- `ShortBuffer` for `io.ErrShortBuffer`;
- `BufferTooSmall` for `errors.New("buffer too small")`;
- `SliceOutOfRange` for the run-time panic of an out-of-range slice expression.

The code is followed where it differs from a plain reading of the format:

- **Two-byte scan.** It skips `0x00` bytes as padding, just like the one-byte scan (`rtp.go:159-162`).
- **End of block.** The declared end of the extension block is only checked between elements. An element may run past it and is still taken; one that runs past the buffer is the panic.
- **Padding on encode.** `RtpPacket.MarshalTo` writes only the last padding byte, the one holding the size (`rtp.go:373-375`). The bytes before it keep whatever the buffer held; `Marshal` starts from a zeroed buffer, so they are zero there. There is no separate "unaligned" or "malformed padding" error:
  - an unaligned RFC 3550 extension payload and a buffer that cannot hold the packet both give `ShortBuffer`;
  - a padding size larger than the payload region gives "buffer too small".
- **Padding size on decode.** `RtpPacket.Unmarshal` assigns `PaddingSize` only when P is set (`rtp.go:336-339`). A reused receiver keeps its old padding size for an unpadded packet, and re-encoding it then adds padding the input did not have. `PacketCodec.PacketUnmarshal` keeps the prior size, and `PacketCodec.PacketRoundTrip` states it.
- **Length word.** The length word is `uint16(roundedExtSize / 4)`, i.e. modulo 2^16 (`rtp.go:306`).

## Model

| member | source | states |
|---|---|---|
| ExtensionCodec.OneByteScan | pkg/av/rtp.go:132-153 | The one-byte loop from a cursor to the block end, appending to a list. A `0x00` byte is skipped. Otherwise the high nibble is the id and the low nibble + 1 the payload length. Id 15 stops the scan just after its byte. The end is checked only between elements, and a payload past the buffer is the out-of-range slice. |
| ExtensionCodec.TwoByteScan | pkg/av/rtp.go:156-175 | The two-byte loop. A `0x00` byte is skipped; otherwise the byte is the id, the next byte the length, and that many bytes the payload. A missing length byte or a payload past the buffer is the out-of-range slice. |
| ExtensionCodec.OneByteHead | pkg/av/rtp.go:280 | The one-byte head `id<<4`, OR'ed with `uint8(len) - 1`, in wrapping uint8 arithmetic. |
| ExtensionCodec.OneByteUnit | pkg/av/rtp.go:280-282 | One one-byte element on the wire: its head byte, then its payload. |
| ExtensionCodec.TwoByteUnit | pkg/av/rtp.go:287-291 | One two-byte element on the wire: the id, `uint8(len)`, then the payload. |
| ExtensionCodec.OneByteBody | pkg/av/rtp.go:278-283 | The one-byte units of all elements, in list order. |
| ExtensionCodec.TwoByteBody | pkg/av/rtp.go:285-292 | The two-byte units of all elements, in list order. |
| ExtensionCodec.OneByteBodySize | pkg/av/rtp.go:202-205 | MarshalSize's one-byte sum, 1 + len per element. |
| ExtensionCodec.TwoByteBodySize | pkg/av/rtp.go:207-210 | MarshalSize's two-byte sum, 2 + len per element. |
| ExtensionCodec.OneByteScanBounds | pkg/av/rtp.go:132-153 | The one-byte scan's cursor moves forward and stays within the buffer. A scan that stops before the block end has just read a byte whose id is 15. The only failure is the out-of-range slice. |
| ExtensionCodec.TwoByteScanBounds | pkg/av/rtp.go:156-175 | The two-byte scan's cursor moves forward within the buffer, and a successful scan ends at or past the block end. The only failure is the out-of-range slice. |
| ExtensionCodec.OneByteScanYields | pkg/av/rtp.go:140-151 | The scan only appends, so the list it starts from is a prefix of the result. Every decoded element has an id other than 15 and a payload of 1 to 16 bytes. |
| ExtensionCodec.TwoByteScanYields | pkg/av/rtp.go:164-173 | The scan only appends. Every decoded element has a nonzero id and at most 255 payload bytes. |
| ExtensionCodec.OneByteScanPadding | pkg/av/rtp.go:135-138 | A `0x00` byte is skipped without producing an element. |
| ExtensionCodec.OneByteScanReserved | pkg/av/rtp.go:140-146 | A byte with id 15 ends the scan successfully just after itself, whatever bytes remain in the block. |
| ExtensionCodec.OneByteScanOverrun | pkg/av/rtp.go:140-150 | An element whose payload runs past the buffer fails with the out-of-range slice, and the elements decoded so far are kept. |
| ExtensionCodec.OneByteScanElement | pkg/av/rtp.go:140-152 | Any other byte yields the element with the high nibble as id and the next (low nibble + 1) bytes as payload. The scan continues after that payload. |
| ExtensionCodec.TwoByteScanPadding | pkg/av/rtp.go:159-162 | A `0x00` byte is skipped in the two-byte form as well. |
| ExtensionCodec.TwoByteScanNoLength | pkg/av/rtp.go:164-167 | An id byte at the very end of the buffer, with no length byte after it, fails with the out-of-range slice. |
| ExtensionCodec.TwoByteScanOverrun | pkg/av/rtp.go:164-172 | A payload running past the buffer fails with the out-of-range slice. |
| ExtensionCodec.TwoByteScanElement | pkg/av/rtp.go:164-174 | A nonzero byte is the id, the next byte the length, and that many bytes the payload. The scan continues after the payload. |
| ExtensionCodec.OneByteBodyLength | pkg/av/rtp.go:202-205 | MarshalSize's one-byte sum, 1 + len per element, is the number of bytes MarshalTo writes for the elements. |
| ExtensionCodec.TwoByteBodyLength | pkg/av/rtp.go:207-210 | MarshalSize's two-byte sum, 2 + len per element, is the number of bytes MarshalTo writes for the elements. |
| ExtensionCodec.OneByteBodyAppend | pkg/av/rtp.go:279-283 | Each iteration of the one-byte encode loop appends exactly one unit, and the size sum grows by 1 + len. |
| ExtensionCodec.TwoByteBodyAppend | pkg/av/rtp.go:286-292 | Each iteration of the two-byte encode loop appends exactly one unit, and the size sum grows by 2 + len. |
| ExtensionCodec.OneByteUnitHead | pkg/av/rtp.go:280 | The head byte, id shifted left by 4 OR'ed with len − 1, of an element with id 1-14 and 1-16 payload bytes is not padding and is not reserved. Decoding splits it back into the same id and length. |
| ExtensionCodec.OneByteHeadValue | pkg/av/rtp.go:280 | In that range the uint8 expression equals 16·id + len − 1: neither the shift nor the subtraction wraps. |
| ExtensionCodec.OneByteSkipsZeros | pkg/av/rtp.go:134-138 | A run of zero bytes up to the block end, such as the 4-byte alignment padding, adds no element and ends the scan successfully at the block end. |
| ExtensionCodec.TwoByteSkipsZeros | pkg/av/rtp.go:158-162 | The same for the two-byte scan. |
| ExtensionCodec.OneByteRoundTrip | pkg/av/rtp.go:132-153 | Scanning the one-byte encoding of well-formed elements, followed by zero padding, yields exactly those elements in order and ends at the block end. |
| ExtensionCodec.TwoByteRoundTrip | pkg/av/rtp.go:156-175 | Scanning the two-byte encoding of well-formed elements (nonzero id, at most 255 bytes), followed by zero padding, yields exactly those elements. |
| HeaderCodec.HeaderUnmarshal | pkg/av/rtp.go:65-190 | RtpHeader.Unmarshal on a receiver whose value is given. A buffer under 4 bytes fails with the receiver unchanged. Otherwise V, P, X and a zeroed CSRC list of CC entries are assigned. A CSRC list that does not fit fails with n = 12 + 4·CC. Otherwise the remaining fixed fields and the identifiers are read and the extension list is cleared. With X set, the extension part follows. |
| HeaderCodec.ExtensionUnmarshal | pkg/av/rtp.go:116-128 | The extension part from cursor n. It fails with n if the 4 profile and length bytes are missing. It reads the profile, and fails with n + 4 if the declared block of 4·length bytes does not fit. Otherwise it decodes the body. |
| HeaderCodec.DecodeExtensionBody | pkg/av/rtp.go:130-187 | The profile switch over the declared block: the one-byte scan for 0xBEDE, the two-byte scan for 0x1000, and otherwise one element with id 0 holding the whole block. |
| HeaderCodec.CsrcList | pkg/av/rtp.go:107-110 | CC identifiers, read big-endian at 12, 16, 20, and so on. |
| HeaderCodec.Zeros32 | pkg/av/rtp.go:89-90 | The zeroed CSRC slice `make([]uint32, n)` allocates: n entries, all 0. |
| HeaderCodec.FirstFields | pkg/av/rtp.go:85-93 | Assigns V, P and X from byte 0, and a zeroed CSRC list of CC entries. |
| HeaderCodec.FixedFields | pkg/av/rtp.go:100-114 | Assigns M and PT from byte 1, the big-endian sequence number, timestamp and SSRC, and the CSRC identifiers, and clears the extension list. |
| HeaderCodec.FirstByte | pkg/av/rtp.go:245-252 | Byte 0 as MarshalTo writes it: `version<<6`, OR'ed with `uint8(len(CSRC))`, then the P and X bits, in uint8 arithmetic. Neither operand is masked. |
| HeaderCodec.SecondByte | pkg/av/rtp.go:255-258 | Byte 1: the unmasked payload type with the marker bit OR'ed in. |
| HeaderCodec.FixedBytes | pkg/av/rtp.go:245-262 | The 12 fixed bytes: bytes 0 and 1, then the sequence number, timestamp and SSRC big-endian. |
| HeaderCodec.CsrcBytes | pkg/av/rtp.go:264-268 | The CSRC identifiers, 4 big-endian bytes each, in list order. |
| HeaderCodec.ExtensionBody | pkg/av/rtp.go:276-300 | The body MarshalTo writes. For 0xBEDE and 0x1000 it is the one- or two-byte units of every element. For any other profile it is the payload of the first element alone. |
| HeaderCodec.ExtensionBlock | pkg/av/rtp.go:270-312 | The extension block. It is the profile, then `uint16(rounded/4)` (which wraps), then the body, then zero bytes up to the 4-byte boundary. |
| HeaderCodec.HeaderBytes | pkg/av/rtp.go:243-313 | The bytes a successful MarshalTo writes: the fixed bytes, the CSRC list, and the extension block when X is set. |
| HeaderCodec.UnalignedPrefix | pkg/av/rtp.go:243-297 | What MarshalTo has written before refusing an unaligned RFC 3550 payload: the fixed bytes, the CSRC list and the profile. |
| HeaderCodec.HeaderMarshalInto | pkg/av/rtp.go:222-316 | MarshalTo on a buffer's old contents. A buffer under MarshalSize() is refused untouched with (0, ShortBuffer). An unaligned RFC 3550 payload gives (0, ShortBuffer) after the prefix is written. Otherwise it writes the header bytes over the front and returns MarshalSize(). |
| HeaderCodec.HeaderMarshal | pkg/av/rtp.go:319-327 | Marshal: MarshalTo into a zeroed buffer of MarshalSize() bytes. It gives either nil and the error, or the first n bytes. |
| HeaderCodec.DecodeExtensionBodyOutcome | pkg/av/rtp.go:130-187 | The profile switch changes only the extension list and keeps the cursor within the buffer. It fails only in an RFC 8285 scan. An RFC 3550 profile yields the single element with id 0 holding the whole declared block, and advances to the end of that block. |
| HeaderCodec.ExtensionUnmarshalOutcome | pkg/av/rtp.go:116-128 | The profile word is read from the cursor, and the X bit and the CSRC list are kept. Both size errors hold in both directions. Fewer than 4 bytes left reports that need and returns the cursor n, and only then. A declared body longer than what remains reports `n + 4 + 4·length` and returns n + 4, and only then. A scan failure happens only for an RFC 8285 profile. |
| HeaderCodec.ExtensionUnmarshalHeader | pkg/av/rtp.go:116-188 | The extension part changes only the profile and the extension list. |
| HeaderCodec.HeaderUnmarshalOutcome | pkg/av/rtp.go:65-98 | A buffer shorter than 4 fails and leaves the receiver untouched. A CSRC list that does not fit reports `12 + 4·CC` and returns that as `n`. Each error kind arises only in its case. On success the CSRC list has CC entries and the cursor lies between the end of the CSRC list and the end of the buffer. |
| HeaderCodec.HeaderUnmarshalFields | pkg/av/rtp.go:85-110 | The decoded fields are the top two bits of byte 0 (V), bit 5 (P) and bit 4 (X), and its low nibble gives the CSRC count. The top bit of byte 1 is M and the low seven bits are PT. The sequence number, timestamp and SSRC are big-endian at 2, 4 and 8. CSRC i is big-endian at 12 + 4i; when the list does not fit, the entries stay zero. |
| HeaderCodec.CsrcCount | pkg/av/rtp.go:88 | The CSRC count CC: the low four bits of byte 0, `buf[0] & ccMask`. |
| HeaderCodec.SizeDefined | pkg/av/rtp.go:211-213 | When MarshalSize and MarshalTo can run without a panic: unless the header has X set and an RFC 3550 profile, in which case `Extensions[0]` must exist (rtp.go:212 and 294). |
| HeaderCodec.BodySize | pkg/av/rtp.go:198-213 | MarshalSize's profile switch, without the 4-byte profile-and-length word. It is Σ(1 + len) for 0xBEDE, Σ(2 + len) for 0x1000, and otherwise the length of `Extensions[0]`'s payload. |
| HeaderCodec.HeaderSize | pkg/av/rtp.go:193-220 | MarshalSize: 12 + 4·CC without X, and 12 + 4·CC + RoundUp4(4 + BodySize(h)) with X. It is always a multiple of 4 that covers the fixed header and the CSRC list. |
| HeaderCodec.Unaligned | pkg/av/rtp.go:294-298 | The refusal test of MarshalTo: X set, an RFC 3550 profile, and a first payload whose length is not a multiple of 4. |
| HeaderCodec.CsrcBytesAt | pkg/av/rtp.go:265-268 | CSRC i is written big-endian at offset 4i of the CSRC area. |
| HeaderCodec.CsrcRoundTrip | pkg/av/rtp.go:107-110 | Reading the CSRC area that MarshalTo writes gives back the same identifiers. |
| HeaderCodec.HeaderMarshalIntoOutcome | pkg/av/rtp.go:222-316 | MarshalTo succeeds exactly when the buffer holds MarshalSize() bytes and the header is not an RFC 3550 extension with a payload that is not a multiple of 4. On success it returns MarshalSize(), writes the header bytes in front and leaves the rest of the buffer alone. A failure returns 0 and `ShortBuffer`, and a buffer too small is left untouched. |
| HeaderCodec.ExtensionBlockLayout | pkg/av/rtp.go:302-312 | The length word holds the rounded body size in 32-bit words (modulo 2^16). The bytes from the end of the body to the 4-byte boundary are zero. |
| HeaderCodec.ExtensionBlockParts | pkg/av/rtp.go:270-312 | The extension block is the profile, the length word, the body and the zero fill, in that order, and is 4 + the rounded body size long. |
| HeaderCodec.ExtensionBlockWrites | pkg/av/rtp.go:271-312 | Writing the profile, then the body, then backfilling the length word, then the zero fill, leaves the same buffer as writing the block in one piece. |
| HeaderCodec.HeaderWritten | pkg/av/rtp.go:243-313 | The three ways the writing can end are the outcome of MarshalTo. Without an extension, the fixed header and CSRC list are written. For an unaligned RFC 3550 payload, those plus the profile are written and the call returns 0 and `ShortBuffer`. Otherwise the whole extension block is written as well. |
| HeaderCodec.FirstByteRoundTrip | pkg/av/rtp.go:245-252 | For a version below 4 and at most 15 CSRCs, decoding byte 0 gives back V, P, X and CC. |
| HeaderCodec.SecondByteRoundTrip | pkg/av/rtp.go:255-258 | For a payload type below 128, decoding byte 1 gives back M and PT. |
| HeaderCodec.FixedRoundTrip | pkg/av/rtp.go:85-105 | Decoding the 12 fixed bytes MarshalTo writes gives back every fixed field. |
| HeaderCodec.LengthWordRoundTrip | pkg/av/rtp.go:121-124 | When the rounded body fits in 2^16 words, the length word read back times 4 is the block's length after its 4-byte word. |
| HeaderCodec.ExtensionBodyRoundTrip | pkg/av/rtp.go:130-187 | Decoding an encoded well-formed body, followed by its zero fill, gives back the extension list and ends at the block end. |
| HeaderCodec.ExtensionRoundTrip | pkg/av/rtp.go:116-187 | Decoding an encoded extension block gives back its profile, its length and the extension list. |
| HeaderCodec.ExtensionUnmarshalRoundTrip | pkg/av/rtp.go:116-188 | The extension part of Unmarshal, applied to an encoded block, restores the profile and the list and advances past the block. |
| HeaderCodec.PrefixRoundTrip | pkg/av/rtp.go:85-114 | Decoding the fixed header and CSRC list gives back every field except the profile and the extension list. |
| HeaderCodec.HeaderRoundTrip | pkg/av/rtp.go:65-190 | For a well-formed header, Unmarshal of a buffer that starts with MarshalTo's bytes succeeds. It returns MarshalSize() and gives back the header; without the X bit, the receiver's previous profile is kept. |
| HeaderCodec.HeaderBytesLayout | pkg/av/rtp.go:243-313 | The encoded header is the fixed bytes, then the CSRC list, then the extension block when X is set. |
| HeaderCodec.HeaderMarshalBytes | pkg/av/rtp.go:319-327 | Marshal returns exactly the header bytes, or nothing and `ShortBuffer` for an unaligned RFC 3550 payload. |
| HeaderCodec.HeaderMarshalRoundTrip | pkg/av/rtp.go:319-327 | Marshal of a well-formed header succeeds, and Unmarshal of its output gives the header back and consumes every byte. |
| HeaderCodec.HeaderReencode | pkg/av/rtp.go:65-327 | The other direction of the round trip, for every receiver and buffer. Take a decode that succeeds with X clear or with an RFC 3550 profile. The header it yields is well-formed, its MarshalSize() is the count Unmarshal returned, and MarshalTo writes and Marshal returns exactly the bytes Unmarshal consumed. |
| HeaderCodec.GenericExtensionReencode | pkg/av/rtp.go:116-187 | An RFC 3550 block decoded without error holds one id-0 element whose length is whole words, so MarshalTo neither refuses nor pads it. The block it writes back is the profile, the length word and the payload just read. |
| HeaderCodec.PrefixReencode | pkg/av/rtp.go:85-110 | The fields read up to the end of the CSRC list are in range (V ≤ 3, PT ≤ 127, CC ≤ 15), and writing them back gives the bytes they were read from. |
| HeaderCodec.FirstByteReencode | pkg/av/rtp.go:245-252 | Byte 0 written from the V, P, X and CC that Unmarshal reads out of a byte is that byte. |
| HeaderCodec.SecondByteReencode | pkg/av/rtp.go:255-258 | Byte 1 written from the M and PT read out of a byte is that byte. |
| HeaderCodec.FixedReencode | pkg/av/rtp.go:243-262 | The 12 fixed bytes written from the fields Unmarshal reads out of a buffer are that buffer's first 12 bytes. |
| HeaderCodec.CsrcReencode | pkg/av/rtp.go:264-268 | The CSRC list read from a buffer, written back in order, is the CSRC area it came from. |
| HeaderCodec.ExtendedReencode | pkg/av/rtp.go:243-313 | A header made of a decoded prefix and an RFC 3550 block that writes back as read is well-formed, and its bytes are the prefix followed by the block. |
| PacketCodec.PacketUnmarshal | pkg/av/rtp.go:330-345 | RtpPacket.Unmarshal on a receiver whose value is given. The header is decoded first and its error is passed on. With P set, the padding size is the last byte and the payload ends that many bytes early. An end before the header's n is "buffer too small", with the payload unchanged. Otherwise the payload is the bytes between. With P clear, the previous padding size is kept. |
| PacketCodec.PacketSize | pkg/av/rtp.go:381-383 | MarshalSize: header size plus payload length plus padding size. |
| PacketCodec.PaddedHeader | pkg/av/rtp.go:361 | The header with P set exactly when the padding size is nonzero; its other fields are unchanged. |
| PacketCodec.Padding | pkg/av/rtp.go:373-375 | The padding in a zeroed buffer: size − 1 zero bytes, then the size byte; nothing for size 0. |
| PacketCodec.PacketBytes | pkg/av/rtp.go:348-357 | The bytes of a marshalled packet: the header with P set from the padding size, then the payload, then the padding. |
| PacketCodec.PayloadAndPadding | pkg/av/rtp.go:372-375 | The writes after the header: the payload copied at the header's end and, with padding, the size into the last padding byte. |
| PacketCodec.PacketMarshalInto | pkg/av/rtp.go:360-378 | RtpPacket.MarshalTo on a buffer's old contents. The header is written with P set from the padding size, and its error is returned with a count of 0. A packet that does not fit then gives (0, ShortBuffer), leaving the header bytes written. Otherwise the payload and the padding byte are written and the packet's end is returned. |
| PacketCodec.PacketMarshal | pkg/av/rtp.go:348-357 | Marshal: MarshalTo into a zeroed buffer of MarshalSize() bytes. It gives either nil and the error, or the first n bytes. |
| PacketCodec.PacketUnmarshalOutcome | pkg/av/rtp.go:330-345 | A header error is passed on and leaves the payload and padding size alone. With P set, the padding size is the last byte of the buffer. The packet fails with "buffer too small" exactly when the padding would cut into the header. On success the payload is the bytes between the header and the padding. |
| PacketCodec.PaddedHeaderSize | pkg/av/rtp.go:361 | Setting P from the padding size changes neither whether the size is defined nor the header size. |
| PacketCodec.PayloadAndPaddingLayout | pkg/av/rtp.go:372-375 | After the header, the payload is copied. With padding, only the last padding byte is written, holding the size; the other padding bytes and everything after keep their old contents. |
| PacketCodec.PacketMarshalIntoOutcome | pkg/av/rtp.go:360-378 | The packet's MarshalTo succeeds exactly when the buffer holds MarshalSize() bytes and the header is not unaligned. On success it returns MarshalSize(); a failure returns 0 and `ShortBuffer`. |
| PacketCodec.PacketMarshalIntoWrites | pkg/av/rtp.go:360-377 | On success the buffer holds the header with P set from the padding size, then the payload, then the padding size in the last padding byte. Bytes past the packet are untouched. |
| PacketCodec.PacketMarshalBytes | pkg/av/rtp.go:348-357 | Marshal returns header, payload and padding, the padding being zeros ending in the size byte. An unaligned RFC 3550 payload gives nothing and `ShortBuffer`. |
| PacketCodec.PacketRoundTrip | pkg/av/rtp.go:330-378 | Marshal of a packet with a well-formed header succeeds. Unmarshal of its output gives back three things. The header comes back with P set from the padding size, and the receiver's previous profile when X is clear. The payload comes back whole. The padding size comes back when it is nonzero; otherwise it is the receiver's previous one. |
| Wire.U16At | pkg/av/rtp.go:103 | `binary.BigEndian.Uint16(buf[at:])`: 256 times the first byte plus the second. The same read gives the profile and length words (rtp.go:121, 123). |
| Wire.U32At | pkg/av/rtp.go:104-105 | `binary.BigEndian.Uint32(buf[at:])`: the first 16-bit half times 2^16 plus the second. The same read gives the CSRC identifiers (rtp.go:109). |
| Wire.U16Bytes | pkg/av/rtp.go:260 | The two bytes `binary.BigEndian.PutUint16` writes: the high byte first. The same write gives the profile and the length word (rtp.go:272, 306). |
| Wire.U32Bytes | pkg/av/rtp.go:261-262 | The four bytes `binary.BigEndian.PutUint32` writes: the high 16-bit half first. The same write gives each CSRC (rtp.go:266). |
| Wire.U16RoundTrip | pkg/av/rtp.go:103 | Reading a big-endian 16-bit field gives back the value written. |
| Wire.U32RoundTrip | pkg/av/rtp.go:104-105 | Reading a big-endian 32-bit field gives back the value written. |
| Wire.U16Reencode | pkg/av/rtp.go:103 | Writing big-endian the 16-bit value read at an offset gives back the two bytes read. |
| Wire.U32Reencode | pkg/av/rtp.go:104-105 | Writing big-endian the 32-bit value read at an offset gives back the four bytes read. |
| Wire.RoundUp4 | pkg/av/rtp.go:216 | `((x + 3) / 4) * 4` is the least multiple of 4 not below x. |
| Wire.Copy | pkg/av/rtp.go:282 | `copy` writes the longest prefix of the source that fits at the offset, returns its length and changes nothing else. |
| Wire.PutUint16 | pkg/av/rtp.go:272 | Writes the value big-endian at the offset and changes nothing else. |
| Wire.PutUint32 | pkg/av/rtp.go:266 | Writes the value big-endian at the offset and changes nothing else. |
| Rtp.RtpHeader.constructor | pkg/av/rtp.go:17-29 | A new header has Go's zero values. |
| Rtp.RtpHeader.Unmarshal | pkg/av/rtp.go:65-190 | The fields after the call, the cursor and the error are `HeaderCodec.HeaderUnmarshal` applied to the fields before the call. |
| Rtp.RtpHeader.ReadFixed | pkg/av/rtp.go:100-110 | Assigns the marker, payload type, sequence number, timestamp, SSRC and CSRC list from the buffer and clears the extension list; nothing else changes. |
| Rtp.RtpHeader.ReadCsrc | pkg/av/rtp.go:107-110 | The CSRC loop replaces each entry with its big-endian word and changes nothing else. |
| Rtp.RtpHeader.UnmarshalExtension | pkg/av/rtp.go:116-188 | The extension part of Unmarshal leaves the fields, the cursor and the error that `HeaderCodec.ExtensionUnmarshal` gives on the fields before it. |
| Rtp.RtpHeader.MarshalSize | pkg/av/rtp.go:193-220 | The loops compute `HeaderCodec.HeaderSize`. |
| Rtp.RtpHeader.MarshalTo | pkg/av/rtp.go:222-316 | The returned count, the error and the new buffer contents are `HeaderCodec.HeaderMarshalInto` of the header and the old buffer. |
| Rtp.RtpHeader.Marshal | pkg/av/rtp.go:319-327 | Returns `HeaderCodec.HeaderMarshal` of the header: the header bytes, or the error. |
| Rtp.RtpPacket.constructor | pkg/av/rtp.go:32-36 | A new packet has a zero header, an empty payload and no padding. |
| Rtp.RtpPacket.Unmarshal | pkg/av/rtp.go:330-345 | The packet's fields after the call and the error are `PacketCodec.PacketUnmarshal` applied to the fields before it. |
| Rtp.RtpPacket.MarshalSize | pkg/av/rtp.go:381-383 | Returns `PacketCodec.PacketSize`: header size plus payload length plus padding size. |
| Rtp.RtpPacket.MarshalTo | pkg/av/rtp.go:360-378 | The buffer and result are `PacketCodec.PacketMarshalInto` of the packet and the old buffer. The only field changed is the header's P, which becomes `PacketCodec.PaddedHeader`'s. |
| Rtp.RtpPacket.Marshal | pkg/av/rtp.go:348-357 | Returns `PacketCodec.PacketMarshal` of the packet, with P updated as in MarshalTo. |
| Rtp.ScanOneByte | pkg/av/rtp.go:132-153 | The one-byte loop ends with the elements, cursor and error of `ExtensionCodec.OneByteScan`. |
| Rtp.ScanTwoByte | pkg/av/rtp.go:156-175 | The two-byte loop ends with the elements, cursor and error of `ExtensionCodec.TwoByteScan`. |
| Rtp.PutCsrcList | pkg/av/rtp.go:264-268 | The CSRC loop writes the CSRC list big-endian at 12 and returns the offset past it. |
| Rtp.PutOneByteUnit | pkg/av/rtp.go:280-282 | One iteration writes the head byte and the payload of one element. |
| Rtp.PutTwoByteUnit | pkg/av/rtp.go:287-291 | One iteration writes the id, the length byte and the payload of one element. |
| Rtp.PutOneByteBody | pkg/av/rtp.go:278-283 | The one-byte encode loop writes the one-byte body and returns the offset past it. |
| Rtp.PutTwoByteBody | pkg/av/rtp.go:285-292 | The two-byte encode loop writes the two-byte body and returns the offset past it. |
| Rtp.PutZeros | pkg/av/rtp.go:309-312 | The fill loop writes k zero bytes and returns the offset past them. |
| Rtp.PutHeader | pkg/av/rtp.go:243-313 | Writing into a buffer large enough ends in one of the three outcomes HeaderWritten converts: no extension, the unaligned refusal, or the full block. |
| Rtp.PutPrefix | pkg/av/rtp.go:243-268 | Writes the fixed header and the CSRC list and returns 12 + 4·CC. |
| Rtp.PutFixedHeader | pkg/av/rtp.go:243-262 | Writes the 12 fixed bytes of the header. |
| Rtp.PutFixed | pkg/av/rtp.go:260-262 | Writes bytes 0 and 1, then the sequence number, timestamp and SSRC big-endian. |
| Rtp.PutExtensionBlock | pkg/av/rtp.go:270-313 | An unaligned RFC 3550 payload leaves only the profile written and returns 0 and `ShortBuffer`. Otherwise the whole extension block is written and its end returned. |
| Rtp.PutExtensionBody | pkg/av/rtp.go:276-300 | The profile switch writes the body of the profile's form. It refuses an unaligned RFC 3550 payload without writing anything. |
| Rtp.PutPayloadAndPadding | pkg/av/rtp.go:367-377 | A packet that does not fit leaves the buffer alone and returns 0 and `ShortBuffer`. Otherwise it copies the payload, writes the padding size into the last padding byte, and returns the packet's end. |
| WorkedCases.MinimalPacketCase | pkg/av/rtp.go:330-345 | The 12-byte packet `80 00 00 01` followed by eight zero bytes decodes to V=2 and sequence number 1, with every other field zero, no CSRC, no extension and an empty payload. Its header marshals back to the same 12 bytes. |
| WorkedCases.PaddedPacketCase | pkg/av/rtp.go:330-378 | A 17-byte packet with P set, payload `55` and padding `00 00 00 04` decodes to that payload and padding size 4, and Marshal gives back the same 17 bytes. |
| WorkedCases.PaddedPacketRoundTrip | pkg/av/rtp.go:330-378 | The same for every 17-byte packet with byte 0 `A0`, any one payload byte and that padding. |
| WorkedCases.OneByteCase | pkg/av/rtp.go:116-312 | A one-byte (0xBEDE) block of two words with body `10 AA 21 BB CC` and three zero bytes. It decodes to the elements (1, `AA`) and (2, `BB CC`) in that order, whatever the receiver held, consuming all 24 bytes. Marshal writes the same 24 bytes back, with length word 2. |
| WorkedCases.OneByteCaseBytes | pkg/av/rtp.go:243-313 | The header of that case is well-formed and MarshalTo writes exactly its 24 bytes. |
| WorkedCases.OneByteCaseHeader | pkg/av/rtp.go:243-313 | The same, for any header and buffer equal to those of the case. |
| WorkedCases.OneByteCaseBlock | pkg/av/rtp.go:270-312 | The extension block of any header with those two one-byte elements is `BE DE 00 02 10 AA 21 BB CC 00 00 00`, and its body is 5 bytes. |
| WorkedCases.ReservedIdCase | pkg/av/rtp.go:130-153 | A one-byte block whose second unit has the reserved id 15. The decode keeps only (1, `AA`) and succeeds, and it returns 19, just past the id-15 byte, not the end of the block at 24. MarshalSize() of that header is 20, so re-encoding does not give back the bytes consumed. |
| WorkedCases.ReservedIdTruncation | pkg/av/rtp.go:130-153 | The same for every such 24-byte buffer, whatever follows the id-15 byte. |
| WorkedCases.ReservedIdScan | pkg/av/rtp.go:134-152 | The one-byte loop over units `10 AA` and `F0` takes the element (1, `AA`), then stops after the id-15 byte with no error. |

## Left out

- `RtpPacket.FmtString` (`rtp.go:386-398`) is not modelled because it is debug text formatting.
- Capacity reuse of `CSRC` and `Extensions` (`rtp.go:89-93`, `112-114`) is not modelled; every decoding allocates afresh. The difference shows only when the CSRC list does not fit. Go may then keep stale identifiers from an earlier decode in the reused slice, while the model's `HeaderCodec.HeaderUnmarshal` always gives zeros.
- Slice aliasing is not modelled: decoded payloads and extension payloads are copies (`seq<byte>`), not views into the input buffer. A slice's capacity is taken to be its length.
- Go's run-time panics are modelled as results:
  - An out-of-range slice or index in the RFC 8285 scans becomes the `SliceOutOfRange` error with the elements decoded so far.
  - Reading `Extensions[0]` of an empty list under an RFC 3550 profile (`rtp.go:212`, `294`) panics too. In that case `HeaderCodec.SizeDefined`, required by the size and encode members, is false.
- The size check at `rtp.go:178-180` cannot fail once the one at `rtp.go:126-128` has passed, so the model has no branch for it.
- `Rtp.ScanOneByte` and `Rtp.ScanTwoByte` accumulate the scanned elements in a local value, and `Rtp.RtpHeader.UnmarshalExtension` assigns the list once the scan returns. The Go code appends to the field on every step; since the error paths keep the partial list, the field values are the same.
- `Rtp.RtpHeader.MarshalTo` and `Rtp.RtpPacket.MarshalTo`: module-level methods (`Rtp.PutHeader`, `Rtp.PutPayloadAndPadding` and their helpers) do the writing, given the header as a value. They write the same bytes in the same order.
- `Rtp.RtpPacket` holds its header as a separate `RtpHeader` object rather than through Go's struct embedding, so fields are reached through `header`.
- Decode-then-encode is not proved for the RFC 8285 profiles. There the bytes the encoder writes for a decoded header can differ from the bytes consumed, for four reasons. Runs of `0x00` between elements are dropped, in both scans. An id-15 unit ends the scan, and the count Unmarshal returns stops just after that byte. Elements may run past the declared block end. A declared block can be longer than its elements need. `WorkedCases.ReservedIdCase` shows the id-15 case. For no extension and for RFC 3550 blocks, `HeaderCodec.HeaderReencode` proves it.
- Decode-then-encode for whole packets is shown only on the two worked padded and minimal packets, not for every buffer. The encoder writes zeros before the padding size byte, so nonzero padding bytes are not given back. An unpadded decode keeps the receiver's old padding size as well.
- Error message texts are not modelled: an error is its `RtpError` constructor with the two numbers the message prints.
- A nil slice and an empty one are not distinguished.
