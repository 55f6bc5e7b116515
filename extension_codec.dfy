/** The body of the header-extension block in its two RFC 8285 forms
    (sections 4.2 and 4.3 of RFC 8285): the scans RtpHeader.Unmarshal runs
    over the declared block, the bytes RtpHeader.MarshalTo writes for a list
    of elements, and the sums RtpHeader.MarshalSize takes of them. */
module ExtensionCodec {
  import opened Bits
  import opened Wire
  import opened RtpTypes

  /** Where a scan stopped: the elements collected, the read cursor n, and
      whether the scan ended in a slice past the end of the buffer. */
  datatype Scan = Scan(exts: seq<Extension>, n: int, err: Option<RtpError>)

  /** What the one-byte scan can yield: an id that is not the reserved 15
      and a payload of 1 to 16 bytes. */
  predicate OneByteShape(e: Extension) {
    e.id < ExtensionIdReserved && 1 <= |e.payload| <= 16
  }

  /** What the two-byte scan can yield: a nonzero id and at most 255 bytes.
      These are also exactly the elements the two-byte form carries
      faithfully: a 0x00 id byte is padding, and the length is one byte. */
  predicate TwoByteShape(e: Extension) {
    e.id != 0 && |e.payload| <= 255
  }

  /** The one-byte loop of RtpHeader.Unmarshal from cursor n, appending to
      acc: a 0x00 byte is skipped; otherwise the high nibble is the id and
      the low nibble (buf[n] &^ 0xF0) plus one the payload length; id 15 ends the scan right
      after its own byte. The end of the declared block is only checked
      between elements, so an element may run past it; one that runs past
      the buffer is the panic. */
  function OneByteScan(buf: seq<byte>, n: int, end: int, acc: seq<Extension>): Scan
    requires 0 <= n <= |buf| && end <= |buf|
    decreases end - n
  {
    if n >= end then Scan(acc, n, None)
    else if buf[n] == 0x00 then OneByteScan(buf, n + 1, end, acc)
    else
      var id := Shr(buf[n], 4);
      var len := Mask(buf[n], 0x0F) + 1;
      if id == ExtensionIdReserved then Scan(acc, n + 1, None)
      else if n + 1 + len > |buf| then Scan(acc, n + 1, Some(SliceOutOfRange))
      else OneByteScan(buf, n + 1 + len, end, acc + [Extension(id, buf[n + 1..n + 1 + len])])
  }

  /** The two-byte loop of RtpHeader.Unmarshal from cursor n: a 0x00 byte is
      skipped; otherwise an id byte, a length byte and that many payload
      bytes. Reading the length byte or the payload past the end of the
      buffer is the panic. */
  function TwoByteScan(buf: seq<byte>, n: int, end: int, acc: seq<Extension>): Scan
    requires 0 <= n <= |buf| && end <= |buf|
    decreases end - n
  {
    if n >= end then Scan(acc, n, None)
    else if buf[n] == 0x00 then TwoByteScan(buf, n + 1, end, acc)
    else if n + 1 >= |buf| then Scan(acc, n + 1, Some(SliceOutOfRange))
    else
      var id := buf[n];
      var len := buf[n + 1];
      if n + 2 + len > |buf| then Scan(acc, n + 2, Some(SliceOutOfRange))
      else TwoByteScan(buf, n + 2 + len, end, acc + [Extension(id, buf[n + 2..n + 2 + len])])
  }

  /** Where the one-byte scan stops: at or after its start and within the
      buffer; short of the block end only right after the reserved id 15;
      with an error only for an element that runs past the buffer. */
  lemma {:induction false} OneByteScanBounds(buf: seq<byte>, n: int, end: int, acc: seq<Extension>)
    requires 0 <= n <= |buf| && end <= |buf|
    ensures var r := OneByteScan(buf, n, end, acc);
      n <= r.n <= |buf| &&
      (r.err.None? && r.n < end ==> 0 < r.n && Shr(buf[r.n - 1], 4) == ExtensionIdReserved) &&
      (r.err.Some? ==> r.err == Some(SliceOutOfRange))
    decreases end - n
  {
    if n < end && buf[n] == 0x00 {
      OneByteScanBounds(buf, n + 1, end, acc);
    } else if n < end {
      var id := Shr(buf[n], 4);
      var len := Mask(buf[n], 0x0F) + 1;
      if id != ExtensionIdReserved && n + 1 + len <= |buf| {
        OneByteScanBounds(buf, n + 1 + len, end, acc + [Extension(id, buf[n + 1..n + 1 + len])]);
      }
    }
  }

  /** Where the two-byte scan stops: at or after its start and within the
      buffer, at or past the block end unless an element runs past the
      buffer, which is the only error. */
  lemma {:induction false} TwoByteScanBounds(buf: seq<byte>, n: int, end: int, acc: seq<Extension>)
    requires 0 <= n <= |buf| && end <= |buf|
    ensures var r := TwoByteScan(buf, n, end, acc);
      n <= r.n <= |buf| && (r.err.None? ==> r.n >= end) &&
      (r.err.Some? ==> r.err == Some(SliceOutOfRange))
    decreases end - n
  {
    if n < end && buf[n] == 0x00 {
      TwoByteScanBounds(buf, n + 1, end, acc);
    } else if n < end && n + 1 < |buf| && n + 2 + buf[n + 1] <= |buf| {
      TwoByteScanBounds(buf, n + 2 + buf[n + 1], end, acc + [Extension(buf[n], buf[n + 2..n + 2 + buf[n + 1]])]);
    }
  }

  /** The steps of the one-byte loop at the byte at head, with p == head + 1
      the cursor after it: a padding byte, the reserved id, an element that
      runs past the buffer, an element. */
  lemma OneByteScanPadding(buf: seq<byte>, head: int, p: int, end: int, acc: seq<Extension>)
    requires 0 <= head < end <= |buf| && p == head + 1 && buf[head] == 0x00
    ensures OneByteScan(buf, head, end, acc) == OneByteScan(buf, p, end, acc)
  {
  }

  lemma OneByteScanReserved(buf: seq<byte>, head: int, p: int, end: int, acc: seq<Extension>)
    requires 0 <= head < end <= |buf| && p == head + 1
    requires buf[head] != 0x00 && Shr(buf[head], 4) == ExtensionIdReserved
    ensures OneByteScan(buf, head, end, acc) == Scan(acc, p, None)
  {
  }

  lemma OneByteScanOverrun(buf: seq<byte>, head: int, p: int, end: int, acc: seq<Extension>)
    requires 0 <= head < end <= |buf| && p == head + 1
    requires buf[head] != 0x00 && Shr(buf[head], 4) != ExtensionIdReserved
    requires p + Mask(buf[head], 0x0F) + 1 > |buf|
    ensures OneByteScan(buf, head, end, acc) == Scan(acc, p, Some(SliceOutOfRange))
  {
  }

  lemma OneByteScanElement(buf: seq<byte>, head: int, p: int, m: int, end: int, acc: seq<Extension>, e: Extension)
    requires 0 <= head < end <= |buf| && p == head + 1
    requires buf[head] != 0x00 && e.id == Shr(buf[head], 4) && e.id != ExtensionIdReserved
    requires m == p + Mask(buf[head], 0x0F) + 1 && m <= |buf| && e.payload == buf[p..m]
    ensures OneByteScan(buf, head, end, acc) == OneByteScan(buf, m, end, acc + [e])
  {
  }

  /** The steps of the two-byte loop at the byte at head, with p == head + 1
      the cursor at the length byte and q == p + 1 the one after it: a
      padding byte, no length byte, a payload that runs past the buffer, an
      element. */
  lemma TwoByteScanPadding(buf: seq<byte>, head: int, p: int, end: int, acc: seq<Extension>)
    requires 0 <= head < end <= |buf| && p == head + 1 && buf[head] == 0x00
    ensures TwoByteScan(buf, head, end, acc) == TwoByteScan(buf, p, end, acc)
  {
  }

  lemma TwoByteScanNoLength(buf: seq<byte>, head: int, p: int, end: int, acc: seq<Extension>)
    requires 0 <= head < end <= |buf| && p == head + 1 && buf[head] != 0x00 && p >= |buf|
    ensures TwoByteScan(buf, head, end, acc) == Scan(acc, p, Some(SliceOutOfRange))
  {
  }

  lemma TwoByteScanOverrun(buf: seq<byte>, head: int, p: int, q: int, end: int, acc: seq<Extension>)
    requires 0 <= head < end <= |buf| && p == head + 1 && q == p + 1 && buf[head] != 0x00
    requires p < |buf| && q + buf[p] > |buf|
    ensures TwoByteScan(buf, head, end, acc) == Scan(acc, q, Some(SliceOutOfRange))
  {
  }

  lemma TwoByteScanElement(buf: seq<byte>, head: int, p: int, q: int, m: int, end: int, acc: seq<Extension>, e: Extension)
    requires 0 <= head < end <= |buf| && p == head + 1 && q == p + 1 && buf[head] != 0x00
    requires p < |buf| && m == q + buf[p] && m <= |buf| && e == Extension(buf[head], buf[q..m])
    ensures TwoByteScan(buf, head, end, acc) == TwoByteScan(buf, m, end, acc + [e])
  {
  }

  /** The one-byte scan only appends to what it was given, and every element
      it appends has an id below 15 and 1 to 16 payload bytes. */
  lemma {:induction false} OneByteScanYields(buf: seq<byte>, n: int, end: int, acc: seq<Extension>)
    requires 0 <= n <= |buf| && end <= |buf|
    ensures var r := OneByteScan(buf, n, end, acc);
      |acc| <= |r.exts| && r.exts[..|acc|] == acc &&
      forall i :: |acc| <= i < |r.exts| ==> OneByteShape(r.exts[i])
    decreases end - n
  {
    if n < end && buf[n] == 0x00 {
      OneByteScanYields(buf, n + 1, end, acc);
    } else if n < end {
      var id := Shr(buf[n], 4);
      var len := Mask(buf[n], 0x0F) + 1;
      if id != ExtensionIdReserved && n + 1 + len <= |buf| {
        var e := Extension(id, buf[n + 1..n + 1 + len]);
        assert OneByteShape(e) by {
          ShrValues(buf[n]);
        }
        OneByteScanYields(buf, n + 1 + len, end, acc + [e]);
        ScanPrefix(acc, e, OneByteScan(buf, n, end, acc).exts);
      }
    }
  }

  /** What extends acc + [e] extends acc, and its elements past acc are e and
      those past acc + [e]. */
  lemma ScanPrefix(acc: seq<Extension>, e: Extension, exts: seq<Extension>)
    requires |acc| + 1 <= |exts| && exts[..|acc| + 1] == acc + [e]
    ensures exts[..|acc|] == acc && exts[|acc|] == e
  {
    assert exts[..|acc|] == exts[..|acc| + 1][..|acc|];
  }

  /** The two-byte scan only appends to what it was given, and every element
      it appends has a nonzero id and at most 255 payload bytes. */
  lemma {:induction false} TwoByteScanYields(buf: seq<byte>, n: int, end: int, acc: seq<Extension>)
    requires 0 <= n <= |buf| && end <= |buf|
    ensures var r := TwoByteScan(buf, n, end, acc);
      |acc| <= |r.exts| && r.exts[..|acc|] == acc &&
      forall i :: |acc| <= i < |r.exts| ==> TwoByteShape(r.exts[i])
    decreases end - n
  {
    if n < end && buf[n] == 0x00 {
      TwoByteScanYields(buf, n + 1, end, acc);
    } else if n < end && n + 1 < |buf| && n + 2 + buf[n + 1] <= |buf| {
      var e := Extension(buf[n], buf[n + 2..n + 2 + buf[n + 1]]);
      TwoByteScanYields(buf, n + 2 + buf[n + 1], end, acc + [e]);
      ScanPrefix(acc, e, TwoByteScan(buf, n, end, acc).exts);
    }
  }

  /** The bytes MarshalTo writes for one one-byte element: id << 4 OR'ed
      with uint8(len(payload)) - 1, then the payload. Both are uint8
      arithmetic: the shift drops the high bits of an id above 15, and an
      empty payload gives 0xFF. */
  function OneByteUnit(e: Extension): seq<byte> {
    [OneByteHead(e)] + e.payload
  }

  /** The one-byte element header: id << 4 | (uint8(len(payload)) - 1), in
      uint8 arithmetic. */
  function OneByteHead(e: Extension): byte {
    Or8(U8(Shl(e.id, 4)), U8(U8(|e.payload|) - 1))
  }

  /** The bytes MarshalTo writes for one two-byte element. */
  function TwoByteUnit(e: Extension): seq<byte> {
    [e.id, U8(|e.payload|)] + e.payload
  }

  function OneByteBody(exts: seq<Extension>): seq<byte> {
    if exts == [] then [] else OneByteUnit(exts[0]) + OneByteBody(exts[1..])
  }

  function TwoByteBody(exts: seq<Extension>): seq<byte> {
    if exts == [] then [] else TwoByteUnit(exts[0]) + TwoByteBody(exts[1..])
  }

  /** The sum MarshalSize takes for the one-byte form: 1 + len per element. */
  function OneByteBodySize(exts: seq<Extension>): nat {
    if exts == [] then 0 else 1 + |exts[0].payload| + OneByteBodySize(exts[1..])
  }

  /** The sum MarshalSize takes for the two-byte form: 2 + len per element. */
  function TwoByteBodySize(exts: seq<Extension>): nat {
    if exts == [] then 0 else 2 + |exts[0].payload| + TwoByteBodySize(exts[1..])
  }

  /** MarshalSize's sum is the number of bytes MarshalTo writes. */
  lemma {:induction false} OneByteBodyLength(exts: seq<Extension>)
    ensures |OneByteBody(exts)| == OneByteBodySize(exts)
  {
    if exts != [] { OneByteBodyLength(exts[1..]); }
  }

  /** MarshalSize's sum is the number of bytes MarshalTo writes. */
  lemma {:induction false} TwoByteBodyLength(exts: seq<Extension>)
    ensures |TwoByteBody(exts)| == TwoByteBodySize(exts)
  {
    if exts != [] { TwoByteBodyLength(exts[1..]); }
  }

  /** Writing one more element appends its unit (MarshalTo's loop step). */
  lemma {:induction false} OneByteBodyAppend(exts: seq<Extension>, e: Extension)
    ensures OneByteBody(exts + [e]) == OneByteBody(exts) + OneByteUnit(e)
    ensures OneByteBodySize(exts + [e]) == OneByteBodySize(exts) + 1 + |e.payload|
  {
    if exts == [] {
      assert [e][1..] == [];
    } else {
      var tail := exts[1..] + [e];
      assert (exts + [e])[0] == exts[0] && (exts + [e])[1..] == tail;
      OneByteBodyAppend(exts[1..], e);
      calc {
        OneByteBody(exts + [e]);
        OneByteUnit(exts[0]) + OneByteBody(tail);
        OneByteUnit(exts[0]) + (OneByteBody(exts[1..]) + OneByteUnit(e));
        (OneByteUnit(exts[0]) + OneByteBody(exts[1..])) + OneByteUnit(e);
      }
    }
  }

  /** Writing one more element appends its unit (MarshalTo's loop step). */
  lemma {:induction false} TwoByteBodyAppend(exts: seq<Extension>, e: Extension)
    ensures TwoByteBody(exts + [e]) == TwoByteBody(exts) + TwoByteUnit(e)
    ensures TwoByteBodySize(exts + [e]) == TwoByteBodySize(exts) + 2 + |e.payload|
  {
    if exts == [] {
      assert [e][1..] == [];
    } else {
      var tail := exts[1..] + [e];
      assert (exts + [e])[0] == exts[0] && (exts + [e])[1..] == tail;
      TwoByteBodyAppend(exts[1..], e);
      calc {
        TwoByteBody(exts + [e]);
        TwoByteUnit(exts[0]) + TwoByteBody(tail);
        TwoByteUnit(exts[0]) + (TwoByteBody(exts[1..]) + TwoByteUnit(e));
        (TwoByteUnit(exts[0]) + TwoByteBody(exts[1..])) + TwoByteUnit(e);
      }
    }
  }

  /** A prefix of the list takes no more room than the whole list. */
  lemma {:induction false} OneByteBodySizePrefix(exts: seq<Extension>, i: int)
    requires 0 <= i <= |exts|
    ensures OneByteBodySize(exts[..i]) <= OneByteBodySize(exts)
    decreases |exts| - i
  {
    if i < |exts| {
      OneByteBodySizePrefix(exts, i + 1);
      assert exts[..i + 1] == exts[..i] + [exts[i]];
      OneByteBodyAppend(exts[..i], exts[i]);
    } else {
      assert exts[..i] == exts;
    }
  }

  /** A prefix of the list takes no more room than the whole list. */
  lemma {:induction false} TwoByteBodySizePrefix(exts: seq<Extension>, i: int)
    requires 0 <= i <= |exts|
    ensures TwoByteBodySize(exts[..i]) <= TwoByteBodySize(exts)
    decreases |exts| - i
  {
    if i < |exts| {
      TwoByteBodySizePrefix(exts, i + 1);
      assert exts[..i + 1] == exts[..i] + [exts[i]];
      TwoByteBodyAppend(exts[..i], exts[i]);
    } else {
      assert exts[..i] == exts;
    }
  }

  /** One more element of the list written: the prefix body grows by that
      element's unit and stays within the whole body. */
  lemma OneByteBodyPrefixStep(exts: seq<Extension>, i: int)
    requires 0 <= i < |exts|
    ensures OneByteBody(exts[..i + 1]) == OneByteBody(exts[..i]) + OneByteUnit(exts[i])
    ensures |OneByteBody(exts[..i + 1])| <= |OneByteBody(exts)|
  {
    assert exts[..i + 1] == exts[..i] + [exts[i]];
    OneByteBodyAppend(exts[..i], exts[i]);
    OneByteBodySizePrefix(exts, i + 1);
    OneByteBodyLength(exts[..i + 1]);
    OneByteBodyLength(exts);
  }

  /** One more element of the list written: the prefix body grows by that
      element's unit and stays within the whole body. */
  lemma TwoByteBodyPrefixStep(exts: seq<Extension>, i: int)
    requires 0 <= i < |exts|
    ensures TwoByteBody(exts[..i + 1]) == TwoByteBody(exts[..i]) + TwoByteUnit(exts[i])
    ensures |TwoByteBody(exts[..i + 1])| <= |TwoByteBody(exts)|
  {
    assert exts[..i + 1] == exts[..i] + [exts[i]];
    TwoByteBodyAppend(exts[..i], exts[i]);
    TwoByteBodySizePrefix(exts, i + 1);
    TwoByteBodyLength(exts[..i + 1]);
    TwoByteBodyLength(exts);
  }

  /** An element the one-byte form can carry faithfully: id 1 to 14 and a
      payload of 1 to 16 bytes. */
  predicate OneByteWellFormed(e: Extension) {
    1 <= e.id <= 14 && 1 <= |e.payload| <= 16
  }

  /** The first byte of a well-formed one-byte unit is not padding, does not
      carry the reserved id, and gives back the id and the length. */
  lemma OneByteUnitHead(e: Extension, b: byte)
    requires OneByteWellFormed(e) && b == OneByteUnit(e)[0]
    ensures b != 0x00 && Shr(b, 4) == e.id && Shr(b, 4) != ExtensionIdReserved
    ensures Mask(b, 0x0F) + 1 == |e.payload|
  {
    OneByteHeadValue(e.id, |e.payload|);
    OneByteHeadFields(e.id, |e.payload| - 1, b);
  }

  /** id << 4 | (len - 1) for a 4-bit id and 1 to 16 bytes is the id above
      bit 4 plus len - 1. */
  lemma OneByteHeadValue(id: byte, len: nat)
    requires id <= 14 && 1 <= len <= 16
    ensures Or8(U8(Shl(id, 4)), U8(U8(len) - 1)) == 16 * id + len - 1
  {
    var m := len - 1;
    ShlValues(id);
    assert U8(Shl(id, 4)) == Shl(id, 4) && U8(U8(len) - 1) == m;
    assert Shl(0, 4) + m == m && Or(id, 0) == id;
    OrBelow(id, 0, m, 4);
  }

  /** The high and low nibbles of 16 * id + m. */
  lemma OneByteHeadFields(id: nat, m: nat, b: byte)
    requires m <= 15 && b == 16 * id + m
    ensures Shr(b, 4) == id && Mask(b, 0x0F) == m
  {
    ShrValues(b);
  }

  /** A run of 0x00 bytes up to the block end is skipped as padding. */
  lemma {:induction false} OneByteSkipsZeros(buf: seq<byte>, n: int, end: int, acc: seq<Extension>)
    requires 0 <= n <= end <= |buf|
    requires forall k :: n <= k < end ==> buf[k] == 0x00
    ensures OneByteScan(buf, n, end, acc) == Scan(acc, end, None)
    decreases end - n
  {
    if n < end { OneByteSkipsZeros(buf, n + 1, end, acc); }
  }

  /** A run of 0x00 bytes up to the block end is skipped as padding. */
  lemma {:induction false} TwoByteSkipsZeros(buf: seq<byte>, n: int, end: int, acc: seq<Extension>)
    requires 0 <= n <= end <= |buf|
    requires forall k :: n <= k < end ==> buf[k] == 0x00
    ensures TwoByteScan(buf, n, end, acc) == Scan(acc, end, None)
    decreases end - n
  {
    if n < end { TwoByteSkipsZeros(buf, n + 1, end, acc); }
  }

  /** The one-byte scan reads a well-formed unit at the cursor back as the
      element it encodes and moves past it; the rest of the window up to
      mid follows. */
  lemma OneByteStep(buf: seq<byte>, n: int, m: int, mid: int, end: int, e: Extension, rest: seq<byte>, acc: seq<Extension>)
    requires OneByteWellFormed(e)
    requires 0 <= n && m == n + |OneByteUnit(e)| && mid == m + |rest| && mid <= end <= |buf|
    requires buf[n..mid] == OneByteUnit(e) + rest
    ensures OneByteScan(buf, n, end, acc) == OneByteScan(buf, m, end, acc + [e])
    ensures buf[m..mid] == rest
  {
    OneByteUnitAt(buf, n, m, mid, e, rest);
    OneByteUnitHead(e, buf[n]);
    OneByteScanElement(buf, n, n + 1, m, end, acc, e);
  }

  /** A window holding a one-byte unit and what follows: the head byte at
      n, the payload after it and the rest from m to mid. */
  lemma OneByteUnitAt(buf: seq<byte>, n: int, m: int, mid: int, e: Extension, rest: seq<byte>)
    requires 0 <= n && m == n + |OneByteUnit(e)| && mid == m + |rest| && mid <= |buf|
    requires buf[n..mid] == OneByteUnit(e) + rest
    ensures buf[n] == OneByteUnit(e)[0]
    ensures buf[n + 1..m] == e.payload && buf[m..mid] == rest
  {
    var u := OneByteUnit(e);
    SplitAt(buf, n, u, rest);
    SplitAt(buf, n, [u[0]], e.payload);
  }

  /** Moving the head of a list onto the end of what precedes it. */
  lemma AppendHead<T>(acc: seq<T>, exts: seq<T>)
    requires exts != []
    ensures acc + [exts[0]] + exts[1..] == acc + exts
  {
    assert exts == [exts[0]] + exts[1..];
  }

  /** Scanning the one-byte body MarshalTo writes over [n, mid), followed by
      zero padding up to the block end, yields exactly the elements written,
      in order, and leaves the cursor at the block end. */
  lemma {:induction false} OneByteRoundTrip(buf: seq<byte>, n: int, mid: int, end: int, exts: seq<Extension>, acc: seq<Extension>)
    requires forall i :: 0 <= i < |exts| ==> OneByteWellFormed(exts[i])
    requires 0 <= n && mid == n + |OneByteBody(exts)| && mid <= end <= |buf|
    requires buf[n..mid] == OneByteBody(exts)
    requires buf[mid..end] == Zeros(end - mid)
    ensures OneByteScan(buf, n, end, acc) == Scan(acc + exts, end, None)
    decreases exts, 1
  {
    if exts == [] {
      forall k | n <= k < end
        ensures buf[k] == 0x00
      {
        assert buf[k] == buf[mid..end][k - mid];
      }
      OneByteSkipsZeros(buf, n, end, acc);
    } else {
      OneByteRoundTripCons(buf, n, mid, end, exts, acc);
    }
  }

  /** The inductive step of OneByteRoundTrip: the first unit, then the
      rest of the list. */
  lemma {:induction false} OneByteRoundTripCons(buf: seq<byte>, n: int, mid: int, end: int, exts: seq<Extension>, acc: seq<Extension>)
    requires exts != [] && forall i :: 0 <= i < |exts| ==> OneByteWellFormed(exts[i])
    requires 0 <= n && mid == n + |OneByteBody(exts)| && mid <= end <= |buf|
    requires buf[n..mid] == OneByteBody(exts)
    requires buf[mid..end] == Zeros(end - mid)
    ensures OneByteScan(buf, n, end, acc) == Scan(acc + exts, end, None)
    decreases exts, 0
  {
    var e := exts[0];
    var rest := OneByteBody(exts[1..]);
    var m := n + |OneByteUnit(e)|;
    assert mid == m + |rest| && buf[m..mid] == rest
           && OneByteScan(buf, n, end, acc) == OneByteScan(buf, m, end, acc + [e]) by {
      assert OneByteBody(exts) == OneByteUnit(e) + rest;
      OneByteStep(buf, n, m, mid, end, e, rest, acc);
    }
    assert forall i :: 0 <= i < |exts[1..]| ==> OneByteWellFormed(exts[1..][i]) by {
      forall i | 0 <= i < |exts[1..]|
        ensures OneByteWellFormed(exts[1..][i])
      {
        assert exts[1..][i] == exts[i + 1];
      }
    }
    OneByteRoundTrip(buf, m, mid, end, exts[1..], acc + [e]);
    AppendHead(acc, exts);
  }


  /** The two-byte scan reads a well-formed unit at the cursor back as the
      element it encodes and moves past it; the rest of the window up to
      mid follows. */
  lemma TwoByteStep(buf: seq<byte>, n: int, m: int, mid: int, end: int, e: Extension, rest: seq<byte>, acc: seq<Extension>)
    requires TwoByteShape(e)
    requires 0 <= n && m == n + |TwoByteUnit(e)| && mid == m + |rest| && mid <= end <= |buf|
    requires buf[n..mid] == TwoByteUnit(e) + rest
    ensures TwoByteScan(buf, n, end, acc) == TwoByteScan(buf, m, end, acc + [e])
    ensures buf[m..mid] == rest
  {
    var u := TwoByteUnit(e);
    SplitAt(buf, n, u, rest);
    SplitAt(buf, n, u[..2], e.payload);
    assert buf[n] == e.id && buf[n + 1] == |e.payload|;
    TwoByteScanElement(buf, n, n + 1, n + 2, m, end, acc, e);
  }

  /** Scanning the two-byte body MarshalTo writes over [n, mid), followed by
      zero padding up to the block end, yields exactly the elements written,
      in order. */
  lemma {:induction false} TwoByteRoundTrip(buf: seq<byte>, n: int, mid: int, end: int, exts: seq<Extension>, acc: seq<Extension>)
    requires forall i :: 0 <= i < |exts| ==> TwoByteShape(exts[i])
    requires 0 <= n && mid == n + |TwoByteBody(exts)| && mid <= end <= |buf|
    requires buf[n..mid] == TwoByteBody(exts)
    requires buf[mid..end] == Zeros(end - mid)
    ensures TwoByteScan(buf, n, end, acc) == Scan(acc + exts, end, None)
    decreases exts, 1
  {
    if exts == [] {
      forall k | n <= k < end
        ensures buf[k] == 0x00
      {
        assert buf[k] == buf[mid..end][k - mid];
      }
      TwoByteSkipsZeros(buf, n, end, acc);
    } else {
      TwoByteRoundTripCons(buf, n, mid, end, exts, acc);
    }
  }

  /** The inductive step of TwoByteRoundTrip: the first unit, then the
      rest of the list. */
  lemma {:induction false} TwoByteRoundTripCons(buf: seq<byte>, n: int, mid: int, end: int, exts: seq<Extension>, acc: seq<Extension>)
    requires exts != [] && forall i :: 0 <= i < |exts| ==> TwoByteShape(exts[i])
    requires 0 <= n && mid == n + |TwoByteBody(exts)| && mid <= end <= |buf|
    requires buf[n..mid] == TwoByteBody(exts)
    requires buf[mid..end] == Zeros(end - mid)
    ensures TwoByteScan(buf, n, end, acc) == Scan(acc + exts, end, None)
    decreases exts, 0
  {
    var e := exts[0];
    var rest := TwoByteBody(exts[1..]);
    var m := n + |TwoByteUnit(e)|;
    assert mid == m + |rest| && buf[m..mid] == rest
           && TwoByteScan(buf, n, end, acc) == TwoByteScan(buf, m, end, acc + [e]) by {
      assert TwoByteBody(exts) == TwoByteUnit(e) + rest;
      TwoByteStep(buf, n, m, mid, end, e, rest, acc);
    }
    assert forall i :: 0 <= i < |exts[1..]| ==> TwoByteShape(exts[1..][i]) by {
      forall i | 0 <= i < |exts[1..]|
        ensures TwoByteShape(exts[1..][i])
      {
        assert exts[1..][i] == exts[i + 1];
      }
    }
    TwoByteRoundTrip(buf, m, mid, end, exts[1..], acc + [e]);
    AppendHead(acc, exts);
  }

}
