/** Byte-level vocabulary shared by the RTP codec: big-endian 16- and
    32-bit fields (Go's encoding/binary BigEndian), zero runs, rounding to 32-bit words, and the in-place buffer writes
    (Go's built-in copy and binary.BigEndian.PutUint16/PutUint32). */
module Wire {
  import opened Bits

  /** binary.BigEndian.PutUint16: most significant byte first. */
  function U16Bytes(x: uint16): (r: seq<byte>)
    ensures |r| == 2
  {
    [x / 0x100, x % 0x100]
  }

  /** binary.BigEndian.Uint16(buf[at:]). */
  function U16At(buf: seq<byte>, at: int): uint16
    requires 0 <= at && at + 2 <= |buf|
  {
    buf[at] as int * 0x100 + buf[at + 1] as int
  }

  /** binary.BigEndian.PutUint32: two big-endian halves, high half first. */
  function U32Bytes(x: uint32): (r: seq<byte>)
    ensures |r| == 4
  {
    U16Bytes(x / 0x1_0000) + U16Bytes(x % 0x1_0000)
  }

  /** binary.BigEndian.Uint32(buf[at:]). */
  function U32At(buf: seq<byte>, at: int): uint32
    requires 0 <= at && at + 4 <= |buf|
  {
    U16At(buf, at) * 0x1_0000 + U16At(buf, at + 2)
  }

  /** Reading back the two bytes PutUint16 wrote gives the value written. */
  lemma U16RoundTrip(x: uint16, buf: seq<byte>, at: int)
    requires 0 <= at && at + 2 <= |buf|
    requires buf[at..at + 2] == U16Bytes(x)
    ensures U16At(buf, at) == x
  {
    assert buf[at] == U16Bytes(x)[0] && buf[at + 1] == U16Bytes(x)[1];
  }

  /** Reading back the four bytes PutUint32 wrote gives the value written. */
  lemma U32RoundTrip(x: uint32, buf: seq<byte>, at: int)
    requires 0 <= at && at + 4 <= |buf|
    requires buf[at..at + 4] == U32Bytes(x)
    ensures U32At(buf, at) == x
  {
    assert buf[at..at + 2] == buf[at..at + 4][..2];
    assert buf[at + 2..at + 4] == buf[at..at + 4][2..];
    U16RoundTrip(x / 0x1_0000, buf, at);
    U16RoundTrip(x % 0x1_0000, buf, at + 2);
  }

  /** PutUint16 of what Uint16 reads at at writes back the two bytes read. */
  lemma U16Reencode(buf: seq<byte>, at: int)
    requires 0 <= at && at + 2 <= |buf|
    ensures U16Bytes(U16At(buf, at)) == buf[at..at + 2]
  {
  }

  /** PutUint32 of what Uint32 reads at at writes back the four bytes read. */
  lemma U32Reencode(buf: seq<byte>, at: int)
    requires 0 <= at && at + 4 <= |buf|
    ensures U32Bytes(U32At(buf, at)) == buf[at..at + 4]
  {
    var x := U32At(buf, at);
    assert x / 0x1_0000 == U16At(buf, at) && x % 0x1_0000 == U16At(buf, at + 2);
    U16Reencode(buf, at);
    U16Reencode(buf, at + 2);
    assert buf[at..at + 4] == buf[at..at + 2] + buf[at + 2..at + 4];
  }

  /** k zero bytes. */
  function Zeros(k: nat): (r: seq<byte>)
    ensures |r| == k
    ensures forall i :: 0 <= i < k ==> r[i] == 0
  {
    seq(k, _ => 0)
  }

  /** One more zero byte. */
  lemma ZerosSucc(k: nat)
    ensures Zeros(k) + [0] == Zeros(k + 1)
  {
    assert (Zeros(k) + [0])[k] == 0;
  }

  /** ((x + 3) / 4) * 4: the 32-bit boundary at or just after x. */
  function RoundUp4(x: nat): (r: nat)
    ensures r % 4 == 0 && x <= r < x + 4
  {
    ((x + 3) / 4) * 4
  }

  /** Rounding after a whole word adds that word. */
  lemma RoundUp4Shift(x: nat)
    ensures RoundUp4(4 + x) == 4 + RoundUp4(x)
  {
    assert (4 + x + 3) / 4 == (x + 3) / 4 + 1;
  }

  /** A whole number of words is its own rounding, and is 4 times its word
      count. */
  lemma RoundUp4Exact(x: nat)
    requires x % 4 == 0
    ensures RoundUp4(x) == x && (x / 4) * 4 == x
  {
    assert (x + 3) / 4 == x / 4;
  }

  /** A window of buf that holds a + b holds a, then b. */
  lemma SplitAt(buf: seq<byte>, n: int, a: seq<byte>, b: seq<byte>)
    requires 0 <= n && n + |a| + |b| <= |buf|
    requires buf[n..n + |a| + |b|] == a + b
    ensures buf[n..n + |a|] == a
    ensures buf[n + |a|..n + |a| + |b|] == b
  {
    assert buf[n..n + |a|] == buf[n..n + |a| + |b|][..|a|];
    assert buf[n + |a|..n + |a| + |b|] == buf[n..n + |a| + |b|][|a|..];
  }

  /** A window of buf that holds w holds each part of w at the matching
      offset. */
  lemma SubWindow(buf: seq<byte>, lo: int, w: seq<byte>, i: int, j: int)
    requires 0 <= lo && lo + |w| <= |buf| && buf[lo..lo + |w|] == w
    requires 0 <= i <= j <= |w|
    ensures buf[lo + i..lo + j] == w[i..j]
  {
    forall k | 0 <= k < j - i
      ensures buf[lo + i..lo + j][k] == w[i..j][k]
    {
      assert w[i + k] == buf[lo..lo + |w|][i + k];
    }
  }

  /** The sequence s with the bytes from position at on replaced by w. */
  function Overlay(s: seq<byte>, at: nat, w: seq<byte>): (r: seq<byte>)
    requires at + |w| <= |s|
    ensures |r| == |s|
    ensures r[..at] == s[..at] && r[at..at + |w|] == w && r[at + |w|..] == s[at + |w|..]
  {
    s[..at] + w + s[at + |w|..]
  }

  /** What an overlay holds: s before at, then w, then s again. */
  lemma OverlayParts(s: seq<byte>, at: nat, w: seq<byte>)
    requires at + |w| <= |s|
    ensures var r := Overlay(s, at, w);
      r[..at] == s[..at] && r[at..at + |w|] == w && r[at + |w|..] == s[at + |w|..]
  {
    var r := Overlay(s, at, w);
    assert r == s[..at] + w + s[at + |w|..];
    assert r[..at] == s[..at];
    assert r[at..at + |w|] == w;
  }

  /** Writing v right after a written run w extends the run. */
  lemma OverlayAdjacent(s: seq<byte>, at: nat, w: seq<byte>, v: seq<byte>)
    requires at + |w| + |v| <= |s|
    ensures Overlay(Overlay(s, at, w), at + |w|, v) == Overlay(s, at, w + v)
  {
    var a := Overlay(Overlay(s, at, w), at + |w|, v);
    var b := Overlay(s, at, w + v);
    forall k | 0 <= k < |s|
      ensures a[k] == b[k]
    {
      if k < at {
        assert a[k] == a[..at][k] && b[k] == b[..at][k];
      } else if k < at + |w| {
        assert a[k] == a[..at + |w|][k] && b[k] == b[at..at + |w| + |v|][k - at];
      } else if k < at + |w| + |v| {
        assert a[k] == a[at + |w|..at + |w| + |v|][k - at - |w|];
        assert b[k] == b[at..at + |w| + |v|][k - at];
      } else {
        assert a[k] == a[at + |w| + |v|..][k - at - |w| - |v|];
        assert b[k] == b[at + |w| + |v|..][k - at - |w| - |v|];
      }
    }
  }

  /** Overwriting part of a written run w gives the run with that part
      replaced. */
  lemma OverlayPatch(s: seq<byte>, at: nat, w: seq<byte>, j: nat, v: seq<byte>)
    requires j + |v| <= |w| && at + |w| <= |s|
    ensures Overlay(Overlay(s, at, w), at + j, v) == Overlay(s, at, w[..j] + v + w[j + |v|..])
  {
    var a := Overlay(Overlay(s, at, w), at + j, v);
    var w' := w[..j] + v + w[j + |v|..];
    var b := Overlay(s, at, w');
    forall k | 0 <= k < |s|
      ensures a[k] == b[k]
    {
      if k < at {
        assert a[k] == a[..at + j][k] && b[k] == b[..at][k];
      } else if k < at + j {
        assert a[k] == a[..at + j][k] && b[k] == b[at..at + |w'|][k - at];
      } else if k < at + j + |v| {
        assert a[k] == a[at + j..at + j + |v|][k - at - j];
        assert b[k] == b[at..at + |w'|][k - at];
      } else if k < at + |w| {
        assert a[k] == a[at + j + |v|..][k - at - j - |v|];
        assert b[k] == b[at..at + |w'|][k - at];
      } else {
        assert a[k] == a[at + j + |v|..][k - at - j - |v|];
        assert b[k] == b[at + |w'|..][k - at - |w'|];
      }
    }
  }

  /** Filling the hole after a in a + hole + rest with v. */
  lemma FillHole(a: seq<byte>, hole: seq<byte>, rest: seq<byte>, v: seq<byte>)
    requires |hole| == |v|
    ensures (a + hole + rest)[..|a|] + v + (a + hole + rest)[|a| + |v|..] == a + v + rest
  {
    assert (a + hole + rest)[..|a|] == a;
    assert (a + hole + rest)[|a| + |v|..] == rest;
  }

  /** Counting the k bytes already in s after the run w as written changes
      nothing. */
  lemma OverlayKeep(s: seq<byte>, at: nat, w: seq<byte>, k: nat)
    requires at + |w| + k <= |s|
    ensures Overlay(s, at, w + s[at + |w|..at + |w| + k]) == Overlay(s, at, w)
  {
    var a := Overlay(s, at, w + s[at + |w|..at + |w| + k]);
    var b := Overlay(s, at, w);
    forall i | 0 <= i < |s|
      ensures a[i] == b[i]
    {
      if i < at {
        assert a[i] == a[..at][i] && b[i] == b[..at][i];
      } else if i < at + |w| {
        assert a[i] == a[at..at + |w| + k][i - at] && b[i] == b[at..at + |w|][i - at];
      } else if i < at + |w| + k {
        assert a[i] == a[at..at + |w| + k][i - at] && b[i] == b[at + |w|..][i - at - |w|];
      } else {
        assert a[i] == a[at + |w| + k..][i - at - |w| - k] && b[i] == b[at + |w|..][i - at - |w|];
      }
    }
  }

  /** Writing a two-byte head, a body after a two-byte hole, the hole, then
      a tail after the body leaves head, hole, body and tail in order. */
  lemma BackFill(s: seq<byte>, at: nat, head: seq<byte>, body: seq<byte>, hole: seq<byte>, tail: seq<byte>)
    requires |head| == 2 && |hole| == 2 && at + 4 + |body| + |tail| <= |s|
    ensures Overlay(Overlay(Overlay(Overlay(s, at, head), at + 4, body), at + 2, hole), at + 4 + |body|, tail)
            == Overlay(s, at, head + hole + body + tail)
  {
    var w := head + s[at + 2..at + 4];
    OverlayKeep(s, at, head, 2);
    OverlayAdjacent(s, at, w, body);
    OverlayPatch(s, at, w + body, 2, hole);
    FillHole(head, s[at + 2..at + 4], body, hole);
    OverlayAdjacent(s, at, head + hole + body, tail);
  }

  /** Assigning one element is overlaying a one-byte sequence. */
  lemma UpdateOverlay(s: seq<byte>, i: nat, x: byte)
    requires i < |s|
    ensures s[i := x] == Overlay(s, i, [x])
  {
    var b := Overlay(s, i, [x]);
    forall k | 0 <= k < |s|
      ensures s[i := x][k] == b[k]
    {
      if k < i {
        assert b[k] == b[..i][k];
      } else if k > i {
        assert b[k] == b[i + 1..][k - i - 1];
      }
    }
  }

  /** Go's copy(dst[at:], src): copies as many bytes as fit and returns
      how many that was. */
  method Copy(dst: array<byte>, at: nat, src: seq<byte>) returns (m: nat)
    requires at <= dst.Length
    modifies dst
    ensures m == if |src| <= dst.Length - at then |src| else dst.Length - at
    ensures dst[..] == Overlay(old(dst[..]), at, src[..m])
  {
    m := if |src| <= dst.Length - at then |src| else dst.Length - at;
    var i := 0;
    while i < m
      invariant 0 <= i <= m
      invariant dst[..] == Overlay(old(dst[..]), at, src[..i])
    {
      dst[at + i] := src[i];
      i := i + 1;
      assert src[..i] == src[..i - 1] + [src[i - 1]];
    }
  }

  /** binary.BigEndian.PutUint16(dst[at:at+2], x). */
  method PutUint16(dst: array<byte>, at: nat, x: uint16)
    requires at + 2 <= dst.Length
    modifies dst
    ensures dst[..] == Overlay(old(dst[..]), at, U16Bytes(x))
  {
    dst[at] := x / 0x100;
    dst[at + 1] := x % 0x100;
  }

  /** binary.BigEndian.PutUint32(dst[at:at+4], x). */
  method PutUint32(dst: array<byte>, at: nat, x: uint32)
    requires at + 4 <= dst.Length
    modifies dst
    ensures dst[..] == Overlay(old(dst[..]), at, U32Bytes(x))
  {
    PutUint16(dst, at, x / 0x1_0000);
    PutUint16(dst, at + 2, x % 0x1_0000);
  }
}
