/**
  The RPC frame format (src/bin/rnguard.rs, `write_frame` and the header rules of
  `FrameReader::take_frame`) and its one-shot parse of a whole byte stream.
 */
module Frames {
  import opened Bytes

  const I32_MAX: nat := 0x7fff_ffff
  const U64_MODULUS: nat := 0x1_0000_0000_0000_0000
  const LONG_MARK: bytes := [255, 255, 255, 255]

  datatype FrameError = InvalidLength | TooLarge

  /** What the front of a buffer holds. */
  datatype Head =
    | Incomplete
    | Bad(error: FrameError)
    | Frame(payload: bytes, used: nat)

  /** `i32::from_be_bytes`. */
  function I32(s: bytes): int
    requires |s| == 4
  {
    var n := FromBigEndian(s);
    if n > I32_MAX then n - 0x1_0000_0000 else n
  }

  function EncodeFrame(data: bytes): bytes {
    if |data| <= I32_MAX then ToBigEndian(|data|, 4) + data
    else LONG_MARK + ToBigEndian(|data| % U64_MODULUS, 8) + data
  }

  function EncodeAll(payloads: seq<bytes>): bytes {
    if payloads == [] then [] else EncodeFrame(payloads[0]) + EncodeAll(payloads[1..])
  }

  function ParseHead(u: bytes, max: nat): (h: Head)
    ensures h.Frame? ==> 4 <= h.used <= |u| && |h.payload| <= max
    ensures h.Incomplete? ==> |u| < max + 12
  {
    if |u| < 4 then Incomplete
    else
      var len := I32(u[..4]);
      var header := if len == -1 then 12 else 4;
      if |u| < header then Incomplete
      else if len < -1 then Bad(InvalidLength)
      else
        var size := if len == -1 then FromBigEndian(u[4..12]) else len;
        if size > max then Bad(TooLarge)
        else if |u| < header + size then Incomplete
        else Frame(u[header..header + size], header + size)
  }

  datatype End = Partial(rest: bytes) | Broken(error: FrameError)
  datatype Parse = Parse(frames: seq<bytes>, end: End)

  /** The whole stream parsed at once. */
  function ParseAll(u: bytes, max: nat): Parse
    decreases |u|
  {
    match ParseHead(u, max)
    case Incomplete => Parse([], Partial(u))
    case Bad(e) => Parse([], Broken(e))
    case Frame(p, n) => var later := ParseAll(u[n..], max); Parse([p] + later.frames, later.end)
  }

  /** Bytes that arrive later never change a header that was already decided. */
  lemma HeadIsStable(a: bytes, b: bytes, max: nat)
    requires !ParseHead(a, max).Incomplete?
    ensures ParseHead(a + b, max) == ParseHead(a, max)
  {
    var u := a + b;
    assert u[..4] == a[..4];
    if |a| >= 12 { assert u[4..12] == a[4..12]; }
    var h := ParseHead(a, max);
    if h.Frame? {
      var len := I32(a[..4]);
      var header := if len == -1 then 12 else 4;
      assert u[header..h.used] == a[header..h.used];
    }
  }

  /** The two header errors, byte by byte: a first byte with its top bit set that does not
      begin the long mark, and a length, short or long, beyond the limit. */
  lemma HeadErrorIff(u: bytes, max: nat)
    ensures ParseHead(u, max) == Bad(InvalidLength) <==> |u| >= 4 && u[0] >= 128 && u[..4] != LONG_MARK
    ensures ParseHead(u, max) == Bad(TooLarge) <==>
              if |u| >= 4 && u[..4] == LONG_MARK then |u| >= 12 && FromBigEndian(u[4..12]) > max
              else |u| >= 4 && u[0] < 128 && FromBigEndian(u[..4]) > max
  {
    if |u| >= 4 {
      hide FromBigEndian;
      FourBytes(u[..4]);
      assert u[..4][0] == u[0];
    }
  }

  lemma FourBytes(s: bytes)
    requires |s| == 4
    ensures FromBigEndian(s) > I32_MAX <==> s[0] >= 128
    ensures FromBigEndian(s) == 0xffff_ffff <==> s == LONG_MARK
    ensures FromBigEndian(s) <= 0xffff_ffff
  {
    var three := s[..3];
    var two := three[..2];
    var one := two[..1];
    assert one[..0] == [];
    assert FromBigEndian(one) == s[0];
    assert FromBigEndian(two) == s[0] as int * 256 + s[1];
    assert FromBigEndian(three) == (s[0] as int * 256 + s[1]) * 256 + s[2];
    assert FromBigEndian(s) == ((s[0] as int * 256 + s[1]) * 256 + s[2]) * 256 + s[3];
  }

  /** What the parse of a stream becomes once more bytes `b` have arrived. */
  function Extend(p: Parse, b: bytes, max: nat): Parse {
    match p.end
    case Broken(_) => p
    case Partial(r) => var later := ParseAll(r + b, max); Parse(p.frames + later.frames, later.end)
  }

  lemma {:induction false} ParseInPieces(a: bytes, b: bytes, max: nat)
    ensures ParseAll(a + b, max) == Extend(ParseAll(a, max), b, max)
    decreases |a|
  {
    hide ParseHead;
    var h := ParseHead(a, max);
    if !h.Incomplete? {
      HeadIsStable(a, b, max);
      if h.Frame? {
        assert (a + b)[h.used..] == a[h.used..] + b;
        ParseInPieces(a[h.used..], b, max);
        var p := ParseAll(a[h.used..], max);
        if p.end.Partial? {
          var more := ParseAll(p.end.rest + b, max).frames;
          assert [h.payload] + (p.frames + more) == [h.payload] + p.frames + more;
        }
      }
    }
  }

  lemma HeadOfEncoded(data: bytes, tail: bytes, max: nat)
    requires |data| <= max < U64_MODULUS
    ensures ParseHead(EncodeFrame(data) + tail, max) == Frame(data, |EncodeFrame(data)|)
  {
    var n := |data|;
    var u := EncodeFrame(data) + tail;
    PowersOf256();
    if n <= I32_MAX {
      BigEndianRoundTrip(n, 4);
      assert u[..4] == ToBigEndian(n, 4);
      assert u[4..4 + n] == data;
    } else {
      BigEndianRoundTrip(n, 8);
      assert LONG_MARK == ToBigEndian(0xffff_ffff, 4) by { LongMark(); }
      BigEndianRoundTrip(0xffff_ffff, 4);
      assert u[..4] == LONG_MARK;
      assert u[4..12] == ToBigEndian(n, 8);
      assert u[12..12 + n] == data;
    }
  }

  lemma LongMark()
    ensures ToBigEndian(0xffff_ffff, 4) == LONG_MARK
  {
    assert ToBigEndian(0xff, 1) == [255];
    assert ToBigEndian(0xffff, 2) == [255, 255];
    assert ToBigEndian(0xff_ffff, 3) == [255, 255, 255];
  }

  lemma ParseFirst(first: bytes, rest: bytes, payload: bytes, max: nat)
    requires ParseHead(first + rest, max) == Frame(payload, |first|)
    ensures ParseAll(first + rest, max) == Parse([payload] + ParseAll(rest, max).frames, ParseAll(rest, max).end)
  {
    hide ParseHead;
    assert (first + rest)[|first|..] == rest;
  }

  /** Frames written one after another parse back to their payloads, in order, whatever follows. */
  lemma {:induction false} FramesRoundTrip(payloads: seq<bytes>, tail: bytes, max: nat)
    requires max < U64_MODULUS && forall i :: 0 <= i < |payloads| ==> |payloads[i]| <= max
    ensures ParseAll(EncodeAll(payloads) + tail, max) ==
            Parse(payloads + ParseAll(tail, max).frames, ParseAll(tail, max).end)
  {
    hide ParseHead, EncodeFrame, ParseAll;
    if payloads == [] {
      assert EncodeAll(payloads) + tail == tail;
    } else {
      var first, rest := EncodeFrame(payloads[0]), EncodeAll(payloads[1..]) + tail;
      HeadOfEncoded(payloads[0], rest, max);
      ParseFirst(first, rest, payloads[0], max);
      FramesRoundTrip(payloads[1..], tail, max);
      var later := ParseAll(tail, max).frames;
      assert EncodeAll(payloads) + tail == first + rest;
      assert payloads + later == [payloads[0]] + (payloads[1..] + later);
    }
  }

  /** What is written for a payload: up to 2^31 - 1 bytes four bytes of length, beyond that four
      bytes of all ones and eight of length, most significant first; then the payload. */
  lemma FrameBytes(data: bytes)
    requires |data| < U64_MODULUS
    ensures var f, n := EncodeFrame(data), |data|;
            if n < 0x8000_0000 then
              f[4..] == data && FromBigEndian(f[..4]) == n
            else
              f[..4] == [255, 255, 255, 255] && FromBigEndian(f[4..12]) == n && f[12..] == data
  {
    PowersOf256();
    var f, n := EncodeFrame(data), |data|;
    if n < 0x8000_0000 {
      BigEndianRoundTrip(n, 4);
      assert f[..4] == ToBigEndian(n, 4) && f[4..] == data;
    } else {
      BigEndianRoundTrip(n, 8);
      assert f[..4] == LONG_MARK && f[4..12] == ToBigEndian(n, 8) && f[12..] == data;
    }
  }

  /** Eight bytes in order, the first the most significant. */
  lemma MostSignificantFirst(s: bytes, b: byte)
    ensures FromBigEndian(s + [b]) == 256 * FromBigEndian(s) + b && FromBigEndian([]) == 0
  {
    assert (s + [b])[..|s|] == s;
  }
}
