/**
  Cutting stream data into link frames and reading them back (`stream_hdr`,
  `stream_unhdr`, `compress`, `decompress`, `stream_frames` in src/bin/rnsh.rs),
  over any sound compressor.
 */
module StreamFrames {
  import opened Wrappers
  import opened Bytes
  import opened Arithmetic

  const MAX_CHUNK: nat := 16384
  const COMP_TRIES: nat := 4
  const MIN_SEGMENT: nat := 32
  const ID_MODULUS: nat := 0x4000
  const EOF_BIT: nat := 0x8000
  const COMPRESSED_BIT: nat := 0x4000

  /** The compressor: encoding may fail, decoding fails on anything that is not an encoding. */
  datatype Codec = Codec(encode: bytes -> Option<bytes>, decode: bytes -> Option<bytes>)

  ghost predicate Sound(codec: Codec) {
    forall x :: codec.encode(x).Some? ==> codec.decode(codec.encode(x).value) == Some(x)
  }

  // ---------------------------------------------------------------- headers

  datatype StreamHeader = StreamHeader(sid: u16, eof: bool, comp: bool)

  /** `sid & HDR_ID_MASK` with the two flag bits above it. */
  function HeaderWord(sid: u16, eof: bool, comp: bool): nat {
    sid % ID_MODULUS + (if eof then EOF_BIT else 0) + (if comp then COMPRESSED_BIT else 0)
  }

  function EncodeHeader(sid: u16, eof: bool, comp: bool): (h: bytes)
    ensures |h| == 2
  {
    ToBigEndian(HeaderWord(sid, eof, comp), 2)
  }

  function DecodeHeader(raw: bytes): Option<StreamHeader> {
    if |raw| < 2 then None
    else
      FromBigEndianBound(raw[..2]);
      PowersOf256();
      var h := FromBigEndian(raw[..2]);
      Some(StreamHeader(h % ID_MODULUS, h / EOF_BIT % 2 == 1, h / COMPRESSED_BIT % 2 == 1))
  }

  lemma HeaderBits(sid: u16, eof: bool, comp: bool)
    ensures var n := HeaderWord(sid, eof, comp);
            n < 0x1_0000 && n % ID_MODULUS == sid % ID_MODULUS && (n / EOF_BIT % 2 == 1 <==> eof) &&
              (n / COMPRESSED_BIT % 2 == 1 <==> comp)
  {
    var id := sid % ID_MODULUS;
    assert id < ID_MODULUS;
    if eof {
      if comp { assert (id + 0xC000) / 0x8000 == 1; } else { assert (id + 0x8000) / 0x8000 == 1; }
    }
  }

  lemma HeaderRoundTrip(sid: u16, eof: bool, comp: bool, payload: bytes)
    ensures DecodeHeader(EncodeHeader(sid, eof, comp) + payload) == Some(StreamHeader(sid % ID_MODULUS, eof, comp))
  {
    hide FromBigEndian, ToBigEndian, HeaderWord;
    PowersOf256();
    HeaderBits(sid, eof, comp);
    BigEndianRoundTrip(HeaderWord(sid, eof, comp), 2);
    assert (EncodeHeader(sid, eof, comp) + payload)[..2] == EncodeHeader(sid, eof, comp);
  }

  /** The two bytes of a header: the flags in the top bits of the first, EOF above compression,
      and the low fourteen bits of the stream's number below them. */
  lemma HeaderBytes(sid: u16, eof: bool, comp: bool)
    ensures var id := sid % 16384;
            EncodeHeader(sid, eof, comp) == [(if eof then 128 else 0) + (if comp then 64 else 0) + id / 256, id % 256]
  {
    var id, n := sid % 16384, HeaderWord(sid, eof, comp);
    var high := (if eof then 128 else 0) + (if comp then 64 else 0);
    assert n == 256 * high + id;
    assert n / 256 == high + id / 256 && n % 256 == id % 256;
    assert ToBigEndian(n / 256, 1) == ToBigEndian(n / 256 / 256, 0) + [n / 256 % 256] == [n / 256];
    assert ToBigEndian(n, 2) == ToBigEndian(n / 256, 1) + [n % 256];
  }

  // ---------------------------------------------------------------- one block

  /** One frame's payload and how much input it stands for. */
  datatype Block = Block(comp: bool, used: nat, payload: bytes)

  function Min(a: nat, b: nat): nat { if a < b then a else b }

  /** The length `compress` tries to encode on its `t`-th attempt. */
  function Segment(len: nat, t: nat): (seg: nat)
    requires t >= 1
    ensures seg <= len
  {
    assert len == len / t * t + len % t;
    len / t
  }

  /** `compress` from its `t`-th attempt on. */
  function CompressFrom(codec: Codec, buf: bytes, max: nat, t: nat): Block
    requires t >= 1
    decreases COMP_TRIES + 1 - t
  {
    var len := Min(|buf|, MAX_CHUNK);
    var seg := Segment(len, t);
    if t > COMP_TRIES || seg < MIN_SEGMENT then Block(false, Min(max, len), buf[..Min(max, len)])
    else
      var c := codec.encode(buf[..seg]);
      if c.Some? && |c.value| < max && |c.value| < seg then Block(true, seg, c.value)
      else CompressFrom(codec, buf, max, t + 1)
  }

  function Compress(codec: Codec, buf: bytes, max: nat): Block {
    CompressFrom(codec, buf, max, 1)
  }

  method CompressBlock(codec: Codec, buf: bytes, max: nat) returns (b: Block)
    ensures b == Compress(codec, buf, max)
  {
    var len := if |buf| < MAX_CHUNK then |buf| else MAX_CHUNK;
    var t := 1;
    while t <= COMP_TRIES
      invariant 1 <= t <= COMP_TRIES + 1
      invariant Compress(codec, buf, max) == CompressFrom(codec, buf, max, t)
    {
      var seg := Segment(len, t);
      if seg < MIN_SEGMENT { break; }
      var c := codec.encode(buf[..seg]);
      if c.Some? && |c.value| < max && |c.value| < seg {
        return Block(true, seg, c.value);
      }
      t := t + 1;
    }
    var plain := if max < len then max else len;
    return Block(false, plain, buf[..plain]);
  }

  /** What every block promises: its payload stands for exactly the `used` bytes it
      consumes, never outgrows them or the limit, and a block always makes progress. */
  lemma {:induction false} BlockFacts(codec: Codec, buf: bytes, max: nat, t: nat)
    requires t >= 1
    ensures var b := CompressFrom(codec, buf, max, t);
            && b.used <= |buf| && b.used <= MAX_CHUNK
            && |b.payload| <= max && |b.payload| <= b.used
            && b.used >= Min(Min(max, MIN_SEGMENT), |buf|)
            && (if b.comp then codec.encode(buf[..b.used]) == Some(b.payload) else b.payload == buf[..b.used])
    decreases COMP_TRIES + 1 - t
  {
    hide Segment;
    if t <= COMP_TRIES { BlockFacts(codec, buf, max, t + 1); }
  }

  /** The attempt works: a `t`-th of at most 16384 bytes, 32 or more of them, has an encoding
      shorter than itself and than a frame. */
  predicate Gains(codec: Codec, buf: bytes, max: nat, t: nat)
    requires t >= 1
  {
    var seg := (if |buf| < 16384 then |buf| else 16384) / t;
    seg >= 32 && seg <= |buf| && codec.encode(buf[..seg]).Some? && |codec.encode(buf[..seg]).value| < max &&
    |codec.encode(buf[..seg]).value| < seg
  }

  ghost predicate FirstGain(codec: Codec, buf: bytes, max: nat, k: int) {
    1 <= k <= 4 && Gains(codec, buf, max, k) && forall j :: 1 <= j < k ==> !Gains(codec, buf, max, j)
  }

  lemma {:induction false} CompressFromIs(codec: Codec, buf: bytes, max: nat, t: nat) returns (k: nat)
    requires 1 <= t <= 5
    ensures t <= k <= 5 && (forall j :: t <= j < k ==> !Gains(codec, buf, max, j)) &&
            (k <= 4 ==> Gains(codec, buf, max, k))
    ensures var len, b := Min(|buf|, 16384), CompressFrom(codec, buf, max, t);
            if k <= 4 then b.comp && b.used == len / k && codec.encode(buf[..b.used]) == Some(b.payload)
            else b == Block(false, Min(max, len), buf[..Min(max, len)])
    decreases 5 - t
  {
    var len := Min(|buf|, MAX_CHUNK);
    var seg := Segment(len, t);
    if t == 5 {
      k := 5;
    } else if seg < MIN_SEGMENT {
      k := 5;
      forall j | t <= j < 5 ensures !Gains(codec, buf, max, j) { SmallerParts(len, t, j); }
    } else if Gains(codec, buf, max, t) {
      k := t;
    } else {
      k := CompressFromIs(codec, buf, max, t + 1);
    }
  }

  lemma SmallerParts(len: nat, t: nat, j: nat)
    requires 1 <= t <= j
    ensures len / j <= len / t
  {
    var a, b := len / t, len / j;
    assert len == a * t + len % t && len == b * j + len % j;
    assert (a + 1) * t == a * t + t;
    if b > a { Products(a + 1, b, t, j); }
  }

  lemma Products(a: nat, b: nat, t: nat, j: nat)
    requires a <= b && t <= j
    ensures a * t <= b * j
  {
    MulMonotone(a, b, t);
    MulMonotone(t, j, b);
  }

  /** A block is compressed exactly when one of four attempts gains, on the whole, the half, the
      third or the quarter of the next bytes; it is then the first that does.  Otherwise it is
      as many of them as fit. */
  lemma CompressIff(codec: Codec, buf: bytes, max: nat)
    ensures var b, len := Compress(codec, buf, max), Min(|buf|, 16384);
            && (b.comp <==> exists k :: 1 <= k <= 4 && Gains(codec, buf, max, k))
            && (forall k :: FirstGain(codec, buf, max, k) ==>
                  b.used == len / k && codec.encode(buf[..b.used]) == Some(b.payload))
            && (!b.comp ==> b.used == Min(max, len) && b.payload == buf[..b.used])
  {
    hide Gains, CompressFrom;
    var k := CompressFromIs(codec, buf, max, 1);
  }

  // ---------------------------------------------------------------- frames

  function FramesOf(codec: Codec, sid: u16, eof: bool, data: bytes, max: nat): seq<bytes>
    decreases |data|
  {
    if data == [] then []
    else
      var b := Compress(codec, data, max);
      BlockFacts(codec, data, max, 1);
      var frame := EncodeHeader(sid, eof, b.comp) + b.payload;
      if b.used == 0 then [frame] else [frame] + FramesOf(codec, sid, eof, data[b.used..], max)
  }

  method BuildFrames(codec: Codec, sid: u16, eof: bool, data: bytes, max: nat) returns (frames: seq<bytes>)
    ensures frames == FramesOf(codec, sid, eof, data, max)
  {
    hide CompressFrom, Compress, FramesOf, EncodeHeader;
    frames := [];
    var rest := data;
    while rest != []
      invariant FramesOf(codec, sid, eof, data, max) == frames + FramesOf(codec, sid, eof, rest, max)
      decreases |rest|
    {
      var b := CompressBlock(codec, rest, max);
      BlockFacts(codec, rest, max, 1);
      CompressDef(codec, rest, max);
      var p := EncodeHeader(sid, eof, b.comp);
      p := p + b.payload;
      FramesStep(codec, sid, eof, rest, max);
      frames := frames + [p];
      if b.used == 0 { return; }
      rest := rest[b.used..];
    }
    NoFrames(codec, sid, eof, max);
  }

  lemma FramesStep(codec: Codec, sid: u16, eof: bool, data: bytes, max: nat)
    requires data != []
    ensures var b := Compress(codec, data, max);
            b.used <= |data| &&
            FramesOf(codec, sid, eof, data, max) == [EncodeHeader(sid, eof, b.comp) + b.payload] +
              if b.used == 0 then [] else FramesOf(codec, sid, eof, data[b.used..], max)
  {
    BlockFacts(codec, data, max, 1);
  }

  /** `decompress`: an encoding of more than `max` bytes is refused. */
  function Decompress(codec: Codec, data: bytes, max: nat): Option<bytes> {
    match codec.decode(data)
    case Some(x) => if |x| > max then None else Some(x)
    case None => None
  }

  /** The bytes a receiver takes from one frame; damage decodes to nothing. */
  function FrameData(codec: Codec, frame: bytes): bytes {
    match DecodeHeader(frame)
    case None => []
    case Some(h) =>
      var data := if |frame| > 2 then frame[2..] else [];
      if !h.comp then data
      else match Decompress(codec, data, MAX_CHUNK)
        case Some(x) => x
        case None => []
  }

  /** What a receiver makes of a frame: nothing of one without a header; the bytes behind the
      header; and of compressed ones what they decode to, when that is at most 16384 bytes. */
  lemma FrameDataIs(codec: Codec, frame: bytes)
    ensures |frame| < 2 ==> FrameData(codec, frame) == []
    ensures |frame| >= 2 ==>
              var d := codec.decode(frame[2..]);
              FrameData(codec, frame) ==
              if frame[0] / 64 % 2 == 0 then frame[2..]
              else if d.Some? && |d.value| <= 16384 then d.value else []
  {
    if |frame| >= 2 {
      var h, two := DecodeHeader(frame).value, frame[..2];
      assert two[..1] == [frame[0]] && [frame[0]][..0] == [];
      assert FromBigEndian([frame[0]]) == frame[0];
      assert FromBigEndian(two) == frame[0] as int * 256 + frame[1];
      assert |frame| == 2 ==> frame[2..] == [];
    }
  }

  function DataOf(codec: Codec, frames: seq<bytes>): bytes {
    if frames == [] then [] else FrameData(codec, frames[0]) + DataOf(codec, frames[1..])
  }

  lemma {:induction false} DataOfAppend(codec: Codec, a: seq<bytes>, b: seq<bytes>)
    ensures DataOf(codec, a + b) == DataOf(codec, a) + DataOf(codec, b)
  {
    hide FrameData;
    if a == [] {
      assert a + b == b;
    } else {
      assert (a + b)[1..] == a[1..] + b;
      DataOfAppend(codec, a[1..], b);
    }
  }

  lemma BlockDecodes(codec: Codec, sid: u16, eof: bool, data: bytes, max: nat)
    requires Sound(codec)
    ensures var b := Compress(codec, data, max);
            b.used <= |data| && FrameData(codec, EncodeHeader(sid, eof, b.comp) + b.payload) == data[..b.used]
  {
    hide CompressFrom, DecodeHeader, EncodeHeader;
    var b := Compress(codec, data, max);
    BlockFacts(codec, data, max, 1);
    HeaderRoundTrip(sid, eof, b.comp, b.payload);
    var frame := EncodeHeader(sid, eof, b.comp) + b.payload;
    assert (if |frame| > 2 then frame[2..] else []) == b.payload;
    if b.comp { assert codec.encode(data[..b.used]).Some?; }
  }

  /** Decoding the frames gives back the input exactly when there is room for a byte in a frame. */
  lemma {:induction false} FramesRoundTripIff(codec: Codec, sid: u16, eof: bool, data: bytes, max: nat)
    requires Sound(codec)
    ensures DataOf(codec, FramesOf(codec, sid, eof, data, max)) == data <==> max > 0 || data == []
    decreases |data|
  {
    hide CompressFrom, Compress, EncodeHeader, FrameData, FramesOf;
    if data == [] {
      assert FramesOf(codec, sid, eof, data, max) == [] by { NoFrames(codec, sid, eof, max); }
    } else {
      var b := Compress(codec, data, max);
      BlockFacts(codec, data, max, 1);
      assert b == CompressFrom(codec, data, max, 1) by { CompressDef(codec, data, max); }
      FramesStep(codec, sid, eof, data, max);
      BlockDecodes(codec, sid, eof, data, max);
      var frame := EncodeHeader(sid, eof, b.comp) + b.payload;
      if b.used == 0 {
        assert FramesOf(codec, sid, eof, data, max) == [frame];
        assert DataOf(codec, [frame]) == FrameData(codec, frame) + DataOf(codec, []) == [];
      } else {
        var rest := FramesOf(codec, sid, eof, data[b.used..], max);
        FramesRoundTripIff(codec, sid, eof, data[b.used..], max);
        assert ([frame] + rest)[1..] == rest;
        assert DataOf(codec, [frame] + rest) == data[..b.used] + DataOf(codec, rest);
        if max == 0 {
          ZeroRoomMeansNoProgress(codec, data);
        }
        assert data == data[..b.used] + data[b.used..];
      }
    }
  }

  lemma NoFrames(codec: Codec, sid: u16, eof: bool, max: nat)
    ensures FramesOf(codec, sid, eof, [], max) == []
  {
  }

  lemma CompressDef(codec: Codec, data: bytes, max: nat)
    ensures Compress(codec, data, max) == CompressFrom(codec, data, max, 1)
  {
  }

  lemma ZeroRoomMeansNoProgress(codec: Codec, data: bytes)
    ensures Compress(codec, data, 0).used == 0
  {
    var len := Min(|data|, MAX_CHUNK);
    assert CompressFrom(codec, data, 0, 5).used == 0;
    assert CompressFrom(codec, data, 0, 4).used == 0;
    assert CompressFrom(codec, data, 0, 3).used == 0;
    assert CompressFrom(codec, data, 0, 2).used == 0;
  }

  /** With room for a byte, no frame is empty. */
  lemma {:induction false} EveryFrameCarries(codec: Codec, sid: u16, eof: bool, data: bytes, max: nat)
    requires Sound(codec) && max > 0
    ensures forall f :: f in FramesOf(codec, sid, eof, data, max) ==> FrameData(codec, f) != []
    decreases |data|
  {
    hide CompressFrom, Compress, EncodeHeader, FrameData, FramesOf;
    if data == [] {
      NoFrames(codec, sid, eof, max);
    } else {
      var b := Compress(codec, data, max);
      BlockFacts(codec, data, max, 1);
      CompressDef(codec, data, max);
      FramesStep(codec, sid, eof, data, max);
      BlockDecodes(codec, sid, eof, data, max);
      EveryFrameCarries(codec, sid, eof, data[b.used..], max);
    }
  }

  function TotalPayload(frames: seq<bytes>): int {
    if frames == [] then 0 else |frames[0]| - 2 + TotalPayload(frames[1..])
  }

  /** `count` is at most ceil(n / k). */
  ghost predicate AtMostCeil(count: nat, n: nat, k: nat) {
    count == 0 || (count - 1) * k < n
  }

  ghost predicate WellFormedFrame(codec: Codec, sid: u16, eof: bool, max: nat, frame: bytes) {
    && 2 <= |frame| <= max + 2
    && DecodeHeader(frame).Some?
    && var h := DecodeHeader(frame).value;
       && h.sid == sid % ID_MODULUS && h.eof == eof
       && (h.comp ==> Decompress(codec, frame[2..], MAX_CHUNK).Some?)
  }

  /** Sizes: every frame fits the limit and carries the stream's header, compressed ones
      decode within the receiver's bound, the payloads never outgrow the input, and there
      are no more frames than one per min(max, 32) bytes. */
  lemma {:induction false} FramesBounds(codec: Codec, sid: u16, eof: bool, data: bytes, max: nat)
    requires Sound(codec) && max > 0
    ensures var frames := FramesOf(codec, sid, eof, data, max);
            && (forall i :: 0 <= i < |frames| ==> WellFormedFrame(codec, sid, eof, max, frames[i]))
            && TotalPayload(frames) <= |data|
            && AtMostCeil(|frames|, |data|, Min(max, MIN_SEGMENT))
    decreases |data|
  {
    hide CompressFrom, Compress, EncodeHeader, DecodeHeader, FramesOf, AtMostCeil, WellFormedFrame;
    var k := Min(max, MIN_SEGMENT);
    if data == [] {
      NoFrames(codec, sid, eof, max);
      AtMostCeilNone(k);
    } else {
      var b := Compress(codec, data, max);
      BlockFacts(codec, data, max, 1);
      CompressDef(codec, data, max);
      FramesStep(codec, sid, eof, data, max);
      BlockWellFormed(codec, sid, eof, data, max);
      var frame := EncodeHeader(sid, eof, b.comp) + b.payload;
      var rest := FramesOf(codec, sid, eof, data[b.used..], max);
      FramesBounds(codec, sid, eof, data[b.used..], max);
      assert ([frame] + rest)[1..] == rest;
      AtMostCeilStep(|rest|, |data|, b.used, k);
    }
  }

  lemma BlockWellFormed(codec: Codec, sid: u16, eof: bool, data: bytes, max: nat)
    requires Sound(codec)
    ensures var b := Compress(codec, data, max);
            WellFormedFrame(codec, sid, eof, max, EncodeHeader(sid, eof, b.comp) + b.payload)
  {
    hide CompressFrom, EncodeHeader, DecodeHeader;
    var b := Compress(codec, data, max);
    BlockFacts(codec, data, max, 1);
    HeaderRoundTrip(sid, eof, b.comp, b.payload);
    assert (EncodeHeader(sid, eof, b.comp) + b.payload)[2..] == b.payload;
    if b.comp { assert codec.encode(data[..b.used]).Some?; }
  }

  lemma AtMostCeilNone(k: nat)
    ensures AtMostCeil(0, 0, k)
  {
  }

  lemma AtMostCeilStep(count: nat, n: nat, used: nat, k: nat)
    requires k > 0 && used <= n && n > 0 && used >= Min(k, n)
    requires AtMostCeil(count, n - used, k)
    ensures AtMostCeil(count + 1, n, k)
  {
    if count > 0 {
      assert (count - 1) * k >= 0;
      assert count * k == (count - 1) * k + k;
    }
  }
}
