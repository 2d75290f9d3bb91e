/**
  The incremental frame reader (`FrameReader` in src/bin/rnguard.rs): a buffer with a
  consumed offset, filled by socket reads of any size.
 */
module FrameReader {
  import opened Wrappers
  import opened Bytes
  import opened Frames

  const CHUNK_MAX: nat := 8192
  const KEEP_MAX: nat := 64 * 1024

  type Chunk = c: bytes | 1 <= |c| <= CHUNK_MAX witness [0]

  /** What one read of the socket returns. A list of these is the socket's future;
      when it is used up, the peer has closed the connection. */
  datatype Read = Data(chunk: Chunk) | Timeout | Failed

  datatype ReadError = Header(error: FrameError) | Closed | ReadFailed

  type NextResult = Result<Option<bytes>, ReadError>

  datatype Outcome = Outcome(result: NextResult, rest: bytes, left: seq<Read>)

  function BytesOf(read: Read): bytes {
    if read.Data? then read.chunk else []
  }

  /** The answer of `fill` for one read, with `u` buffered: a timeout is idle only on an empty buffer. */
  function FillAnswer(u: bytes, read: Read): Result<bool, ReadError> {
    match read
    case Data(_) => Ok(true)
    case Timeout => if u == [] then Ok(false) else Err(ReadFailed)
    case Failed => Err(ReadFailed)
  }

  /** The answer of `next_frame` from the unconsumed bytes and the socket's future alone. */
  function Next(u: bytes, incoming: seq<Read>, max: nat): (o: Outcome)
    ensures |o.left| <= |incoming|
    ensures o.result.Ok? ==> |o.left| < |incoming| || |o.rest| < |u|
    decreases |incoming|
  {
    match ParseHead(u, max)
    case Frame(p, n) => Outcome(Ok(Some(p)), u[n..], incoming)
    case Bad(e) => Outcome(Err(Header(e)), u, incoming)
    case Incomplete =>
      if incoming == [] then Outcome(Err(Closed), u, incoming)
      else
        var filled := FillAnswer(u, incoming[0]);
        if filled == Ok(true) then Next(u + BytesOf(incoming[0]), incoming[1..], max)
        else Outcome(if filled.Ok? then Ok(None) else Err(filled.error), u, incoming[1..])
  }

  /** `Next`, one turn of its loop at a time. */
  lemma NextStep(u: bytes, incoming: seq<Read>, max: nat)
    ensures ParseHead(u, max).Frame? ==>
              var head := ParseHead(u, max);
              Next(u, incoming, max) == Outcome(Ok(Some(head.payload)), u[head.used..], incoming)
    ensures ParseHead(u, max).Bad? ==>
              Next(u, incoming, max) == Outcome(Err(Header(ParseHead(u, max).error)), u, incoming)
    ensures ParseHead(u, max).Incomplete? && incoming == [] ==> Next(u, incoming, max) == Outcome(Err(Closed), u, [])
    ensures ParseHead(u, max).Incomplete? && incoming != [] ==>
              var filled := FillAnswer(u, incoming[0]);
              Next(u, incoming, max) ==
              if filled == Ok(true) then Next(u + BytesOf(incoming[0]), incoming[1..], max)
              else Outcome(if filled.Ok? then Ok(None) else Err(filled.error), u, incoming[1..])
  {
  }

  lemma {:induction false} NextLeavesSuffix(u: bytes, incoming: seq<Read>, max: nat)
    ensures var left := Next(u, incoming, max).left; left == incoming[|incoming| - |left|..]
    decreases |incoming|
  {
    hide ParseHead;
    if ParseHead(u, max).Incomplete? && incoming != [] {
      NextLeavesSuffix(u + BytesOf(incoming[0]), incoming[1..], max);
    }
  }

  function Max(a: nat, b: nat): nat { if a > b then a else b }

  lemma DropDrop(s: bytes, i: nat, j: nat)
    requires i + j <= |s|
    ensures s[i..][j..] == s[i + j..]
  {
  }

  class FrameReader {
    var buf: bytes
    var start: nat
    var stream: seq<Read>
    /** The longest the buffer has ever been. */
    ghost var peak: nat

    ghost predicate Valid()
      reads this
    {
      start <= |buf| <= peak
    }

    ghost function Unconsumed(): bytes
      requires Valid()
      reads this
    {
      buf[start..]
    }

    constructor (stream: seq<Read>)
      ensures Valid() && Unconsumed() == [] && peak == 0 && this.stream == stream
    {
      this.stream, buf, start, peak := stream, [], 0, 0;
    }

    method TakeFrame(max: nat) returns (r: NextResult)
      requires Valid()
      modifies `buf, `start
      ensures Valid()
      ensures match ParseHead(old(Unconsumed()), max)
              case Incomplete => r == Ok(None) && Unconsumed() == old(Unconsumed())
              case Bad(e) => r == Err(Header(e)) && Unconsumed() == old(Unconsumed())
              case Frame(p, n) => r == Ok(Some(p)) && Unconsumed() == old(Unconsumed())[n..]
    {
      ghost var u := Unconsumed();
      var available := |buf| - start;
      if available < 4 { return Ok(None); }
      var len := I32(buf[start..start + 4]);
      assert buf[start..start + 4] == u[..4];
      var header := if len == -1 then 12 else 4;
      if available < header { return Ok(None); }
      var size: nat;
      if len == -1 {
        size := FromBigEndian(buf[start + 4..start + 12]);
        assert buf[start + 4..start + 12] == u[4..12];
      } else if len < 0 {
        return Err(Header(InvalidLength));
      } else {
        size := len;
      }
      if size > max { return Err(Header(TooLarge)); }
      if available < header + size { return Ok(None); }

      var from := start + header;
      var frame := buf[from..from + size];
      assert frame == u[header..header + size];
      start := from + size;
      DropDrop(buf, old(start), header + size);

      if start > 0 && start == |buf| {
        buf, start := [], 0;
      } else if start > KEEP_MAX {
        buf, start := buf[start..], 0;
      }
      return Ok(Some(frame));
    }

    /** Reclaim consumed bytes. */
    method Compact()
      requires Valid()
      modifies `buf, `start
      ensures Valid() && start == 0 && buf == old(Unconsumed())
    {
      if start > 0 {
        buf, start := buf[start..], 0;
      }
    }

    /** Pull more bytes off the socket. */
    method Fill() returns (r: Result<bool, ReadError>)
      requires Valid()
      modifies this
      ensures Valid()
      ensures old(stream) == [] ==> r == Err(Closed) && Unconsumed() == old(Unconsumed()) && stream == []
      ensures old(stream) != [] ==>
                && stream == old(stream)[1..]
                && r == FillAnswer(old(Unconsumed()), old(stream)[0])
                && Unconsumed() == old(Unconsumed()) + BytesOf(old(stream)[0])
      ensures peak <= Max(old(peak), old(|Unconsumed()|) + CHUNK_MAX)
    {
      Compact();
      if stream == [] { return Err(Closed); }
      var read := stream[0];
      stream := stream[1..];
      match read {
        case Data(chunk) =>
          buf := buf + chunk;
          peak := Max(peak, |buf|);
          return Ok(true);
        case Timeout =>
          if buf == [] { return Ok(false); }
          return Err(ReadFailed);
        case Failed =>
          return Err(ReadFailed);
      }
    }

    /** The next frame, or `Ok(None)` on a timeout with nothing buffered. */
    method NextFrame(max: nat) returns (r: NextResult)
      requires Valid()
      modifies this
      ensures Valid()
      ensures Outcome(r, Unconsumed(), stream) == Next(old(Unconsumed()), old(stream), max)
      ensures peak <= Max(old(peak), max + 12 + 8191)
    {
      hide ParseHead, Next;
      while true
        invariant Valid()
        invariant Next(Unconsumed(), stream, max) == Next(old(Unconsumed()), old(stream), max)
        invariant peak <= Max(old(peak), max + 12 + 8191)
        decreases |stream|
      {
        NextStep(Unconsumed(), stream, max);
        var taken := TakeFrame(max);
        if taken.Err? || taken.value.Some? { return taken; }
        var filled := Fill();
        if filled.Err? { return Err(filled.error); }
        if !filled.value { return Ok(None); }
      }
    }
  }

  // ---------------------------------------------------------------- whole sessions

  /** One subscription: `next_frame` called until it fails. */
  datatype Session = Session(frames: seq<bytes>, end: ReadError, rest: bytes, unread: seq<Read>)

  function Run(u: bytes, incoming: seq<Read>, max: nat): (s: Session)
    ensures |s.unread| <= |incoming|
    decreases |incoming|, |u|
  {
    var o := Next(u, incoming, max);
    match o.result
    case Err(e) => Session([], e, o.rest, o.left)
    case Ok(frame) =>
      var later := Run(o.rest, o.left, max);
      later.(frames := (if frame.Some? then [frame.value] else []) + later.frames)
  }

  /** The subscriber's loop: frames and idle ticks until an error ends the subscription.
      The buffer never holds more than `max` + 12 + 8191 bytes at any moment of it. */
  method ReadSession(stream: seq<Read>, max: nat) returns (frames: seq<bytes>, end: ReadError, reader: FrameReader)
    ensures fresh(reader) && reader.Valid() && reader.peak <= max + 12 + 8191
    ensures Session(frames, end, reader.Unconsumed(), reader.stream) == Run([], stream, max)
  {
    hide Next;
    reader := new FrameReader(stream);
    frames := [];
    while true
      invariant fresh(reader) && reader.Valid() && reader.peak <= max + 12 + 8191
      invariant var later := Run(reader.Unconsumed(), reader.stream, max);
                Run([], stream, max) == later.(frames := frames + later.frames)
      decreases |reader.stream|, |reader.Unconsumed()|
    {
      NextProgress(reader.Unconsumed(), reader.stream, max);
      var r := reader.NextFrame(max);
      if r.Err? { end := r.error; return; }
      if r.value.Some? { frames := frames + [r.value.value]; }
    }
  }

  lemma NextProgress(u: bytes, incoming: seq<Read>, max: nat)
    ensures var o := Next(u, incoming, max);
            o.result.Ok? ==> |o.left| < |incoming| || (|o.left| == |incoming| && |o.rest| < |u|)
  {
    hide ParseHead, Next;
  }

  function Received(incoming: seq<Read>): bytes {
    if incoming == [] then []
    else BytesOf(incoming[0]) + Received(incoming[1..])
  }

  /** The bytes a session got to see: those buffered at its start and those of the reads it used. */
  function Seen(u: bytes, incoming: seq<Read>, unread: seq<Read>): bytes
    requires |unread| <= |incoming|
  {
    u + Received(incoming[..|incoming| - |unread|])
  }

  ghost predicate Matches(s: Session, p: Parse) {
    && s.frames == p.frames
    && (forall e :: s.end == Header(e) <==> p.end == Broken(e))
    && (!s.end.Header? ==> p.end == Partial(s.rest))
  }

  /** The outcome of one `next_frame` against the one-shot parse `p` of what it has seen. */
  ghost predicate Agrees(o: Outcome, p: Parse, max: nat) {
    match o.result
    case Ok(Some(f)) => p == Parse([f] + ParseAll(o.rest, max).frames, ParseAll(o.rest, max).end)
    case Ok(None) => o.rest == [] && p == Parse([], Partial([]))
    case Err(Header(e)) => p == Parse([], Broken(e))
    case Err(_) => p == Parse([], Partial(o.rest))
  }

  lemma {:induction false} NextSees(u: bytes, incoming: seq<Read>, max: nat)
    ensures var o := Next(u, incoming, max); Agrees(o, ParseAll(Seen(u, incoming, o.left), max), max)
    decreases |incoming|
  {
    hide ParseHead, Next, Received;
    NextStep(u, incoming, max);
    var o := Next(u, incoming, max);
    if ParseHead(u, max).Incomplete? && incoming != [] {
      if incoming[0].Data? {
        NextSees(u + incoming[0].chunk, incoming[1..], max);
        SeenAfterChunk(u, incoming, o.left);
      } else {
        SeenAfterSilence(u, incoming);
      }
    } else {
      SeenAtOnce(u, incoming);
    }
  }

  lemma SeenAtOnce(u: bytes, incoming: seq<Read>)
    ensures Seen(u, incoming, incoming) == u
  {
    assert incoming[..0] == [];
  }

  lemma SeenAfterSilence(u: bytes, incoming: seq<Read>)
    requires incoming != [] && !incoming[0].Data?
    ensures Seen(u, incoming, incoming[1..]) == u
  {
    assert incoming[..1] == [incoming[0]];
    assert Received([incoming[0]]) == BytesOf(incoming[0]) + Received([]);
  }

  lemma SeenAfterChunk(u: bytes, incoming: seq<Read>, unread: seq<Read>)
    requires incoming != [] && incoming[0].Data? && |unread| < |incoming|
    ensures Seen(u, incoming, unread) == Seen(u + incoming[0].chunk, incoming[1..], unread)
  {
    var k := |incoming| - |unread|;
    assert incoming[..k][1..] == incoming[1..][..k - 1];
  }

  lemma {:induction false} ReceivedAppend(a: seq<Read>, b: seq<Read>)
    ensures Received(a + b) == Received(a) + Received(b)
  {
    if a == [] {
      assert a + b == b;
    } else {
      assert (a + b)[1..] == a[1..] + b;
      ReceivedAppend(a[1..], b);
    }
  }

  /** Chunking independence: however the bytes are cut up, and wherever idle timeouts fall,
      a session yields the frames, and then the header error, of the one-shot parse of what it saw. */
  lemma {:induction false} SessionIsOneShotParse(u: bytes, incoming: seq<Read>, max: nat)
    ensures var s := Run(u, incoming, max); Matches(s, ParseAll(Seen(u, incoming, s.unread), max))
    decreases |incoming|, |u|
  {
    hide ParseHead, Next, ParseAll, Received;
    var o := Next(u, incoming, max);
    NextSees(u, incoming, max);
    if o.result.Ok? {
      SessionIsOneShotParse(o.rest, o.left, max);
      var s := Run(o.rest, o.left, max);
      var later := o.left[..|o.left| - |s.unread|];
      NextLeavesSuffix(u, incoming, max);
      SeenInTwo(u, incoming, o.left, s.unread);
      EmptyParse(max);
      ParseThenMore(o, Seen(u, incoming, o.left), Received(later), max);
    }
  }

  lemma SeenInTwo(u: bytes, incoming: seq<Read>, between: seq<Read>, unread: seq<Read>)
    requires |unread| <= |between| <= |incoming| && between == incoming[|incoming| - |between|..]
    ensures Seen(u, incoming, unread) == Seen(u, incoming, between) + Received(between[..|between| - |unread|])
  {
    var i, j := |incoming| - |between|, |incoming| - |unread|;
    var later := between[..|between| - |unread|];
    assert incoming[..j] == incoming[..i] + later;
    ReceivedAppend(incoming[..i], later);
  }

  /** Once a frame (or an idle tick) is out, the rest of the parse is that of the rest of the bytes. */
  lemma ParseThenMore(o: Outcome, seen: bytes, more: bytes, max: nat)
    requires o.result.Ok? && Agrees(o, ParseAll(seen, max), max)
    ensures var p := ParseAll(o.rest + more, max);
            ParseAll(seen + more, max) ==
            Parse((if o.result.value.Some? then [o.result.value.value] else []) + p.frames, p.end)
  {
    hide ParseHead, ParseAll;
    ParseInPieces(seen, more, max);
    ParseInPieces(o.rest, more, max);
    if o.result.value.Some? {
      var f, p := o.result.value.value, ParseAll(o.rest, max);
      if p.end.Partial? {
        var q := ParseAll(p.end.rest + more, max).frames;
        assert [f] + p.frames + q == [f] + (p.frames + q);
      }
    }
  }

  /** A session that the transport did not interrupt depends only on the bytes sent, not on how they were cut. */
  lemma UninterruptedSession(u: bytes, incoming: seq<Read>, max: nat)
    requires !Run(u, incoming, max).end.ReadFailed?
    ensures var s := Run(u, incoming, max); var p := ParseAll(u + Received(incoming), max);
            && s.frames == p.frames
            && (forall e :: s.end == Header(e) <==> p.end == Broken(e))
  {
    hide ParseHead, Next, Run, ParseAll;
    var s := Run(u, incoming, max);
    SessionIsOneShotParse(u, incoming, max);
    ClosedReadsAll(u, incoming, max);
    var k := |incoming| - |s.unread|;
    ReceivedAppend(incoming[..k], incoming[k..]);
    assert incoming == incoming[..k] + incoming[k..];
    var seen := Seen(u, incoming, s.unread);
    assert u + Received(incoming) == seen + Received(incoming[k..]);
    ParseInPieces(seen, Received(incoming[k..]), max);
    if s.end.Closed? {
      assert incoming[k..] == [];
      assert seen + Received([]) == seen;
    }
  }

  lemma {:induction false} ClosedReadsAll(u: bytes, incoming: seq<Read>, max: nat)
    ensures Run(u, incoming, max).end.Closed? ==> Run(u, incoming, max).unread == []
    decreases |incoming|, |u|
  {
    NextClosed(u, incoming, max);
    var o := Next(u, incoming, max);
    if o.result.Ok? { ClosedReadsAll(o.rest, o.left, max); }
  }

  lemma {:induction false} NextClosed(u: bytes, incoming: seq<Read>, max: nat)
    ensures Next(u, incoming, max).result == Err(Closed) ==> Next(u, incoming, max).left == []
    decreases |incoming|
  {
    if ParseHead(u, max).Incomplete? && incoming != [] && incoming[0].Data? {
      NextClosed(u + incoming[0].chunk, incoming[1..], max);
    }
  }

  /** Whatever the transport does, the frames delivered are a prefix of the frames sent. */
  lemma NeverAWrongFrame(u: bytes, incoming: seq<Read>, max: nat)
    ensures Run(u, incoming, max).frames <= ParseAll(u + Received(incoming), max).frames
  {
    hide ParseHead, Next, Run, ParseAll;
    var s := Run(u, incoming, max);
    SessionIsOneShotParse(u, incoming, max);
    var k := |incoming| - |s.unread|;
    ReceivedAppend(incoming[..k], incoming[k..]);
    assert incoming == incoming[..k] + incoming[k..];
    var seen := Seen(u, incoming, s.unread);
    assert u + Received(incoming) == seen + Received(incoming[k..]);
    ParseInPieces(seen, Received(incoming[k..]), max);
  }

  ghost predicate OnlyData(incoming: seq<Read>) {
    forall i :: 0 <= i < |incoming| ==> incoming[i].Data?
  }

  lemma {:induction false} DataNeverFails(u: bytes, incoming: seq<Read>, max: nat)
    requires OnlyData(incoming)
    ensures var s := Run(u, incoming, max); !s.end.ReadFailed?
    decreases |incoming|, |u|
  {
    NextOnData(u, incoming, max);
    var o := Next(u, incoming, max);
    if o.result.Ok? {
      DataNeverFails(o.rest, o.left, max);
    }
  }

  lemma {:induction false} NextOnData(u: bytes, incoming: seq<Read>, max: nat)
    requires OnlyData(incoming)
    ensures var o := Next(u, incoming, max); o.result != Err(ReadFailed) && OnlyData(o.left)
    decreases |incoming|
  {
    if ParseHead(u, max).Incomplete? && incoming != [] {
      NextOnData(u + incoming[0].chunk, incoming[1..], max);
    }
  }

  /** End to end: frames written by `write_frame` and cut into any chunks come out as the payloads, in order. */
  lemma WrittenFramesArrive(payloads: seq<bytes>, incoming: seq<Read>, max: nat)
    requires max < U64_MODULUS && forall i :: 0 <= i < |payloads| ==> |payloads[i]| <= max
    requires OnlyData(incoming) && Received(incoming) == EncodeAll(payloads)
    ensures Run([], incoming, max).frames == payloads && Run([], incoming, max).end == Closed
  {
    hide ParseHead, Next, Run;
    DataNeverFails([], incoming, max);
    UninterruptedSession([], incoming, max);
    FramesRoundTrip(payloads, [], max);
    var s := Run([], incoming, max);
    assert EncodeAll(payloads) + [] == EncodeAll(payloads) == [] + Received(incoming);
    assert ParseAll([], max) == Parse([], Partial([])) by { EmptyParse(max); }
    assert payloads + [] == payloads;
    assert forall e :: ParseAll([] + Received(incoming), max).end != Broken(e);
  }

  lemma EmptyParse(max: nat)
    ensures ParseAll([], max) == Parse([], Partial([]))
  {
  }

  // ---------------------------------------------------------------- how a session ends

  /** The first `k` reads parsed at once with what was buffered before them. */
  function ParsedBy(u: bytes, incoming: seq<Read>, max: nat, k: nat): Parse
    requires k <= |incoming|
  {
    ParseAll(u + Received(incoming[..k]), max)
  }

  /** A read that fails, or that times out with part of a frame received. */
  ghost predicate Interrupts(u: bytes, incoming: seq<Read>, max: nat, k: nat) {
    k < |incoming| && !incoming[k].Data? &&
    (incoming[k].Failed? || ParsedBy(u, incoming, max, k).end != Partial([]))
  }

  /** Nothing before the `k`-th read ended the session. */
  ghost predicate Undisturbed(u: bytes, incoming: seq<Read>, max: nat, k: nat) {
    forall j: nat :: j < k ==> !Interrupts(u, incoming, max, j)
  }

  /** The session fails at its `k`-th read, its header being sound until then. */
  ghost predicate FailsAt(u: bytes, incoming: seq<Read>, max: nat, k: nat) {
    && Interrupts(u, incoming, max, k) && Undisturbed(u, incoming, max, k)
    && ParsedBy(u, incoming, max, k).end.Partial?
  }

  /** A bad header has arrived with the first `k` reads, nothing having failed before. */
  ghost predicate BreaksAt(u: bytes, incoming: seq<Read>, max: nat, k: nat, e: FrameError) {
    k <= |incoming| && Undisturbed(u, incoming, max, k) && ParsedBy(u, incoming, max, k).end == Broken(e)
  }

  ghost predicate Breaks(u: bytes, incoming: seq<Read>, max: nat, e: FrameError) {
    exists k: nat :: BreaksAt(u, incoming, max, k, e)
  }

  /** `Run`, one frame or one read at a time. */
  lemma RunStep(u: bytes, incoming: seq<Read>, max: nat)
    ensures var h := ParseHead(u, max);
            Run(u, incoming, max) ==
            if h.Frame? then var later := Run(u[h.used..], incoming, max); later.(frames := [h.payload] + later.frames)
            else if h.Bad? then Session([], Header(h.error), u, incoming)
            else if incoming == [] then Session([], Closed, u, [])
            else
              var filled := FillAnswer(u, incoming[0]);
              if filled == Ok(true) then Run(u + BytesOf(incoming[0]), incoming[1..], max)
              else if filled.Ok? then Run(u, incoming[1..], max)
              else Session([], filled.error, u, incoming[1..])
  {
    hide ParseHead, Next;
    NextStep(u, incoming, max);
    var h := ParseHead(u, max);
    if h.Incomplete? && incoming != [] {
      var filled := FillAnswer(u, incoming[0]);
      if filled == Ok(false) {
        var later := Run(u, incoming[1..], max);
        assert [] + later.frames == later.frames;
      }
    }
  }

  /** An idle tick at a frame's boundary changes nothing. */
  lemma IdleTickIsNothing(incoming: seq<Read>, max: nat)
    ensures Run([], [Timeout] + incoming, max) == Run([], incoming, max)
  {
    hide Run, Next;
    RunStep([], [Timeout] + incoming, max);
    assert ([Timeout] + incoming)[1..] == incoming;
  }

  lemma ParsedAtOnce(u: bytes, incoming: seq<Read>, max: nat)
    ensures ParsedBy(u, incoming, max, 0) == ParseAll(u, max)
  {
    assert incoming[..0] == [] && u + [] == u;
  }

  /** A frame at the front is parsed first, whatever has been read. */
  lemma ParsedAfterFrame(u: bytes, incoming: seq<Read>, max: nat, k: nat)
    requires k <= |incoming| && ParseHead(u, max).Frame?
    ensures var h := ParseHead(u, max); var p := ParsedBy(u[h.used..], incoming, max, k);
            ParsedBy(u, incoming, max, k) == Parse([h.payload] + p.frames, p.end)
  {
    hide ParseHead;
    var h, more := ParseHead(u, max), Received(incoming[..k]);
    HeadIsStable(u, more, max);
    assert (u + more)[h.used..] == u[h.used..] + more;
  }

  /** The first read moves into the buffer. */
  lemma ParsedAfterRead(u: bytes, incoming: seq<Read>, max: nat, k: nat)
    requires 0 < k <= |incoming|
    ensures ParsedBy(u, incoming, max, k) == ParsedBy(u + BytesOf(incoming[0]), incoming[1..], max, k - 1)
  {
    hide ParseAll;
    assert incoming[..k][0] == incoming[0] && incoming[..k][1..] == incoming[1..][..k - 1];
    assert u + (BytesOf(incoming[0]) + Received(incoming[1..][..k - 1])) ==
           u + BytesOf(incoming[0]) + Received(incoming[1..][..k - 1]);
  }

  lemma SameInterrupts(u: bytes, incoming: seq<Read>, max: nat, k: nat)
    requires ParseHead(u, max).Frame?
    ensures var v := u[ParseHead(u, max).used..];
            && (Interrupts(u, incoming, max, k) <==> Interrupts(v, incoming, max, k))
            && (k <= |incoming| ==> ParsedBy(u, incoming, max, k).end == ParsedBy(v, incoming, max, k).end)
  {
    hide ParseHead, ParsedBy;
    if k <= |incoming| { ParsedAfterFrame(u, incoming, max, k); }
  }

  lemma ShiftedInterrupts(u: bytes, incoming: seq<Read>, max: nat, k: nat)
    requires incoming != [] && k > 0
    ensures var v := u + BytesOf(incoming[0]);
            && (Interrupts(u, incoming, max, k) <==> Interrupts(v, incoming[1..], max, k - 1))
            && (k <= |incoming| ==> ParsedBy(u, incoming, max, k) == ParsedBy(v, incoming[1..], max, k - 1))
  {
    hide ParsedBy;
    if k <= |incoming| { ParsedAfterRead(u, incoming, max, k); }
  }

  /** How a session ends: in a read failure exactly at the first read that fails or times out
      within a frame, having delivered every frame complete by then; in a header error exactly
      when a bad header arrives before that; and otherwise because the peer has closed. */
  lemma {:induction false} EndIff(u: bytes, incoming: seq<Read>, max: nat)
    ensures var s := Run(u, incoming, max);
            && (s.end.ReadFailed? <==> exists k: nat :: FailsAt(u, incoming, max, k))
            && (forall k: nat :: FailsAt(u, incoming, max, k) ==> s.frames == ParsedBy(u, incoming, max, k).frames)
            && (forall e :: s.end == Header(e) <==> Breaks(u, incoming, max, e))
    decreases |incoming|, |u|
  {
    hide ParseHead, Run, Next, ParseAll, Interrupts, ParsedBy, FailsAt, BreaksAt;
    RunStep(u, incoming, max);
    var h := ParseHead(u, max);
    forall k: nat ensures FailsAt(u, incoming, max, k) ==> k < |incoming| { FailsWithin(u, incoming, max, k); }
    if h.Frame? {
      var v := u[h.used..];
      EndIff(v, incoming, max);
      forall k: nat
        ensures FailsAt(u, incoming, max, k) <==> FailsAt(v, incoming, max, k)
        ensures FailsAt(u, incoming, max, k) ==>
                  k < |incoming| &&
                  ParsedBy(u, incoming, max, k).frames == [h.payload] + ParsedBy(v, incoming, max, k).frames
      {
        FailsWithin(u, incoming, max, k);
        EndAfterFrame(u, incoming, max, k, InvalidLength);
      }
      forall e: FrameError ensures Breaks(u, incoming, max, e) <==> Breaks(v, incoming, max, e) {
        forall k: nat ensures BreaksAt(u, incoming, max, k, e) <==> BreaksAt(v, incoming, max, k, e) {
          EndAfterFrame(u, incoming, max, k, e);
        }
      }
    } else if h.Bad? {
      EndsAtOnce(u, incoming, max);
    } else if incoming == [] {
      EndsClosed(u, max);
    } else if FillAnswer(u, incoming[0]).Ok? {
      var v := u + BytesOf(incoming[0]);
      assert incoming[0].Timeout? ==> v == u;
      EndIff(v, incoming[1..], max);
      EndShifted(u, incoming, max);
    } else {
      EndsFailed(u, incoming, max);
    }
  }

  lemma EndShifted(u: bytes, incoming: seq<Read>, max: nat)
    requires ParseHead(u, max).Incomplete? && incoming != [] && FillAnswer(u, incoming[0]).Ok?
    ensures var v, rest := u + BytesOf(incoming[0]), incoming[1..];
            && ((exists k: nat :: FailsAt(u, incoming, max, k)) <==> exists k: nat :: FailsAt(v, rest, max, k))
            && (forall k: nat :: FailsAt(u, incoming, max, k) ==>
                  0 < k < |incoming| && FailsAt(v, rest, max, k - 1) &&
                  ParsedBy(u, incoming, max, k).frames == ParsedBy(v, rest, max, k - 1).frames)
            && (forall e :: Breaks(u, incoming, max, e) <==> Breaks(v, rest, max, e))
  {
    hide ParseHead, ParsedBy, FailsAt, BreaksAt, Interrupts;
    var v, rest := u + BytesOf(incoming[0]), incoming[1..];
    forall k: nat ensures FailsAt(v, rest, max, k) ==> FailsAt(u, incoming, max, k + 1) {
      EndAfterRead(u, incoming, max, k, InvalidLength);
    }
    forall k: nat
      ensures FailsAt(u, incoming, max, k) ==>
                0 < k < |incoming| && FailsAt(v, rest, max, k - 1) &&
                ParsedBy(u, incoming, max, k).frames == ParsedBy(v, rest, max, k - 1).frames
    {
      FailsWithin(u, incoming, max, k);
      EndAfterRead(u, incoming, max, if k > 0 then k - 1 else 0, InvalidLength);
    }
    if k: nat :| FailsAt(v, rest, max, k) { assert FailsAt(u, incoming, max, k + 1); }
    forall e: FrameError ensures Breaks(u, incoming, max, e) <==> Breaks(v, rest, max, e) {
      BreaksShifted(u, incoming, max, e);
    }
  }

  lemma BreaksShifted(u: bytes, incoming: seq<Read>, max: nat, e: FrameError)
    requires ParseHead(u, max).Incomplete? && incoming != [] && FillAnswer(u, incoming[0]).Ok?
    ensures Breaks(u, incoming, max, e) <==> Breaks(u + BytesOf(incoming[0]), incoming[1..], max, e)
  {
    hide ParseHead, BreaksAt;
    var v, rest := u + BytesOf(incoming[0]), incoming[1..];
    if k: nat :| BreaksAt(u, incoming, max, k, e) {
      EndAfterRead(u, incoming, max, if k > 0 then k - 1 else 0, e);
      assert BreaksAt(v, rest, max, k - 1, e);
    }
    if k: nat :| BreaksAt(v, rest, max, k, e) {
      EndAfterRead(u, incoming, max, k, e);
      assert BreaksAt(u, incoming, max, k + 1, e);
    }
  }

  lemma EndAfterFrame(u: bytes, incoming: seq<Read>, max: nat, k: nat, e: FrameError)
    requires ParseHead(u, max).Frame?
    ensures var h := ParseHead(u, max); var v := u[h.used..];
            && (FailsAt(u, incoming, max, k) <==> FailsAt(v, incoming, max, k))
            && (BreaksAt(u, incoming, max, k, e) <==> BreaksAt(v, incoming, max, k, e))
            && (k <= |incoming| ==>
                  ParsedBy(u, incoming, max, k).frames == [h.payload] + ParsedBy(v, incoming, max, k).frames)
  {
    hide ParseHead, ParsedBy, Interrupts;
    var v := u[ParseHead(u, max).used..];
    FailsWithin(u, incoming, max, k);
    FailsWithin(v, incoming, max, k);
    SameInterrupts(u, incoming, max, k);
    forall j: nat ensures Interrupts(u, incoming, max, j) <==> Interrupts(v, incoming, max, j) {
      SameInterrupts(u, incoming, max, j);
    }
    if k <= |incoming| { ParsedAfterFrame(u, incoming, max, k); }
  }

  /** With no complete frame buffered, the parse so far is the buffer itself. */
  lemma NothingParsed(u: bytes, incoming: seq<Read>, max: nat)
    requires ParseHead(u, max).Incomplete?
    ensures ParsedBy(u, incoming, max, 0) == Parse([], Partial(u))
  {
    hide ParseHead;
    ParsedAtOnce(u, incoming, max);
  }

  lemma EndAfterRead(u: bytes, incoming: seq<Read>, max: nat, k: nat, e: FrameError)
    requires ParseHead(u, max).Incomplete? && incoming != [] && FillAnswer(u, incoming[0]).Ok?
    ensures var v := u + BytesOf(incoming[0]);
            && !FailsAt(u, incoming, max, 0) && !BreaksAt(u, incoming, max, 0, e)
            && (FailsAt(v, incoming[1..], max, k) <==> FailsAt(u, incoming, max, k + 1))
            && (BreaksAt(v, incoming[1..], max, k, e) <==> BreaksAt(u, incoming, max, k + 1, e))
            && (k < |incoming| ==>
                  ParsedBy(u, incoming, max, k + 1).frames == ParsedBy(v, incoming[1..], max, k).frames)
  {
    hide ParseHead, ParsedBy;
    var v := u + BytesOf(incoming[0]);
    NothingParsed(u, incoming, max);
    assert !Interrupts(u, incoming, max, 0);
    hide Interrupts;
    FailsWithin(v, incoming[1..], max, k);
    ShiftedInterrupts(u, incoming, max, k + 1);
    UndisturbedShifted(u, incoming, max, k);
  }

  lemma UndisturbedShifted(u: bytes, incoming: seq<Read>, max: nat, k: nat)
    requires incoming != [] && !Interrupts(u, incoming, max, 0)
    ensures Undisturbed(u, incoming, max, k + 1) <==> Undisturbed(u + BytesOf(incoming[0]), incoming[1..], max, k)
  {
    hide Interrupts;
    var v := u + BytesOf(incoming[0]);
    forall j: nat | j < k ensures Interrupts(u, incoming, max, j + 1) <==> Interrupts(v, incoming[1..], max, j) {
      ShiftedInterrupts(u, incoming, max, j + 1);
    }
    if Undisturbed(v, incoming[1..], max, k) {
      forall j: nat | j < k + 1 ensures !Interrupts(u, incoming, max, j) {
        if j > 0 { assert !Interrupts(v, incoming[1..], max, j - 1); }
      }
    }
  }

  lemma EndsAtOnce(u: bytes, incoming: seq<Read>, max: nat)
    requires ParseHead(u, max).Bad?
    ensures forall k: nat :: !FailsAt(u, incoming, max, k)
    ensures BreaksAt(u, incoming, max, 0, ParseHead(u, max).error)
    ensures forall k: nat, e :: BreaksAt(u, incoming, max, k, e) ==> e == ParseHead(u, max).error
  {
    hide ParseHead, Interrupts;
    var e := ParseHead(u, max).error;
    forall k: nat | k <= |incoming| ensures ParsedBy(u, incoming, max, k) == Parse([], Broken(e)) {
      HeadIsStable(u, Received(incoming[..k]), max);
    }
    assert BreaksAt(u, incoming, max, 0, e);
    forall k: nat ensures !FailsAt(u, incoming, max, k) {
      FailsWithin(u, incoming, max, k);
    }
  }

  lemma FailsWithin(u: bytes, incoming: seq<Read>, max: nat, k: nat)
    ensures FailsAt(u, incoming, max, k) ==> k < |incoming|
  {
    hide ParsedBy;
  }

  lemma EndsClosed(u: bytes, max: nat)
    requires ParseHead(u, max).Incomplete?
    ensures forall k: nat :: !FailsAt(u, [], max, k)
    ensures forall k: nat, e :: !BreaksAt(u, [], max, k, e)
  {
    hide ParseHead;
    NothingParsed(u, [], max);
  }

  lemma EndsFailed(u: bytes, incoming: seq<Read>, max: nat)
    requires ParseHead(u, max).Incomplete? && incoming != [] && FillAnswer(u, incoming[0]).Err?
    ensures FillAnswer(u, incoming[0]) == Err(ReadFailed)
    ensures FailsAt(u, incoming, max, 0) && ParsedBy(u, incoming, max, 0).frames == []
    ensures forall k: nat :: FailsAt(u, incoming, max, k) ==> k == 0
    ensures forall k: nat, e :: !BreaksAt(u, incoming, max, k, e)
  {
    hide ParseHead, ParsedBy;
    NothingParsed(u, incoming, max);
    assert Interrupts(u, incoming, max, 0);
  }

  // ---------------------------------------------------------------- timeouts between frames

  /** No read fails, and a timeout falls only where whole frames have arrived. */
  ghost predicate Polite(incoming: seq<Read>, payloads: seq<bytes>) {
    forall k :: 0 <= k < |incoming| ==>
      !incoming[k].Failed? &&
      (incoming[k].Timeout? ==> exists n :: 0 <= n <= |payloads| && Received(incoming[..k]) == EncodeAll(payloads[..n]))
  }

  /** Frames written by `write_frame` and cut into any chunks, with idle ticks between frames,
      come out as the payloads, in order, and then the close. */
  lemma PoliteFramesArrive(payloads: seq<bytes>, incoming: seq<Read>, max: nat)
    requires max < U64_MODULUS && forall i :: 0 <= i < |payloads| ==> |payloads[i]| <= max
    requires Polite(incoming, payloads) && Received(incoming) == EncodeAll(payloads)
    ensures Run([], incoming, max).frames == payloads && Run([], incoming, max).end == Closed
  {
    hide ParseHead, Next, Run, ParseAll;
    forall k: nat ensures !Interrupts([], incoming, max, k) {
      if k < |incoming| && incoming[k].Timeout? {
        var n :| 0 <= n <= |payloads| && Received(incoming[..k]) == EncodeAll(payloads[..n]);
        WholeFrames(payloads[..n], max);
        assert [] + Received(incoming[..k]) == EncodeAll(payloads[..n]);
      }
    }
    EndIff([], incoming, max);
    UninterruptedSession([], incoming, max);
    WholeFrames(payloads, max);
    assert [] + Received(incoming) == EncodeAll(payloads);
  }

  lemma WholeFrames(payloads: seq<bytes>, max: nat)
    requires max < U64_MODULUS && forall i :: 0 <= i < |payloads| ==> |payloads[i]| <= max
    ensures ParseAll(EncodeAll(payloads), max) == Parse(payloads, Partial([]))
  {
    hide ParseAll;
    FramesRoundTrip(payloads, [], max);
    EmptyParse(max);
    assert EncodeAll(payloads) + [] == EncodeAll(payloads) && payloads + [] == payloads;
  }
}
