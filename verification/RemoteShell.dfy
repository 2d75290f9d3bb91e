/**
  The remote shell's input path: the initiator's stdin task, the listener's event
  loop around the PTY master, and the theorem that joins them (src/bin/rnsh.rs).
 */
module RemoteShell {
  import opened Wrappers
  import opened Bytes
  import opened Escape
  import opened StreamFrames

  const SID_STDIN: u16 := 0
  const READ_MAX: nat := 4096

  type KeyRead = c: bytes | 1 <= |c| <= READ_MAX witness [0]

  // ---------------------------------------------------------------- the stdin task

  function EofFrame(): bytes { EncodeHeader(SID_STDIN, true, false) }

  /** How many reads are complete before one of them types the disconnect sequence. */
  ghost function CompleteReads(s: Escape.State, keyboard: seq<KeyRead>): (n: nat)
    ensures n <= |keyboard|
    decreases |keyboard|
  {
    if keyboard == [] || Disconnects(s, keyboard[0]) then 0
    else 1 + CompleteReads(Feed(s, keyboard[0]).state, keyboard[1..])
  }

  /** The data frames the stdin task has to send, read by read.  A disconnect drops the
      output of its own read and of everything after it. */
  ghost function DataFrames(codec: Codec, s: Escape.State, keyboard: seq<KeyRead>, max: nat): seq<bytes>
    decreases |keyboard|
  {
    if keyboard == [] || Disconnects(s, keyboard[0]) then []
    else
      var r := Feed(s, keyboard[0]);
      FramesOf(codec, SID_STDIN, false, r.out, max) + DataFrames(codec, r.state, keyboard[1..], max)
  }

  /** How many of `n` sends succeed before the first that fails; `ok(i)` is the fate of the `i`-th. */
  ghost function Accepted(n: nat, ok: nat -> bool): (k: nat)
    ensures k <= n && (forall i :: 0 <= i < k ==> ok(i)) && (k < n ==> !ok(k))
  {
    if n == 0 then 0
    else
      var k := Accepted(n - 1, ok);
      if k == n - 1 && ok(k) then n else k
  }

  lemma AcceptedIs(n: nat, ok: nat -> bool, k: nat)
    requires k <= n && (forall i :: 0 <= i < k ==> ok(i)) && (k < n ==> !ok(k))
    ensures Accepted(n, ok) == k
  {
    var j: nat := Accepted(n, ok);
    assert ok(j) ==> j == n;
  }

  /** What the task gets through.  A failed send ends the data; the EOF is sent after that
      failure too, and only a disconnect leaves it out. */
  ghost function StdinSent(codec: Codec, s: Escape.State, keyboard: seq<KeyRead>, max: nat,
                           ok: nat -> bool): seq<bytes> {
    var data := DataFrames(codec, s, keyboard, max);
    var k := Accepted(|data|, ok);
    var eof :=
      if k < |data| then ok(k + 1)
      else CompleteReads(s, keyboard) == |keyboard| && ok(k);
    data[..k] + if eof then [EofFrame()] else []
  }

  function Text(keyboard: seq<KeyRead>): bytes {
    if keyboard == [] then [] else keyboard[0] + Text(keyboard[1..])
  }

  lemma FeedSnoc(s: Escape.State, a: bytes, b: byte)
    requires !Disconnects(s, a)
    ensures var e := Step(Feed(s, a).state, b);
            if e.action == Some(Disconnect) then Disconnects(s, a + [b])
            else
              && !Disconnects(s, a + [b]) && Feed(s, a + [b]).state == e.state
              && Feed(s, a + [b]).out == Feed(s, a).out + e.out
  {
    hide Step;
    var m := Feed(s, a).state;
    var e := Step(m, b);
    FeedInPieces(s, a, [b]);
    assert Feed(m, [b]) == if e.action == Some(Disconnect) then Run(e.state, [], [Disconnect])
                           else Run(e.state, e.out + [], (if e.action.Some? then [e.action.value] else []) + []) by {
      assert [b][1..] == [];
      assert Feed(e.state, []) == Run(e.state, [], []);
    }
    assert e.out + [] == e.out;
  }

  /** With `i` reads handled and all their frames sent, the rest is what state `s` makes of the rest. */
  ghost predicate Awaiting(codec: Codec, keyboard: seq<KeyRead>, max: nat, sent: seq<bytes>, s: Escape.State, i: nat) {
    && i <= |keyboard|
    && DataFrames(codec, Escape.START, keyboard, max) == sent + DataFrames(codec, s, keyboard[i..], max)
    && CompleteReads(Escape.START, keyboard) == i + CompleteReads(s, keyboard[i..])
  }

  lemma AwaitingStep(codec: Codec, keyboard: seq<KeyRead>, max: nat, sent: seq<bytes>, s: Escape.State, i: nat)
    requires Awaiting(codec, keyboard, max, sent, s, i) && i < |keyboard| && !Disconnects(s, keyboard[i])
    ensures var r := Feed(s, keyboard[i]);
            Awaiting(codec, keyboard, max, sent + FramesOf(codec, SID_STDIN, false, r.out, max), r.state, i + 1)
  {
    hide Feed, FramesOf, Disconnects;
    assert keyboard[i..][0] == keyboard[i] && keyboard[i..][1..] == keyboard[i + 1..];
  }

  lemma AwaitingNothing(codec: Codec, keyboard: seq<KeyRead>, max: nat, sent: seq<bytes>, s: Escape.State, i: nat)
    requires Awaiting(codec, keyboard, max, sent, s, i) && (i < |keyboard| ==> Disconnects(s, keyboard[i]))
    ensures DataFrames(codec, Escape.START, keyboard, max) == sent && CompleteReads(Escape.START, keyboard) == i
  {
    hide Feed, FramesOf, Disconnects;
    assert i < |keyboard| ==> keyboard[i..][0] == keyboard[i];
    assert sent + [] == sent;
  }

  /** One read, byte by byte through the escape machine. */
  method FeedRead(esc: EscapeHandler, buf: bytes) returns (out: bytes, disconnected: bool)
    modifies esc
    ensures disconnected <==> Disconnects(old(esc.Value()), buf)
    ensures !disconnected ==> esc.Value() == Feed(old(esc.Value()), buf).state && out == Feed(old(esc.Value()), buf).out
  {
    hide Step, Feed;
    ghost var s := esc.Value();
    out := [];
    var k := 0;
    FeedNothing(s);
    assert buf[..0] == [];
    while k < |buf|
      invariant 0 <= k <= |buf|
      invariant !Disconnects(s, buf[..k]) && esc.Value() == Feed(s, buf[..k]).state && out == Feed(s, buf[..k]).out
    {
      FeedSnoc(s, buf[..k], buf[k]);
      assert buf[..k] + [buf[k]] == buf[..k + 1];
      var action;
      out, action := esc.ProcessByte(buf[k], out);
      if action == Some(Disconnect) {
        FeedInPieces(s, buf[..k + 1], buf[k + 1..]);
        assert buf[..k + 1] + buf[k + 1..] == buf;
        return out, true;
      }
      k := k + 1;
    }
    assert buf[..k] == buf;
    disconnected := false;
  }

  /** Sends frames until one fails; `from` sends have been made before. */
  method SendFrames(frames: seq<bytes>, from: nat, ok: nat -> bool) returns (n: nat)
    ensures n <= |frames| && (forall i :: from <= i < from + n ==> ok(i)) && (n < |frames| ==> !ok(from + n))
  {
    n := 0;
    while n < |frames| && ok(from + n)
      invariant n <= |frames| && forall i :: from <= i < from + n ==> ok(i)
    {
      n := n + 1;
    }
  }

  lemma AwaitingAll(codec: Codec, keyboard: seq<KeyRead>, max: nat)
    ensures Awaiting(codec, keyboard, max, [], Escape.START, 0)
  {
    assert keyboard[0..] == keyboard;
    assert [] + DataFrames(codec, Escape.START, keyboard, max) == DataFrames(codec, Escape.START, keyboard, max);
  }

  /** A send has failed: what got through is short of the data. */
  ghost predicate Broken(data: seq<bytes>, sent: seq<bytes>, ok: nat -> bool) {
    |sent| < |data| && sent == data[..|sent|] && !ok(|sent|)
  }

  lemma BreaksOff(codec: Codec, keyboard: seq<KeyRead>, max: nat, sent: seq<bytes>, frames: seq<bytes>, n: nat,
                  s: Escape.State, i: nat, ok: nat -> bool)
    requires Awaiting(codec, keyboard, max, sent + frames, s, i) && n < |frames| && !ok(|sent| + n)
    ensures Broken(DataFrames(codec, Escape.START, keyboard, max), sent + frames[..n], ok)
  {
    hide DataFrames, CompleteReads;
    var data := DataFrames(codec, Escape.START, keyboard, max);
    assert data[..|sent| + n] == sent + frames[..n];
  }

  method StdinTask(codec: Codec, keyboard: seq<KeyRead>, max: nat, ok: nat -> bool) returns (sent: seq<bytes>)
    ensures sent == StdinSent(codec, Escape.START, keyboard, max, ok)
  {
    hide Step, Feed, FramesOf, DataFrames, CompleteReads, Awaiting, Disconnects;
    var esc := new EscapeHandler();
    sent := [];
    ghost var data := DataFrames(codec, Escape.START, keyboard, max);
    AwaitingAll(codec, keyboard, max);
    var i, sentOk := 0, true;
    while i < |keyboard| && sentOk
      invariant 0 <= i <= |keyboard|
      invariant if sentOk then Awaiting(codec, keyboard, max, sent, esc.Value(), i) else Broken(data, sent, ok)
      invariant forall j :: 0 <= j < |sent| ==> ok(j)
      decreases |keyboard| - i, sentOk
    {
      var buf := keyboard[i];
      ghost var s := esc.Value();
      var out, disconnected := FeedRead(esc, buf);
      if disconnected {
        AwaitingNothing(codec, keyboard, max, sent, s, i);
        AcceptedIs(|data|, ok, |sent|);
        return;
      }
      AwaitingStep(codec, keyboard, max, sent, s, i);
      if out != [] {
        var frames := BuildFrames(codec, SID_STDIN, false, out, max);
        var n := SendFrames(frames, |sent|, ok);
        sentOk := n == |frames|;
        if sentOk {
          assert frames[..n] == frames;
        } else {
          BreaksOff(codec, keyboard, max, sent, frames, n, esc.Value(), i + 1, ok);
        }
        sent := sent + frames[..n];
      } else {
        NoFrames(codec, SID_STDIN, false, max);
        assert sent + [] == sent;
      }
      i := i + 1;
    }
    if sentOk { AwaitingNothing(codec, keyboard, max, sent, esc.Value(), i); }
    var attempts := if sentOk then |sent| else |sent| + 1;
    AcceptedIs(|data|, ok, |sent|);
    if ok(attempts) { sent := sent + [EncodeHeader(SID_STDIN, true, false)]; }
  }

  // ---------------------------------------------------------------- the listener's event loop

  datatype Event =
    | StreamData(payload: bytes)
    | LinkClosed
    | ReceiverGone
    | Idle(exitStatus: Option<nat>)
    | Unrelated

  /** One turn of the loop: what its guard sees of the output side, then the event it receives. */
  datatype Turn = Turn(readerFinished: bool, waitedLong: bool, event: Event)

  /** `written` and `closes` are the effects on the master descriptor. */
  datatype Session = Session(written: bytes, masterClosed: bool, closes: nat, childExited: bool, childCode: int)

  const FRESH_SESSION: Session := Session([], false, 0, false, -1)

  function Handle(codec: Codec, s: Session, e: Event): Session {
    match e
    case StreamData(payload) => (
      match DecodeHeader(payload)
      case None => s
      case Some(h) =>
        if h.sid != SID_STDIN || s.masterClosed then s
        else
          var wrote := s.(written := s.written + FrameData(codec, payload));
          if h.eof then wrote.(masterClosed := true, closes := s.closes + 1) else wrote)
    case LinkClosed => s.(childExited := true, childCode := if s.childCode < 0 then 0 else s.childCode)
    case ReceiverGone => s.(childExited := true, childCode := if s.childCode < 0 then 0 else s.childCode)
    case Idle(status) => if status.Some? then s.(childExited := true, childCode := status.value) else s
    case Unrelated => s
  }

  predicate Leaves(s: Session, t: Turn) {
    s.childExited && (t.readerFinished || t.waitedLong)
  }

  function CleanUp(s: Session): Session {
    if s.masterClosed then s else s.(masterClosed := true, closes := s.closes + 1)
  }

  /** How far a run got, and whether it left the loop and cleaned up. */
  datatype Served = Served(session: Session, turns: nat, ended: bool)

  function Serve(codec: Codec, s: Session, turns: seq<Turn>): (r: Served)
    ensures r.turns <= |turns|
    decreases |turns|
  {
    if turns == [] then Served(s, 0, false)
    else if Leaves(s, turns[0]) then Served(CleanUp(s), 0, true)
    else
      var later := Serve(codec, Handle(codec, s, turns[0].event), turns[1..]);
      later.(turns := later.turns + 1)
  }

  class PtySession {
    var masterClosed: bool
    var childExited: bool
    var childCode: int
    /** Bytes handed to `write` on the master, and how often it was closed. */
    ghost var written: bytes
    ghost var closes: nat

    ghost function Value(): Session
      reads this
    {
      Session(written, masterClosed, closes, childExited, childCode)
    }

    constructor ()
      ensures Value() == FRESH_SESSION
    {
      masterClosed, childExited, childCode, written, closes := false, false, -1, [], 0;
    }

    method Write(d: bytes)
      modifies `written
      ensures written == old(written) + d
    {
      written := written + d;
    }

    method Close()
      modifies `closes
      ensures closes == old(closes) + 1
    {
      closes := closes + 1;
    }

    method OnEvent(codec: Codec, e: Event)
      modifies this
      ensures Value() == Handle(codec, old(Value()), e)
    {
      match e {
        case StreamData(payload) =>
          var header := DecodeHeader(payload);
          if header.None? { return; }
          var h := header.value;
          var d := FrameData(codec, payload);
          if h.sid == SID_STDIN && d != [] && !masterClosed {
            Write(d);
          }
          if h.sid == SID_STDIN && h.eof && !masterClosed {
            masterClosed := true;
            Close();
          }
        case LinkClosed =>
          if childCode < 0 { childCode := 0; }
          childExited := true;
        case ReceiverGone =>
          if childCode < 0 { childCode := 0; }
          childExited := true;
        case Idle(status) =>
          if status.Some? {
            childCode, childExited := status.value, true;
          }
        case Unrelated =>
      }
    }

    method HandleLink(codec: Codec, turns: seq<Turn>) returns (n: nat, ended: bool)
      modifies this
      ensures Serve(codec, old(Value()), turns) == Served(Value(), n, ended)
    {
      n, ended := 0, false;
      while n < |turns|
        invariant 0 <= n <= |turns| && !ended
        invariant var later := Serve(codec, Value(), turns[n..]);
                  Serve(codec, old(Value()), turns) == later.(turns := later.turns + n)
      {
        hide Handle;
        var t := turns[n];
        assert turns[n..][0] == t && turns[n..][1..] == turns[n + 1..];
        if childExited && (t.readerFinished || t.waitedLong) {
          if !masterClosed {
            Close();
            masterClosed := true;
          }
          ended := true;
          return;
        }
        OnEvent(codec, t.event);
        n := n + 1;
      }
    }
  }

  // ---------------------------------------------------------------- the descriptor, in every run

  /** The master descriptor is closed at most once, and exactly once by the time the session is over. */
  lemma {:induction false} ClosedExactlyOnce(codec: Codec, s: Session, turns: seq<Turn>)
    requires s.closes == if s.masterClosed then 1 else 0
    ensures var r := Serve(codec, s, turns);
            && r.session.closes == (if r.session.masterClosed then 1 else 0)
            && (r.ended ==> r.session.closes == 1)
    decreases |turns|
  {
    hide DecodeHeader, FrameData;
    if turns != [] && !Leaves(s, turns[0]) {
      ClosedExactlyOnce(codec, Handle(codec, s, turns[0].event), turns[1..]);
    }
  }

  /** Once the descriptor is closed nothing more is handed to it, whatever arrives. */
  lemma {:induction false} NothingAfterClose(codec: Codec, s: Session, turns: seq<Turn>)
    requires s.masterClosed
    ensures var r := Serve(codec, s, turns);
            r.session.written == s.written && r.session.masterClosed && r.session.closes == s.closes
    decreases |turns|
  {
    hide DecodeHeader, FrameData;
    if turns != [] && !Leaves(s, turns[0]) {
      NothingAfterClose(codec, Handle(codec, s, turns[0].event), turns[1..]);
    }
  }

  // ---------------------------------------------------------------- how a session ends

  /** The child's end is known after this event. */
  predicate EndsChild(e: Event) {
    e.LinkClosed? || e.ReceiverGone? || (e.Idle? && e.exitStatus.Some?)
  }

  /** The loop may leave at the `k`-th turn: the child's end is known, and the output side is done or was waited for. */
  ghost predicate MayLeave(turns: seq<Turn>, k: nat) {
    && k < |turns| && (turns[k].readerFinished || turns[k].waitedLong)
    && exists j :: 0 <= j < k && EndsChild(turns[j].event)
  }

  /** The exit code to send: the last status the child was waited for with, else 0 for a link
      that went away, else -1. */
  function ExitCode(turns: seq<Turn>): int {
    if turns == [] then -1
    else
      var e, before := turns[|turns| - 1].event, ExitCode(turns[..|turns| - 1]);
      if e.Idle? && e.exitStatus.Some? then e.exitStatus.value
      else if (e.LinkClosed? || e.ReceiverGone?) && before == -1 then 0
      else before
  }

  /** What a session knows of its child after some turns. */
  ghost predicate KnowsChild(s: Session, turns: seq<Turn>) {
    && (s.childExited <==> exists j :: 0 <= j < |turns| && EndsChild(turns[j].event))
    && s.childCode == ExitCode(turns)
  }

  lemma HandleKnows(codec: Codec, s: Session, turns: seq<Turn>, t: Turn)
    requires KnowsChild(s, turns)
    ensures KnowsChild(Handle(codec, s, t.event), turns + [t])
  {
    hide DecodeHeader, FrameData;
    var all := turns + [t];
    assert all[..|turns|] == turns && all[|turns|] == t;
    assert forall j :: 0 <= j < |turns| ==> all[j] == turns[j];
    CodeIsAtLeast(turns);
  }

  lemma {:induction false} CodeIsAtLeast(turns: seq<Turn>)
    ensures ExitCode(turns) >= -1
  {
    if turns != [] { CodeIsAtLeast(turns[..|turns| - 1]); }
  }

  lemma {:induction false} ServeEnds(codec: Codec, s: Session, turns: seq<Turn>, n: nat)
    requires n <= |turns| && KnowsChild(s, turns[..n]) && forall k: nat :: k < n ==> !MayLeave(turns, k)
    ensures var r := Serve(codec, s, turns[n..]);
            && KnowsChild(r.session, turns[..n + r.turns])
            && (r.ended <==> exists k: nat :: MayLeave(turns, k))
            && (r.ended ==> MayLeave(turns, n + r.turns))
            && forall k: nat :: MayLeave(turns, k) ==> n + r.turns <= k
    decreases |turns| - n
  {
    hide Handle, KnowsChild, EndsChild;
    if n == |turns| {
      assert turns[n..] == [];
      forall k: nat ensures !MayLeave(turns, k) { LeavesWithin(turns, k); }
    } else {
      var t := turns[n];
      assert turns[n..][0] == t && turns[n..][1..] == turns[n + 1..];
      LeavesIff(s, turns, n);
      if Leaves(s, t) {
        CleanUpKnows(s, turns[..n]);
        forall k: nat ensures MayLeave(turns, k) ==> n <= k { assert k < n ==> !MayLeave(turns, k); }
      } else {
        assert turns[..n] + [t] == turns[..n + 1];
        HandleKnows(codec, s, turns[..n], t);
        ServeEnds(codec, Handle(codec, s, t.event), turns, n + 1);
      }
    }
  }

  lemma LeavesWithin(turns: seq<Turn>, k: nat)
    ensures MayLeave(turns, k) ==> k < |turns|
  {
  }

  lemma LeavesIff(s: Session, turns: seq<Turn>, n: nat)
    requires n < |turns| && KnowsChild(s, turns[..n])
    ensures Leaves(s, turns[n]) <==> MayLeave(turns, n)
  {
    assert forall j :: 0 <= j < n ==> turns[..n][j] == turns[j];
  }

  lemma CleanUpKnows(s: Session, turns: seq<Turn>)
    requires KnowsChild(s, turns)
    ensures KnowsChild(CleanUp(s), turns)
  {
    hide EndsChild;
  }

  /** A session ends at the first turn at which the child's end is known and the output side is
      done or has been waited for, and at no other; its exit code is then the child's. */
  lemma SessionEndsIff(codec: Codec, turns: seq<Turn>)
    ensures var r := Serve(codec, FRESH_SESSION, turns);
            && (r.ended <==> exists k: nat :: MayLeave(turns, k))
            && (r.ended ==> MayLeave(turns, r.turns))
            && (forall k: nat :: MayLeave(turns, k) ==> r.turns <= k)
            && r.session.childCode == ExitCode(turns[..r.turns])
  {
    assert turns[0..] == turns && turns[..0] == [];
    ServeEnds(codec, FRESH_SESSION, turns, 0);
  }

  // ---------------------------------------------------------------- what the PTY receives

  predicate IsStdin(payload: bytes) {
    var h := DecodeHeader(payload);
    h.Some? && h.value.sid == SID_STDIN
  }

  predicate IsEof(payload: bytes) {
    var h := DecodeHeader(payload);
    h.Some? && h.value.eof
  }

  /** The stdin frames among the events of a run, in order. */
  function StdinFrames(turns: seq<Turn>): seq<bytes> {
    if turns == [] then []
    else
      var e := turns[0].event;
      (if e.StreamData? && IsStdin(e.payload) then [e.payload] else []) + StdinFrames(turns[1..])
  }

  /** No frame but the last one ends the stream. */
  ghost predicate EofOnlyLast(frames: seq<bytes>) {
    forall i :: 0 <= i < |frames| - 1 ==> !IsEof(frames[i])
  }

  function StdinOf(e: Event): seq<bytes> {
    if e.StreamData? && IsStdin(e.payload) then [e.payload] else []
  }

  lemma ServeStep(codec: Codec, s: Session, turns: seq<Turn>)
    requires turns != [] && !Leaves(s, turns[0])
    ensures var e := turns[0].event;
            var r, later := Serve(codec, s, turns), Serve(codec, Handle(codec, s, e), turns[1..]);
            && r == later.(turns := later.turns + 1)
            && StdinFrames(turns[..r.turns]) == StdinOf(e) + StdinFrames(turns[1..][..later.turns])
  {
    hide Handle, IsStdin;
    var r := Serve(codec, s, turns);
    assert turns[..r.turns][1..] == turns[1..][..r.turns - 1];
  }

  /** In any interleaving with other events, the PTY receives the data of the stdin frames, and the EOF. */
  lemma {:induction false} PtyReceives(codec: Codec, s: Session, turns: seq<Turn>)
    requires !s.masterClosed
    requires EofOnlyLast(StdinFrames(turns[..Serve(codec, s, turns).turns]))
    ensures var r := Serve(codec, s, turns); Received(codec, s, r, StdinFrames(turns[..r.turns]))
    decreases |turns|
  {
    if turns == [] || Leaves(s, turns[0]) {
      NoneReceived(codec, s, turns);
    } else {
      hide Serve, StdinFrames, Handle, IsStdin, IsEof;
      ServeStep(codec, s, turns);
      var e := turns[0].event;
      var s1 := Handle(codec, s, e);
      var later := Serve(codec, s1, turns[1..]);
      var frames1 := StdinFrames(turns[1..][..later.turns]);
      HandleFacts(codec, s, e);
      TailOfEofOnlyLast(StdinOf(e), frames1);
      if s1.masterClosed {
        NothingAfterClose(codec, s1, turns[1..]);
        EofEnds(StdinOf(e), frames1);
        OneReceived(codec, s, e.payload);
      } else {
        PtyReceives(codec, s1, turns[1..]);
        MoreReceived(codec, s, s1, later, StdinOf(e), frames1);
      }
    }
  }

  ghost predicate Received(codec: Codec, s: Session, r: Served, frames: seq<bytes>) {
    && r.session.written == s.written + DataOf(codec, frames)
    && (r.session.masterClosed <==> r.ended || (frames != [] && IsEof(frames[|frames| - 1])))
  }

  lemma NoneReceived(codec: Codec, s: Session, turns: seq<Turn>)
    requires !s.masterClosed && (turns == [] || Leaves(s, turns[0]))
    ensures var r := Serve(codec, s, turns); Received(codec, s, r, StdinFrames(turns[..r.turns]))
  {
    assert turns[..0] == [];
    assert s.written + DataOf(codec, []) == s.written;
  }

  lemma EofEnds(here: seq<bytes>, frames: seq<bytes>)
    requires EofOnlyLast(here + frames) && |here| == 1 && IsEof(here[0])
    ensures frames == []
  {
    hide IsEof;
    var all, first := here + frames, here[0];
    assert all[0] == first;
    assert |all| > 1 ==> !IsEof(first);
  }

  lemma OneReceived(codec: Codec, s: Session, frame: bytes)
    requires IsEof(frame)
    ensures s.written + DataOf(codec, [frame] + []) == s.written + FrameData(codec, frame)
  {
    assert [frame] + [] == [frame];
    assert DataOf(codec, [frame]) == FrameData(codec, frame) + DataOf(codec, []);
  }

  lemma MoreReceived(codec: Codec, s: Session, s1: Session, later: Served, here: seq<bytes>, frames: seq<bytes>)
    requires |here| <= 1 && s1.written == s.written + DataOf(codec, here) && (here != [] ==> !IsEof(here[0]))
    requires Received(codec, s1, later, frames)
    ensures Received(codec, s, later, here + frames)
  {
    hide IsEof, DataOf;
    DataOfAppend(codec, here, frames);
    assert s.written + DataOf(codec, here) + DataOf(codec, frames) ==
      s.written + (DataOf(codec, here) + DataOf(codec, frames));
    var all := here + frames;
    assert frames != [] ==> all[|all| - 1] == frames[|frames| - 1];
    assert frames == [] ==> all == here;
  }

  lemma TailOfEofOnlyLast(here: seq<bytes>, frames: seq<bytes>)
    requires EofOnlyLast(here + frames) && |here| <= 1
    ensures EofOnlyLast(frames)
  {
    hide IsEof;
    forall i | 0 <= i < |frames| - 1 ensures !IsEof(frames[i]) {
      assert frames[i] == (here + frames)[|here| + i];
    }
  }

  lemma HandleFacts(codec: Codec, s: Session, e: Event)
    requires !s.masterClosed
    ensures var s1, here := Handle(codec, s, e), StdinOf(e);
            && s1.written == s.written + DataOf(codec, here)
            && (s1.masterClosed <==> here != [] && IsEof(here[0]))
  {
    hide FrameData;
    if StdinOf(e) == [] {
      assert s.written + DataOf(codec, []) == s.written;
    } else {
      assert DataOf(codec, [e.payload]) == FrameData(codec, e.payload) + DataOf(codec, []);
    }
  }

  // ---------------------------------------------------------------- what the stdin task sends

  /** An EOF-free frame of the stdin stream that brings something. */
  ghost predicate IsData(codec: Codec, frame: bytes) {
    IsStdin(frame) && !IsEof(frame) && FrameData(codec, frame) != []
  }

  /** What the keyboard delivers before any read that types the disconnect sequence. */
  ghost function Typed(keyboard: seq<KeyRead>): bytes {
    Text(keyboard[..CompleteReads(Escape.START, keyboard)])
  }

  /** The data frames carry the machine's output on the whole of the complete reads,
      however they were split. */
  lemma {:induction false} DataIsMachineOutput(codec: Codec, s: Escape.State, keyboard: seq<KeyRead>, max: nat)
    requires Sound(codec) && max > 0
    ensures var data := DataFrames(codec, s, keyboard, max);
            && DataOf(codec, data) == Feed(s, Text(keyboard[..CompleteReads(s, keyboard)])).out
            && forall f :: f in data ==> IsData(codec, f)
    decreases |keyboard|
  {
    hide Step, Feed, FramesOf, FrameData, IsData;
    var n := CompleteReads(s, keyboard);
    if n == 0 {
      FeedNothing(s);
      assert keyboard[..0] == [];
    } else {
      var r := Feed(s, keyboard[0]);
      var here, rest := FramesOf(codec, SID_STDIN, false, r.out, max), DataFrames(codec, r.state, keyboard[1..], max);
      DataIsMachineOutput(codec, r.state, keyboard[1..], max);
      FramesRoundTripIff(codec, SID_STDIN, false, r.out, max);
      FramesAreData(codec, r.out, max);
      DataOfAppend(codec, here, rest);
      assert keyboard[..n][0] == keyboard[0] && keyboard[..n][1..] == keyboard[1..][..n - 1];
      FeedInPieces(s, keyboard[0], Text(keyboard[1..][..n - 1]));
    }
  }

  lemma FramesAreData(codec: Codec, data: bytes, max: nat)
    requires Sound(codec) && max > 0
    ensures forall f :: f in FramesOf(codec, SID_STDIN, false, data, max) ==> IsData(codec, f)
  {
    hide FramesOf, DecodeHeader, Decompress, AtMostCeil, FrameData;
    FramesBounds(codec, SID_STDIN, false, data, max);
    EveryFrameCarries(codec, SID_STDIN, false, data, max);
    var frames := FramesOf(codec, SID_STDIN, false, data, max);
    forall f | f in frames ensures IsData(codec, f) {
      var i :| 0 <= i < |frames| && frames[i] == f;
      assert WellFormedFrame(codec, SID_STDIN, false, max, frames[i]);
    }
  }

  lemma EofFrameFacts(codec: Codec)
    ensures FrameData(codec, EofFrame()) == [] && IsStdin(EofFrame()) && IsEof(EofFrame())
  {
    hide EncodeHeader, DecodeHeader;
    HeaderRoundTrip(SID_STDIN, true, false, []);
    assert EofFrame() + [] == EofFrame();
  }

  /** The frame that ends the stream: the EOF flag and stream number 0. */
  lemma EofFrameBytes()
    ensures EofFrame() == [128, 0]
  {
    HeaderBytes(SID_STDIN, true, false);
  }

  /** Every read is complete exactly when the disconnect sequence is never typed. */
  lemma {:induction false} CompleteUnlessDisconnect(s: Escape.State, keyboard: seq<KeyRead>)
    ensures CompleteReads(s, keyboard) == |keyboard| <==> !Disconnects(s, Text(keyboard))
    decreases |keyboard|
  {
    hide Step, Feed;
    if keyboard == [] {
      FeedNothing(s);
    } else {
      FeedInPieces(s, keyboard[0], Text(keyboard[1..]));
      CompleteUnlessDisconnect(Feed(s, keyboard[0]).state, keyboard[1..]);
    }
  }

  // ---------------------------------------------------------------- end to end

  /** The first `k` of the frames sent: a prefix of the data frames, perhaps with the EOF behind it. */
  lemma SentPrefix(codec: Codec, data: seq<bytes>, upTo: nat, eof: bool, k: nat)
    requires upTo <= |data| && forall f :: f in data ==> IsData(codec, f)
    requires k <= |data[..upTo] + if eof then [EofFrame()] else []|
    ensures var sent := data[..upTo] + if eof then [EofFrame()] else []; var m := if k < upTo then k else upTo;
            && DataOf(codec, sent[..k]) == DataOf(codec, data[..m])
            && EofOnlyLast(sent[..k])
            && (k > 0 && IsEof(sent[..k][k - 1]) <==> eof && k == |sent|)
  {
    hide IsStdin, IsEof, FrameData, EncodeHeader;
    var sent := data[..upTo] + if eof then [EofFrame()] else [];
    EofFrameFacts(codec);
    forall i | 0 <= i < upTo ensures sent[i] == data[i] && !IsEof(sent[i]) { assert data[i] in data; }
    if k <= upTo {
      assert sent[..k] == data[..k];
    } else {
      assert sent[..k] == data[..upTo] + [EofFrame()];
      DataOfAppend(codec, data[..upTo], [EofFrame()]);
      assert DataOf(codec, [EofFrame()]) == FrameData(codec, EofFrame()) + DataOf(codec, []);
    }
  }

  /** Dropping a data frame loses something. */
  lemma PrefixOfData(codec: Codec, data: seq<bytes>, m: nat)
    requires m <= |data| && forall f :: f in data ==> IsData(codec, f)
    ensures DataOf(codec, data[..m]) <= DataOf(codec, data)
    ensures DataOf(codec, data[..m]) == DataOf(codec, data) <==> m == |data|
  {
    hide IsStdin, IsEof, FrameData;
    assert data == data[..m] + data[m..];
    DataOfAppend(codec, data[..m], data[m..]);
    if m < |data| {
      assert data[m] in data;
      assert DataOf(codec, data[m..]) == FrameData(codec, data[m]) + DataOf(codec, data[m..][1..]);
    } else {
      assert data[..m] == data;
    }
  }

  /** Keyboard to PTY.  The channel is in order: the stdin frames handled so far are the
      first `k` of those sent, in any interleaving with other traffic; any send may fail.
      Then the PTY has received a prefix of the escape machine's output on everything typed
      before a disconnect, never all of it once a data send failed; a session, finished or not,
      that handled the EOF has received all of it exactly when no data send failed; and without a disconnect
      or a failed send the whole of it arrives, and the EOF.  The descriptor is closed once. */
  lemma EndToEnd(codec: Codec, keyboard: seq<KeyRead>, max: nat, ok: nat -> bool, turns: seq<Turn>, k: nat)
    requires Sound(codec) && max > 0
    requires var sent := StdinSent(codec, Escape.START, keyboard, max, ok);
             k <= |sent| && StdinFrames(turns[..Serve(codec, FRESH_SESSION, turns).turns]) == sent[..k]
    ensures var r := Serve(codec, FRESH_SESSION, turns); var typed := Feed(Escape.START, Typed(keyboard)).out;
            var data := |DataFrames(codec, Escape.START, keyboard, max)|;
            var sent := |StdinSent(codec, Escape.START, keyboard, max, ok)|;
            var handled := StdinFrames(turns[..r.turns]);
            && r.session.written <= typed
            && (r.session.written == typed ==> Accepted(data, ok) == data)
            && (handled != [] && IsEof(handled[|handled| - 1]) ==>
                (r.session.written == typed <==> Accepted(data, ok) == data))
            && (k == sent && Accepted(data, ok) == data ==> r.session.written == typed)
            && (k == sent && Accepted(data + 1, ok) == data + 1 && !Disconnects(Escape.START, Text(keyboard)) ==>
                  r.session.masterClosed && r.session.written == Feed(Escape.START, Text(keyboard)).out)
            && r.session.closes == (if r.session.masterClosed then 1 else 0)
            && (r.ended ==> r.session.closes == 1)
  {
    hide Step, Feed, Serve, StdinFrames, IsStdin, IsEof, FrameData, DataFrames, CompleteReads, EncodeHeader, IsData,
      Disconnects;
    var data := DataFrames(codec, Escape.START, keyboard, max);
    var sent := StdinSent(codec, Escape.START, keyboard, max, ok);
    var upTo := Accepted(|data|, ok);
    var eof := |sent| > upTo;
    DataIsMachineOutput(codec, Escape.START, keyboard, max);
    SentPrefix(codec, data, upTo, eof, k);
    PrefixOfData(codec, data, if k < upTo then k else upTo);
    PtyReceives(codec, FRESH_SESSION, turns);
    ClosedExactlyOnce(codec, FRESH_SESSION, turns);
    assert [] + DataOf(codec, sent[..k]) == DataOf(codec, sent[..k]);
    CompleteUnlessDisconnect(Escape.START, keyboard);
    assert keyboard[..|keyboard|] == keyboard;
  }

  // ---------------------------------------------------------------- a disconnect

  /** A typed disconnect ends the stream without an EOF, unless a send had failed before it:
      then the EOF still goes out, behind truncated input. */
  lemma SentBeforeDisconnect(codec: Codec, keyboard: seq<KeyRead>, max: nat, ok: nat -> bool)
    requires Sound(codec) && max > 0 && Disconnects(Escape.START, Text(keyboard))
    ensures var sent := StdinSent(codec, Escape.START, keyboard, max, ok);
            var data := DataFrames(codec, Escape.START, keyboard, max);
            var typed := Feed(Escape.START, Typed(keyboard)).out;
            && DataOf(codec, sent) <= typed
            && (Accepted(|data|, ok) == |data| ==> DataOf(codec, sent) == typed && forall f :: f in sent ==> !IsEof(f))
            && (Accepted(|data|, ok) < |data| && ok(Accepted(|data|, ok) + 1) ==>
                  DataOf(codec, sent) != typed && IsEof(sent[|sent| - 1]))
  {
    hide Step, Feed, IsStdin, IsEof, FrameData, DataFrames, CompleteReads, EncodeHeader, Disconnects;
    var data := DataFrames(codec, Escape.START, keyboard, max);
    var sent := StdinSent(codec, Escape.START, keyboard, max, ok);
    var upTo := Accepted(|data|, ok);
    DataIsMachineOutput(codec, Escape.START, keyboard, max);
    SentPrefix(codec, data, upTo, |sent| > upTo, |sent|);
    PrefixOfData(codec, data, upTo);
    assert sent[..|sent|] == sent;
    CompleteUnlessDisconnect(Escape.START, keyboard);
  }
}
