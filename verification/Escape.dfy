/**
  The remote shell's escape-sequence machine (`EscapeHandler` in src/bin/rnsh.rs),
  which filters keyboard bytes one at a time.
 */
module Escape {
  import opened Wrappers
  import opened Bytes

  const CR: byte := 13
  const TILDE: byte := 126
  const DOT: byte := 46
  const QUESTION: byte := 63
  const UPPER_L: byte := 76
  const BACKSPACE: byte := 8
  const DELETE: byte := 127
  const ERASE: bytes := [8, 32, 8]

  datatype Action = Disconnect | Help | LineModeEnabled | LineModeDisabled

  datatype State = State(preNewline: bool, escActive: bool, lineMode: bool, lineBuffer: bytes, blindWrites: nat)

  const START: State := State(false, false, false, [], 0)

  datatype Effect = Effect(state: State, out: bytes, action: Option<Action>)

  predicate IsNewline(b: byte) { b == CR || b == LF }

  /** The control bytes that flush the line buffer. */
  predicate Flushes(b: byte) {
    b in {1, 3, 4, 5, 9, 12, 17, 19, 21, 25, 26, 27}
  }

  function Repeat(s: bytes, n: nat): bytes {
    if n == 0 then [] else Repeat(s, n - 1) + s
  }

  function EscapedByte(s: State, b: byte): Effect {
    if b == DOT then Effect(s, [], Some(Disconnect))
    else if b == QUESTION then Effect(s, [], Some(Help))
    else if b == UPPER_L then
      Effect(s.(lineMode := !s.lineMode), [], Some(if s.lineMode then LineModeDisabled else LineModeEnabled))
    else if b == TILDE then Effect(s, [TILDE], None)
    else Effect(s, [TILDE, b], None)
  }

  function LineModeByte(s: State, b: byte): Effect {
    if b == BACKSPACE || b == DELETE then
      if s.lineBuffer == [] then Effect(s, [], None)
      else Effect(s.(lineBuffer := s.lineBuffer[..|s.lineBuffer| - 1],
                     blindWrites := if s.blindWrites == 0 then 0 else s.blindWrites - 1), ERASE, None)
    else if Flushes(b) then
      Effect(s.(lineBuffer := [], blindWrites := 0), s.lineBuffer + [b] + Repeat(ERASE, s.blindWrites), None)
    else Effect(s.(lineBuffer := s.lineBuffer + [b], blindWrites := s.blindWrites + 1), [b], None)
  }

  function Step(s: State, b: byte): Effect {
    if IsNewline(b) then Effect(s.(preNewline := true, lineBuffer := [], blindWrites := 0), [b], None)
    else if s.preNewline && b == TILDE then Effect(s.(preNewline := false, escActive := true), [], None)
    else if s.escActive then EscapedByte(s.(escActive := false, preNewline := false), b)
    else if s.lineMode then LineModeByte(s.(preNewline := false), b)
    else Effect(s.(preNewline := false), [b], None)
  }

  class EscapeHandler {
    var preNewline: bool
    var escActive: bool
    var lineMode: bool
    var lineBuffer: bytes
    var blindWriteCount: nat

    ghost function Value(): State
      reads this
    {
      State(preNewline, escActive, lineMode, lineBuffer, blindWriteCount)
    }

    constructor ()
      ensures Value() == START
    {
      preNewline, escActive, lineMode, lineBuffer, blindWriteCount := false, false, false, [], 0;
    }

    /** Feeds one byte; `out'` is the caller's buffer with what this byte emits appended. */
    method ProcessByte(b: byte, out: bytes) returns (out': bytes, action: Option<Action>)
      modifies this
      ensures var e := Step(old(Value()), b);
              Value() == e.state && out' == out + e.out && action == e.action
    {
      out', action := out, None;
      if b == CR || b == LF {
        preNewline := true;
        lineBuffer, blindWriteCount := [], 0;
        return out + [b], None;
      }
      if preNewline && b == TILDE {
        preNewline, escActive := false, true;
        return;
      }
      if escActive {
        escActive, preNewline := false, false;
        if b == DOT { return out, Some(Disconnect); }
        if b == QUESTION { return out, Some(Help); }
        if b == UPPER_L {
          lineMode := !lineMode;
          return out, Some(if lineMode then LineModeEnabled else LineModeDisabled);
        }
        if b == TILDE { return out + [TILDE], None; }
        return out + [TILDE, b], None;
      }
      preNewline := false;
      if lineMode {
        if b == BACKSPACE || b == DELETE {
          if lineBuffer != [] {
            lineBuffer := lineBuffer[..|lineBuffer| - 1];
            blindWriteCount := if blindWriteCount == 0 then 0 else blindWriteCount - 1;
            out' := out + ERASE;
          }
          return;
        }
        if Flushes(b) {
          lineBuffer := lineBuffer + [b];
          out' := FlushLine(out);
          return;
        }
        lineBuffer := lineBuffer + [b];
        blindWriteCount := blindWriteCount + 1;
        return out + [b], None;
      }
      return out + [b], None;
    }

    method FlushLine(out: bytes) returns (out': bytes)
      modifies `lineBuffer, `blindWriteCount
      ensures old(lineBuffer) == [] ==> out' == out && lineBuffer == [] && blindWriteCount == old(blindWriteCount)
      ensures old(lineBuffer) != [] ==>
                out' == out + (old(lineBuffer) + Repeat(ERASE, old(blindWriteCount))) && lineBuffer == [] &&
                  blindWriteCount == 0
    {
      out' := out;
      if lineBuffer != [] {
        out' := out' + lineBuffer;
        for i := 0 to blindWriteCount
          invariant out' == out + (lineBuffer + Repeat(ERASE, i))
          invariant lineBuffer == old(lineBuffer) && blindWriteCount == old(blindWriteCount)
        {
          out' := out' + ERASE;
        }
        lineBuffer, blindWriteCount := [], 0;
      }
    }
  }

  // ---------------------------------------------------------------- whole inputs

  /** Everything one input does: it stops at a disconnect. */
  datatype Run = Run(state: State, out: bytes, actions: seq<Action>)

  function Feed(s: State, input: bytes): Run
    decreases |input|
  {
    if input == [] then Run(s, [], [])
    else
      var e := Step(s, input[0]);
      if e.action == Some(Disconnect) then Run(e.state, [], [Disconnect])
      else
        var later := Feed(e.state, input[1..]);
        Run(later.state, e.out + later.out, (if e.action.Some? then [e.action.value] else []) + later.actions)
  }

  ghost predicate Disconnects(s: State, input: bytes) {
    Disconnect in Feed(s, input).actions
  }

  /** Feeding two pieces one after the other is feeding them joined, up to a disconnect. */
  lemma {:induction false} FeedInPieces(s: State, a: bytes, b: bytes)
    ensures Disconnects(s, a) ==> Disconnects(s, a + b)
    ensures !Disconnects(s, a) ==>
              var first := Feed(s, a); var second := Feed(first.state, b);
              Feed(s, a + b) == Run(second.state, first.out + second.out, first.actions + second.actions)
    decreases |a|
  {
    hide Step, Feed;
    if a == [] {
      assert a + b == b;
      FeedNothing(s);
      RunAfterNothing(Feed(s, b));
    } else {
      var e := Step(s, a[0]);
      assert (a + b)[0] == a[0] && (a + b)[1..] == a[1..] + b;
      if e.action == Some(Disconnect) {
        FeedStops(s, a);
        FeedStops(s, a + b);
      } else {
        FeedInPieces(e.state, a[1..], b);
        FeedOne(s, a);
        FeedOne(s, a + b);
        var x := Feed(e.state, a[1..]);
        RunAssociates(e, x, Feed(x.state, b));
      }
    }
  }

  lemma FeedNothing(s: State)
    ensures Feed(s, []) == Run(s, [], [])
  {
  }

  lemma FeedStops(s: State, input: bytes)
    requires input != [] && Step(s, input[0]).action == Some(Disconnect)
    ensures Disconnects(s, input)
  {
    hide Step;
  }

  lemma RunAfterNothing(r: Run)
    ensures r == Run(r.state, [] + r.out, [] + r.actions)
  {
  }

  lemma RunAssociates(e: Effect, x: Run, y: Run)
    ensures var here := if e.action.Some? then [e.action.value] else [];
            Run(y.state, e.out + (x.out + y.out), here + (x.actions + y.actions))
            == Run(y.state, e.out + x.out + y.out, here + x.actions + y.actions)
  {
    var here := if e.action.Some? then [e.action.value] else [];
    assert e.out + (x.out + y.out) == e.out + x.out + y.out;
    assert here + (x.actions + y.actions) == here + x.actions + y.actions;
  }

  lemma FeedOne(s: State, input: bytes)
    requires input != [] && Step(s, input[0]).action != Some(Disconnect)
    ensures var e := Step(s, input[0]); var later := Feed(e.state, input[1..]);
            Feed(s, input) == Run(later.state, e.out + later.out,
              (if e.action.Some? then [e.action.value] else []) + later.actions)
    ensures Disconnects(s, input) <==> Disconnects(Step(s, input[0]).state, input[1..])
  {
    hide Step;
  }

  // ---------------------------------------------------------------- reachable states

  /** Every unflushed byte was echoed exactly once, and nothing is held back outside a line being typed. */
  ghost predicate Consistent(s: State) {
    && s.blindWrites == |s.lineBuffer|
    && (!s.lineMode || s.preNewline || s.escActive ==> s.lineBuffer == [])
  }

  lemma {:induction false} ReachableIsConsistent(s: State, input: bytes)
    requires Consistent(s)
    ensures Consistent(Feed(s, input).state)
    decreases |input|
  {
    if input != [] {
      StepKeepsConsistent(s, input[0]);
      if Step(s, input[0]).action != Some(Disconnect) {
        ReachableIsConsistent(Step(s, input[0]).state, input[1..]);
      }
    }
  }

  lemma StepKeepsConsistent(s: State, b: byte)
    requires Consistent(s)
    ensures Consistent(Step(s, b).state)
  {
  }

  // ---------------------------------------------------------------- line mode

  /** A line as its editing leaves it: backspace and delete take back the last byte. */
  function Edited(line: bytes, input: bytes): bytes
    decreases |input|
  {
    if input == [] then line
    else if input[0] == BACKSPACE || input[0] == DELETE then
      Edited(if line == [] then [] else line[..|line| - 1], input[1..])
    else Edited(line + [input[0]], input[1..])
  }

  /** What a terminal showing `line` shows after `out`: the erase sequence takes back one byte. */
  function Shown(line: bytes, out: bytes): bytes
    decreases |out|
  {
    if out == [] then line
    else if ERASE <= out then Shown(if line == [] then [] else line[..|line| - 1], out[3..])
    else Shown(line + [out[0]], out[1..])
  }

  function TypingState(line: bytes): State { State(false, false, true, line, |line|) }

  lemma TypeOne(line: bytes, b: byte)
    requires !IsNewline(b) && !Flushes(b)
    ensures Step(TypingState(line), b) ==
            if b == BACKSPACE || b == DELETE then
              (if line == [] then Effect(TypingState([]), [], None)
                else Effect(TypingState(line[..|line| - 1]), ERASE, None))
            else Effect(TypingState(line + [b]), [b], None)
  {
  }

  /** While a line is typed in line mode, the far terminal shows the line being edited, and so does the buffer. */
  lemma {:induction false} TypedLineIsShown(line: bytes, input: bytes)
    requires forall i :: 0 <= i < |input| ==> !IsNewline(input[i]) && !Flushes(input[i])
    ensures var r := Feed(TypingState(line), input);
            r.state == TypingState(Edited(line, input)) && Shown(line, r.out) == Edited(line, input) && r.actions == []
    decreases |input|
  {
    if input == [] {
      FeedNothing(TypingState(line));
    } else {
      hide Step, Flushes, Feed;
      var b, rest := input[0], input[1..];
      var s := TypingState(line);
      var e := Step(s, b);
      var line1 :=
        if b == BACKSPACE || b == DELETE then (if line == [] then [] else line[..|line| - 1])
        else line + [b];
      TypeOne(line, b);
      FeedOne(s, input);
      TypedLineIsShown(line1, rest);
      var later := Feed(e.state, rest).out;
      if b == BACKSPACE || b == DELETE {
        if line != [] { assert (ERASE + later)[3..] == later; } else { assert [] + later == later; }
      } else {
        assert ([b] + later)[1..] == later && ([b] + later)[0] == b;
      }
    }
  }

  // ---------------------------------------------------------------- typing any byte string

  /** Doubles each '~' that follows a newline. */
  function DoubleTildes(input: bytes, afterNewline: bool): bytes {
    if input == [] then []
    else
      var here := if afterNewline && input[0] == TILDE then [TILDE, TILDE] else [input[0]];
      here + DoubleTildes(input[1..], IsNewline(input[0]))
  }

  function Plain(afterNewline: bool): State { START.(preNewline := afterNewline) }

  lemma {:induction false} DoubledFromPlain(input: bytes, afterNewline: bool)
    ensures exists nl :: Feed(Plain(afterNewline), DoubleTildes(input, afterNewline)) == Run(Plain(nl), input, [])
    decreases |input|
  {
    if input == [] {
      assert Feed(Plain(afterNewline), []) == Run(Plain(afterNewline), input, []);
    } else {
      var b := input[0];
      var head := if afterNewline && b == TILDE then [TILDE, TILDE] else [b];
      var tail := DoubleTildes(input[1..], IsNewline(b));
      DoubledFromPlain(input[1..], IsNewline(b));
      var nl :| Feed(Plain(IsNewline(b)), tail) == Run(Plain(nl), input[1..], []);
      HeadThrough(b, afterNewline, head);
      FeedInPieces(Plain(afterNewline), head, tail);
      assert [b] + input[1..] == input;
    }
  }

  lemma HeadThrough(b: byte, afterNewline: bool, head: bytes)
    requires head == if afterNewline && b == TILDE then [TILDE, TILDE] else [b]
    ensures Feed(Plain(afterNewline), head) == Run(Plain(IsNewline(b)), [b], [])
  {
    var e := Step(Plain(afterNewline), head[0]);
    assert Feed(e.state, []) == Run(e.state, [], []);
    if |head| == 1 {
      assert head[1..] == [];
    } else {
      var e2 := Step(e.state, TILDE);
      assert head[1..] == [TILDE] && head[1..][1..] == [];
      assert Feed(e.state, [TILDE]) == Run(e2.state, [TILDE], []);
    }
  }

  /** Any byte string can be typed: with its line-initial tildes doubled it comes out
      unchanged, and triggers nothing. */
  lemma DoublingRoundTrip(input: bytes)
    ensures Feed(START, DoubleTildes(input, false)).out == input
    ensures Feed(START, DoubleTildes(input, false)).actions == []
  {
    DoubledFromPlain(input, false);
  }

  // ---------------------------------------------------------------- when raw input passes through

  /** No line-initial '~' meets a byte the machine treats specially. */
  predicate Harmless(input: bytes, afterNewline: bool)
    decreases |input|
  {
    if input == [] then true
    else if afterNewline && input[0] == TILDE then
      |input| > 1 && !IsNewline(input[1]) && input[1] !in {DOT, QUESTION, UPPER_L, TILDE} && Harmless(input[2..], false)
    else Harmless(input[1..], IsNewline(input[0]))
  }

  /** Without line mode the machine never emits more than it was fed, plus a held tilde. */
  lemma {:induction false} OutputBound(s: State, input: bytes)
    requires !s.lineMode && Feed(s, input).actions == []
    ensures |Feed(s, input).out| <= |input| + if s.escActive then 1 else 0
    decreases |input|
  {
    if input != [] {
      OutputBound(Step(s, input[0]).state, input[1..]);
    }
  }

  /** Raw keyboard input passes through untouched exactly when it is harmless. */
  lemma {:induction false} PassThroughIff(input: bytes, afterNewline: bool)
    ensures Feed(Plain(afterNewline), input).out == input && Feed(Plain(afterNewline), input).actions == []
            <==> Harmless(input, afterNewline)
    decreases |input|
  {
    if input != [] {
      var s := Plain(afterNewline);
      var e := Step(s, input[0]);
      assert input == [input[0]] + input[1..];
      if !(afterNewline && input[0] == TILDE) {
        PassThroughIff(input[1..], IsNewline(input[0]));
        FeedOne(s, input);
        assert e == Effect(Plain(IsNewline(input[0])), [input[0]], None);
        ConsEqual(input[0], Feed(e.state, input[1..]).out, input[1..]);
      } else {
        FeedOne(s, input);
        assert Feed(s, input).out == Feed(e.state, input[1..]).out;
        HeldTilde(input);
      }
    }
  }

  lemma ConsEqual(b: byte, x: bytes, y: bytes)
    ensures [b] + x == [b] + y <==> x == y
  {
    assert ([b] + x)[1..] == x && ([b] + y)[1..] == y;
  }

  lemma HeldTilde(input: bytes)
    requires input != [] && input[0] == TILDE
    ensures var r := Feed(START.(escActive := true), input[1..]);
            r.out == input && r.actions == [] <==> Harmless(input, true)
    decreases |input|, 0
  {
    var s := START.(escActive := true);
    if |input| > 1 {
      var c, rest := input[1], input[2..];
      var e := Step(s, c);
      assert input[1..][0] == c && input[1..][1..] == rest;
      assert input == [TILDE, c] + rest;
      if e.action.None? {
        FeedOne(s, input[1..]);
        var later := Feed(e.state, rest);
        assert Feed(s, input[1..]).out == e.out + later.out && Feed(s, input[1..]).actions == later.actions;
        if later.actions == [] { OutputBound(e.state, rest); }
        if IsNewline(c) {
          assert (e.out + later.out)[0] == c;
        } else if c != TILDE {
          assert e == Effect(Plain(false), [TILDE, c], None);
          PassThroughIff(rest, false);
          assert [TILDE, c] + later.out == [TILDE, c] + rest <==> later.out == rest by {
            assert ([TILDE, c] + later.out)[2..] == later.out && ([TILDE, c] + rest)[2..] == rest;
          }
        }
      }
    }
  }

  // ---------------------------------------------------------------- what each sequence does

  /** The byte a character is typed as. */
  function Key(c: char): byte { c as int % 256 }

  /** After a newline, '~' and one more key: "~." disconnects, "~?" helps, "~L" toggles line mode,
      "~~" types one tilde, a newline leaves the escape pending, and anything else comes out
      behind the held tilde. */
  lemma EscapeSequences(s: State, c: byte)
    requires s.preNewline && !s.escActive
    ensures var r, plain := Feed(s, [Key('~'), c]), s.(preNewline := false);
            if c == Key('.') then r.out == [] && r.actions == [Disconnect]
            else if c == Key('?') then r == Run(plain, [], [Help])
            else if c == Key('L') then
              r == Run(plain.(lineMode := !s.lineMode), [], [if s.lineMode then LineModeDisabled else LineModeEnabled])
            else if c == Key('~') then r == Run(plain, [Key('~')], [])
            else if c == Key('\n') || c == Key('\r') then
              r == Run(s.(escActive := true, lineBuffer := [], blindWrites := 0), [c], [])
            else r == Run(plain, [Key('~'), c], [])
  {
    var e := Step(s, TILDE);
    var e2 := Step(e.state, c);
    assert [Key('~'), c][1..] == [c] && [c][1..] == [];
    assert Feed(e2.state, []) == Run(e2.state, [], []);
    assert [TILDE, c] == [TILDE] + [c];
  }

  /** The actions a whole input asks for, read off its bytes: after a newline a tilde is held
      until the next byte that is neither a newline nor a tilde behind one. */
  function Asked(input: bytes, afterNewline: bool, held: bool, lineMode: bool): seq<Action> {
    if input == [] then []
    else
      var c, rest := input[0], input[1..];
      if c == Key('\n') || c == Key('\r') then Asked(rest, true, held, lineMode)
      else if c == Key('~') && afterNewline then Asked(rest, false, true, lineMode)
      else if held && c == Key('.') then [Disconnect]
      else if held && c == Key('?') then [Help] + Asked(rest, false, false, lineMode)
      else if held && c == Key('L') then
        [if lineMode then LineModeDisabled else LineModeEnabled] + Asked(rest, false, false, !lineMode)
      else Asked(rest, false, false, lineMode)
  }

  /** One byte's action, and the three flags it leaves. */
  lemma StepAsks(s: State, c: byte)
    ensures var e, newline := Step(s, c), c == Key('\n') || c == Key('\r');
            var begins := !newline && c == Key('~') && s.preNewline;
            var ends := !newline && !begins && s.escActive;
            && e.state.preNewline == newline && e.state.escActive == (begins || (newline && s.escActive))
            && e.state.lineMode == (if ends && c == Key('L') then !s.lineMode else s.lineMode)
            && e.action ==
               if !ends then None
               else if c == Key('.') then Some(Disconnect)
               else if c == Key('?') then Some(Help)
               else if c == Key('L') then Some(if s.lineMode then LineModeDisabled else LineModeEnabled)
               else None
  {
  }

  /** The machine takes exactly the actions the bytes ask for, in line mode and out of it. */
  lemma {:induction false} ActionsAreAsked(s: State, input: bytes)
    ensures Feed(s, input).actions == Asked(input, s.preNewline, s.escActive, s.lineMode)
    decreases |input|
  {
    hide Step, Feed;
    if input == [] {
      FeedNothing(s);
    } else {
      var e, c := Step(s, input[0]), input[0];
      StepAsks(s, c);
      if e.action == Some(Disconnect) {
        FeedOnce(s, input);
      } else {
        FeedOne(s, input);
        ActionsAreAsked(e.state, input[1..]);
        assert e.action.None? ==> [] + Feed(e.state, input[1..]).actions == Feed(e.state, input[1..]).actions;
      }
    }
  }

  lemma FeedOnce(s: State, input: bytes)
    requires input != [] && Step(s, input[0]).action == Some(Disconnect)
    ensures Feed(s, input).actions == [Disconnect]
  {
    hide Step;
  }

  /** A dot is typed behind a held tilde. */
  predicate TypesDot(input: bytes, afterNewline: bool, held: bool) {
    input != [] &&
    var c, rest := input[0], input[1..];
    if c == Key('\n') || c == Key('\r') then TypesDot(rest, true, held)
    else if c == Key('~') && afterNewline then TypesDot(rest, false, true)
    else (held && c == Key('.')) || TypesDot(rest, false, false)
  }

  /** The session is disconnected exactly when the bytes hold an unescaped line-initial tilde
      followed by a dot. */
  lemma {:induction false} DisconnectIff(s: State, input: bytes)
    ensures Disconnects(s, input) <==> TypesDot(input, s.preNewline, s.escActive)
    decreases |input|
  {
    hide Step, Feed, Disconnects;
    if input == [] {
      NothingDisconnects(s);
    } else {
      var e := Step(s, input[0]);
      StepAsks(s, input[0]);
      if e.action == Some(Disconnect) {
        FeedStops(s, input);
      } else {
        FeedOne(s, input);
        DisconnectIff(e.state, input[1..]);
      }
    }
  }

  lemma NothingDisconnects(s: State)
    ensures !Disconnects(s, [])
  {
  }

  // ---------------------------------------------------------------- the keys of line mode

  /** The keys that flush the line: control A, C, D, E, I, L, Q, S, U, Y, Z and escape. */
  lemma FlushKeys(b: byte)
    ensures Flushes(b) <==> b < 32 && ((b + 64) as char) in "ACDEILQSUYZ["
  {
  }

  /** Control H and delete take back the last byte typed, on both sides. */
  lemma EraseKeys(line: bytes, x: byte, b: byte)
    requires b == Key('H') - 64 || b == 127
    ensures Step(TypingState(line + [x]), b) ==
            Effect(TypingState(line), [Key('H') - 64, Key(' '), Key('H') - 64], None)
    ensures Step(TypingState([]), b) == Effect(TypingState([]), [], None)
  {
    assert (line + [x])[..|line|] == line;
  }

  /** A typed line that ends in a flushing key: the edited line goes out again with the key
      behind it, then one erase for every byte of it, and the line is empty. */
  lemma LineIsFlushed(input: bytes, b: byte)
    requires (forall i :: 0 <= i < |input| ==> !IsNewline(input[i]) && !Flushes(input[i])) && Flushes(b)
    ensures var line := Edited([], input);
            Feed(TypingState([]), input + [b]) ==
            Run(TypingState([]), Feed(TypingState([]), input).out + (line + [b] + Repeat(ERASE, |line|)), [])
  {
    hide Feed;
    var line := Edited([], input);
    TypedLineIsShown([], input);
    FeedInPieces(TypingState([]), input, [b]);
    assert !Disconnects(TypingState([]), input);
    FeedOne(TypingState(line), [b]);
    FeedNothing(TypingState([]));
    assert [b][1..] == [] && Step(TypingState(line), b).state == TypingState([]);
    var out := line + [b] + Repeat(ERASE, |line|);
    assert out + [] == out;
  }

  /** A newline ends the line on both sides: it goes out alone and the line is forgotten. */
  lemma NewlineEndsTheLine(line: bytes, b: byte)
    requires b == Key('\n') || b == Key('\r')
    ensures Step(TypingState(line), b) == Effect(TypingState([]).(preNewline := true), [b], None)
  {
  }
}
