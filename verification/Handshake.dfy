/**
  The listener's handshake (`do_version_handshake` and its gates in src/bin/rnsh.rs):
  which event sequences let a remote command run.
 */
module Handshake {
  import opened Wrappers
  import opened Bytes
  import opened Text

  const PROTOCOL_VERSION: nat := 1

  type LinkId = bytes

  datatype Command = Command(argv: seq<string>, term: Option<string>, rows: nat, cols: nat)

  /** How an identity's hex is read (the transport library's business); text may be unreadable. */
  type Parser = string -> Option<Identity>

  /** The listener's arguments and the `allowed_identities` files, each readable as lines or not. */
  datatype Settings = Settings(noAuth: bool, entries: seq<string>, files: seq<Option<seq<string>>>)

  /** The settings once resolved. */
  datatype Config = Config(noAuth: bool, allowed: set<Identity>)

  /** What one link reports.  An undecodable payload is `None`; `replied` says whether
      the listener's reply or error message could be sent. */
  datatype LinkEvent =
    | Identified(id: Identity, replied: bool)
    | Version(protocol: Option<nat>, replied: bool)
    | Exec(command: Option<Command>)
    | RemoteError
    | Closed
    | OtherMessage

  /** What one turn of the loop receives. */
  datatype Incoming =
    | On(link: LinkId, event: LinkEvent)
    | ChannelGone
    | Quiet

  datatype Refusal =
    | NotAllowed | Incompatible | SendFailed | Undecodable | Remote | LinkClosed | NoChannel
    | VersionTimeout | ExecTimeout | Unidentified

  predicate CheckAllowed(id: Identity, allowed: set<Identity>) { id in allowed }

  predicate AuthRequired(cfg: Config) { !cfg.noAuth && cfg.allowed != {} }

  predicate HandshakeComplete(gotVer: bool, gotExec: bool, authed: bool) { gotVer && gotExec && authed }

  /** The protocol number is read as a u8. */
  function AsU8(n: nat): nat { n % 256 }

  // ---------------------------------------------------------------- the allow list

  /** The identities of those texts that can be read; the rest are dropped in silence. */
  function Readable(texts: seq<string>, parse: Parser): set<Identity> {
    set t | t in texts && parse(t).Some? :: parse(t).value
  }

  /** A file's line counts when, trimmed, it has the length of a hash. */
  function LineIdentity(line: string, parse: Parser): Option<Identity> {
    var t := Trim(line);
    if |t| == HASH_TEXT then parse(t) else None
  }

  function FileLines(files: seq<Option<seq<string>>>): seq<string> {
    if files == [] then []
    else FileLines(files[..|files| - 1]) + (if files[|files| - 1].Some? then files[|files| - 1].value else [])
  }

  function IdentitiesIn(lines: seq<string>, parse: Parser): seq<Identity> {
    if lines == [] then []
    else
      var id := LineIdentity(lines[|lines| - 1], parse);
      IdentitiesIn(lines[..|lines| - 1], parse) + if id.Some? then [id.value] else []
  }

  method LoadAllowed(files: seq<Option<seq<string>>>, parse: Parser) returns (out: seq<Identity>)
    ensures out == IdentitiesIn(FileLines(files), parse)
  {
    hide Trim;
    out := [];
    ghost var seen: seq<string> := [];
    for i := 0 to |files|
      invariant seen == FileLines(files[..i]) && out == IdentitiesIn(seen, parse)
    {
      assert files[..i + 1][..i] == files[..i];
      if files[i].Some? {
        var lines := files[i].value;
        ghost var before := seen;
        for j := 0 to |lines|
          invariant seen == before + lines[..j] && out == IdentitiesIn(seen, parse)
        {
          assert before + lines[..j + 1] == seen + [lines[j]];
          assert (seen + [lines[j]])[..|seen|] == seen;
          seen := seen + [lines[j]];
          var t := Trim(lines[j]);
          if |t| == HASH_TEXT {
            var h := parse(t);
            if h.Some? { out := out + [h.value]; }
          }
        }
        assert before + lines[..|lines|] == before + lines;
      } else {
        assert seen + [] == seen;
      }
    }
    assert files[..|files|] == files;
  }

  /** `-a` entries plus the files' identities. */
  function AllowedSet(settings: Settings, parse: Parser): set<Identity> {
    Readable(settings.entries, parse) + set id | id in IdentitiesIn(FileLines(settings.files), parse)
  }

  function Resolve(settings: Settings, parse: Parser): Config {
    Config(settings.noAuth, AllowedSet(settings, parse))
  }

  // ---------------------------------------------------------------- the loop as a state machine

  datatype Progress = Progress(gotVer: bool, gotExec: bool, authed: bool, command: Command)

  const NO_COMMAND: Command := Command([], None, 24, 80)

  function Begin(cfg: Config): Progress { Progress(false, false, !AuthRequired(cfg), NO_COMMAND) }

  predicate Complete(p: Progress) { HandshakeComplete(p.gotVer, p.gotExec, p.authed) }

  function OnEvent(cfg: Config, p: Progress, e: LinkEvent): Result<Progress, Refusal> {
    match e
    case Identified(id, replied) =>
      if !AuthRequired(cfg) || CheckAllowed(id, cfg.allowed) then Ok(p.(authed := true))
      else Err(if replied then NotAllowed else SendFailed)
    case Version(protocol, replied) =>
      if protocol.None? then Err(Undecodable)
      else if !replied then Err(SendFailed)
      else if AsU8(protocol.value) != PROTOCOL_VERSION then Err(Incompatible)
      else Ok(p.(gotVer := true))
    case Exec(command) => if command.None? then Err(Undecodable) else Ok(p.(gotExec := true, command := command.value))
    case RemoteError => Err(Remote)
    case Closed => Err(LinkClosed)
    case OtherMessage => Ok(p)
  }

  function Receive(cfg: Config, link: LinkId, p: Progress, i: Incoming): Result<Progress, Refusal> {
    match i
    case On(l, e) => if l == link then OnEvent(cfg, p, e) else Ok(p)
    case ChannelGone => Err(NoChannel)
    case Quiet => Ok(p)
  }

  /** The deadline passes when `incoming` is used up. */
  function Deadline(p: Progress): Result<Command, Refusal> {
    if !p.gotVer then Err(VersionTimeout)
    else if !p.gotExec then Err(ExecTimeout)
    else if !p.authed then Err(Unidentified)
    else Ok(p.command)
  }

  function Outcome(cfg: Config, link: LinkId, p: Progress, incoming: seq<Incoming>): Result<Command, Refusal>
    decreases |incoming|
  {
    if incoming == [] then Deadline(p)
    else match Receive(cfg, link, p, incoming[0])
      case Err(r) => Err(r)
      case Ok(q) => if Complete(q) then Ok(q.command) else Outcome(cfg, link, q, incoming[1..])
  }

  function HandshakeOutcome(settings: Settings, parse: Parser, link: LinkId,
                            incoming: seq<Incoming>): Result<Command, Refusal> {
    var cfg := Resolve(settings, parse);
    Outcome(cfg, link, Begin(cfg), incoming)
  }

  method DoVersionHandshake(settings: Settings, parse: Parser, link: LinkId,
                            incoming: seq<Incoming>) returns (r: Result<Command, Refusal>)
    ensures r == HandshakeOutcome(settings, parse, link, incoming)
  {
    hide IdentitiesIn, FileLines, Readable;
    var fromFiles := LoadAllowed(settings.files, parse);
    var cfg := Config(settings.noAuth, Readable(settings.entries, parse) + set id | id in fromFiles);
    var command := NO_COMMAND;
    var gotVer, gotExec := false, false;
    var requireAuth := AuthRequired(cfg);
    var authed := !requireAuth;
    var n := 0;
    while n < |incoming|
      invariant 0 <= n <= |incoming|
      invariant Outcome(cfg, link, Begin(cfg), incoming) ==
                Outcome(cfg, link, Progress(gotVer, gotExec, authed, command), incoming[n..])
    {
      var i := incoming[n];
      assert incoming[n..][0] == i && incoming[n..][1..] == incoming[n + 1..];
      if i.ChannelGone? { return Err(NoChannel); }
      if i.On? && i.link == link {
        match i.event {
          case Identified(id, replied) =>
            if !requireAuth {
              authed := true;
            } else if CheckAllowed(id, cfg.allowed) {
              authed := true;
            } else {
              if !replied { return Err(SendFailed); }
              return Err(NotAllowed);
            }
          case Version(protocol, replied) =>
            if protocol.None? { return Err(Undecodable); }
            if protocol.value % 256 != PROTOCOL_VERSION {
              if !replied { return Err(SendFailed); }
              return Err(Incompatible);
            }
            if !replied { return Err(SendFailed); }
            gotVer := true;
          case Exec(c) =>
            if c.None? { return Err(Undecodable); }
            command, gotExec := c.value, true;
          case RemoteError => return Err(Remote);
          case Closed => return Err(LinkClosed);
          case OtherMessage =>
        }
      }
      n := n + 1;
      if HandshakeComplete(gotVer, gotExec, authed) { return Ok(command); }
    }
    if !gotVer { return Err(VersionTimeout); }
    if !gotExec { return Err(ExecTimeout); }
    if !authed { return Err(Unidentified); }
    return Ok(command);
  }

  // ---------------------------------------------------------------- what the events must contain

  predicate SupportedVersion(link: LinkId, i: Incoming) {
    i.On? && i.link == link && i.event.Version? && i.event.protocol.Some? &&
      AsU8(i.event.protocol.value) == PROTOCOL_VERSION
  }

  predicate ExecRequest(link: LinkId, i: Incoming) {
    i.On? && i.link == link && i.event.Exec? && i.event.command.Some?
  }

  predicate AllowedIdentity(cfg: Config, link: LinkId, i: Incoming) {
    i.On? && i.link == link && i.event.Identified? && (AuthRequired(cfg) ==> i.event.id in cfg.allowed)
  }

  /** An event that ends the handshake with a refusal. */
  predicate Fatal(cfg: Config, link: LinkId, i: Incoming) {
    i.ChannelGone? ||
    (i.On? && i.link == link &&
     match i.event
     case Identified(id, _) => AuthRequired(cfg) && id !in cfg.allowed
     case Version(protocol, replied) => protocol.None? || AsU8(protocol.value) != PROTOCOL_VERSION || !replied
     case Exec(command) => command.None?
     case RemoteError => true
     case Closed => true
     case OtherMessage => false)
  }

  ghost predicate Unharmed(cfg: Config, link: LinkId, incoming: seq<Incoming>) {
    forall k :: 0 <= k < |incoming| ==> !Fatal(cfg, link, incoming[k])
  }

  ghost predicate Has(p: Incoming -> bool, incoming: seq<Incoming>) {
    exists k :: 0 <= k < |incoming| && p(incoming[k])
  }

  /** A version, a command and, when an allow list is in force, a listed identity. */
  ghost predicate Ready(cfg: Config, link: LinkId, incoming: seq<Incoming>) {
    && Has(i => SupportedVersion(link, i), incoming)
    && Has(i => ExecRequest(link, i), incoming)
    && (AuthRequired(cfg) ==> Has(i => AllowedIdentity(cfg, link, i), incoming))
  }

  function LastCommand(link: LinkId, incoming: seq<Incoming>): Command {
    if incoming == [] then NO_COMMAND
    else
      var i := incoming[|incoming| - 1];
      if ExecRequest(link, i) then i.event.command.value else LastCommand(link, incoming[..|incoming| - 1])
  }

  /** `n` is the first point at which everything needed has arrived, with nothing fatal up to there. */
  ghost predicate CompletesAt(cfg: Config, link: LinkId, incoming: seq<Incoming>, n: nat) {
    && n <= |incoming|
    && Ready(cfg, link, incoming[..n]) && Unharmed(cfg, link, incoming[..n])
    && forall m :: 0 <= m < n ==> !Ready(cfg, link, incoming[..m])
  }

  /** The flags record exactly what the prefix handled so far contains. */
  ghost predicate Records(cfg: Config, link: LinkId, p: Progress, seen: seq<Incoming>) {
    && (p.gotVer <==> Has(i => SupportedVersion(link, i), seen))
    && (p.gotExec <==> Has(i => ExecRequest(link, i), seen))
    && (p.authed <==> !AuthRequired(cfg) || Has(i => AllowedIdentity(cfg, link, i), seen))
    && p.command == LastCommand(link, seen)
  }

  lemma HasSnoc(p: Incoming -> bool, seen: seq<Incoming>, i: Incoming)
    ensures Has(p, seen + [i]) <==> Has(p, seen) || p(i)
  {
    var all := seen + [i];
    if Has(p, seen) {
      var k :| 0 <= k < |seen| && p(seen[k]);
      assert p(all[k]);
    }
    if p(i) { assert p(all[|seen|]); }
    if Has(p, all) {
      var k :| 0 <= k < |all| && p(all[k]);
      if k < |seen| { assert p(seen[k]); }
    }
  }

  lemma ReceiveRecords(cfg: Config, link: LinkId, p: Progress, seen: seq<Incoming>, i: Incoming)
    requires Records(cfg, link, p, seen)
    ensures Receive(cfg, link, p, i).Err? <==> Fatal(cfg, link, i)
    ensures Receive(cfg, link, p, i).Ok? ==> Records(cfg, link, Receive(cfg, link, p, i).value, seen + [i])
  {
    hide Has, Receive;
    ReceiveMoves(cfg, link, p, i);
    HasSnoc(i => SupportedVersion(link, i), seen, i);
    HasSnoc(i => ExecRequest(link, i), seen, i);
    HasSnoc(i => AllowedIdentity(cfg, link, i), seen, i);
    assert (seen + [i])[..|seen|] == seen;
  }

  /** What one turn adds to the flags. */
  lemma ReceiveMoves(cfg: Config, link: LinkId, p: Progress, i: Incoming)
    ensures Receive(cfg, link, p, i).Err? <==> Fatal(cfg, link, i)
    ensures Receive(cfg, link, p, i).Ok? ==>
              var q := Receive(cfg, link, p, i).value;
              && (q.gotVer <==> p.gotVer || SupportedVersion(link, i))
              && (q.gotExec <==> p.gotExec || ExecRequest(link, i))
              && (q.authed <==> p.authed || AllowedIdentity(cfg, link, i))
              && q.command == if ExecRequest(link, i) then i.event.command.value else p.command
  {
  }

  lemma CompleteIsReady(cfg: Config, link: LinkId, p: Progress, seen: seq<Incoming>)
    requires Records(cfg, link, p, seen)
    ensures Complete(p) <==> Ready(cfg, link, seen)
  {
    hide Has;
  }

  lemma {:induction false} SuccessFrom(cfg: Config, link: LinkId, p: Progress, incoming: seq<Incoming>, n: nat,
                                       c: Command)
    requires n <= |incoming| && Records(cfg, link, p, incoming[..n]) && Unharmed(cfg, link, incoming[..n])
    requires forall m :: 0 <= m <= n ==> !Ready(cfg, link, incoming[..m])
    ensures Outcome(cfg, link, p, incoming[n..]) == Ok(c) <==>
            exists k: nat :: CompletesAt(cfg, link, incoming, k) && c == LastCommand(link, incoming[..k])
    decreases |incoming| - n
  {
    hide Records, Ready, Receive, Fatal, LastCommand;
    if n == |incoming| {
      CompleteIsReady(cfg, link, p, incoming[..n]);
      assert incoming[n..] == [];
      assert forall k :: 0 <= k <= |incoming| ==> !Ready(cfg, link, incoming[..k]);
    } else {
      var i, rest := incoming[n], incoming[n..];
      assert rest[0] == i && rest[1..] == incoming[n + 1..];
      assert incoming[..n] + [i] == incoming[..n + 1];
      ReceiveRecords(cfg, link, p, incoming[..n], i);
      match Receive(cfg, link, p, i)
      case Err(_) =>
        FatalEndsIt(cfg, link, incoming, n);
      case Ok(q) =>
        assert Unharmed(cfg, link, incoming[..n + 1]);
        CompleteIsReady(cfg, link, q, incoming[..n + 1]);
        if Complete(q) {
          FirstReady(cfg, link, incoming, n + 1);
          CommandOf(cfg, link, q, incoming[..n + 1]);
        } else {
          SuccessFrom(cfg, link, q, incoming, n + 1, c);
        }
    }
  }

  lemma FatalEndsIt(cfg: Config, link: LinkId, incoming: seq<Incoming>, n: nat)
    requires n < |incoming| && Fatal(cfg, link, incoming[n])
    requires forall m :: 0 <= m <= n ==> !Ready(cfg, link, incoming[..m])
    ensures forall k: nat :: !CompletesAt(cfg, link, incoming, k)
  {
    hide Ready, Fatal;
    forall k: nat ensures !CompletesAt(cfg, link, incoming, k) {
      if n < k <= |incoming| {
        assert incoming[..k][n] == incoming[n];
      } else if k <= n {
        assert !Ready(cfg, link, incoming[..k]);
      }
    }
  }

  lemma CommandOf(cfg: Config, link: LinkId, p: Progress, seen: seq<Incoming>)
    requires Records(cfg, link, p, seen)
    ensures p.command == LastCommand(link, seen)
  {
  }

  lemma FirstReady(cfg: Config, link: LinkId, incoming: seq<Incoming>, n: nat)
    requires n <= |incoming| && Ready(cfg, link, incoming[..n]) && Unharmed(cfg, link, incoming[..n])
    requires forall m :: 0 <= m < n ==> !Ready(cfg, link, incoming[..m])
    ensures CompletesAt(cfg, link, incoming, n)
    ensures forall k: nat :: CompletesAt(cfg, link, incoming, k) ==> k == n
  {
    hide Ready, Unharmed;
    forall k: nat ensures CompletesAt(cfg, link, incoming, k) ==> k == n {
      var ready := k <= |incoming| && Ready(cfg, link, incoming[..k]);
      if k < n { assert !ready; }
    }
  }

  /** A handshake runs command `c` exactly when its events, before anything fatal, come to
      hold a supported version, a command and (under an allow list) a listed identity, all
      on this link; `c` is then the last command sent up to that point. */
  lemma SuccessIff(cfg: Config, link: LinkId, incoming: seq<Incoming>, c: Command)
    ensures Outcome(cfg, link, Begin(cfg), incoming) == Ok(c) <==>
            exists n: nat :: CompletesAt(cfg, link, incoming, n) && c == LastCommand(link, incoming[..n])
  {
    assert incoming[..0] == [] && incoming[0..] == incoming;
    assert Records(cfg, link, Begin(cfg), []);
    SuccessFrom(cfg, link, Begin(cfg), incoming, 0, c);
  }

  // ---------------------------------------------------------------- why a handshake fails

  /** What each fatal event refuses the handshake for. */
  predicate RefusedFor(cfg: Config, link: LinkId, i: Incoming, r: Refusal) {
    if i.ChannelGone? then r == NoChannel
    else
      && i.On? && i.link == link
      && var e := i.event;
         || (e.Identified? && AuthRequired(cfg) && e.id !in cfg.allowed &&
             r == if e.replied then NotAllowed else SendFailed)
         || (e.Version? && e.protocol.None? && r == Undecodable)
         || (e.Version? && e.protocol.Some? && !e.replied && r == SendFailed)
         || (e.Version? && e.protocol.Some? && e.replied && e.protocol.value % 256 != 1 && r == Incompatible)
         || (e.Exec? && e.command.None? && r == Undecodable)
         || (e.RemoteError? && r == Remote)
         || (e.Closed? && r == LinkClosed)
  }

  /** What is missing when the deadline passes, the version first. */
  ghost function Missing(link: LinkId, incoming: seq<Incoming>): Refusal {
    if !Has(i => SupportedVersion(link, i), incoming) then VersionTimeout
    else if !Has(i => ExecRequest(link, i), incoming) then ExecTimeout
    else Unidentified
  }

  /** The `k`-th event is the first fatal one, and comes before the handshake is complete. */
  ghost predicate StopsAt(cfg: Config, link: LinkId, incoming: seq<Incoming>, k: nat) {
    && k < |incoming| && Fatal(cfg, link, incoming[k]) && Unharmed(cfg, link, incoming[..k])
    && forall m :: 0 <= m <= k ==> !Ready(cfg, link, incoming[..m])
  }

  lemma FatalReason(cfg: Config, link: LinkId, p: Progress, i: Incoming, r: Refusal)
    ensures Receive(cfg, link, p, i) == Err(r) <==> RefusedFor(cfg, link, i, r)
  {
  }

  lemma DeadlineReason(cfg: Config, link: LinkId, p: Progress, seen: seq<Incoming>)
    requires Records(cfg, link, p, seen) && !Ready(cfg, link, seen)
    ensures Deadline(p) == Err(Missing(link, seen))
  {
    hide Has;
  }

  lemma {:induction false} RefusedFrom(cfg: Config, link: LinkId, p: Progress, incoming: seq<Incoming>, n: nat,
                                       r: Refusal)
    requires n <= |incoming| && Records(cfg, link, p, incoming[..n]) && Unharmed(cfg, link, incoming[..n])
    requires forall m :: 0 <= m <= n ==> !Ready(cfg, link, incoming[..m])
    ensures Outcome(cfg, link, p, incoming[n..]) == Err(r) <==>
            || (exists k: nat :: StopsAt(cfg, link, incoming, k) && RefusedFor(cfg, link, incoming[k], r))
            || (Unharmed(cfg, link, incoming) &&
              (forall m :: 0 <= m <= |incoming| ==> !Ready(cfg, link, incoming[..m])) &&
                r == Missing(link, incoming))
    decreases |incoming| - n
  {
    hide Records, Ready, Receive, Fatal, RefusedFor, Missing, Deadline;
    if n == |incoming| {
      assert incoming[n..] == [] && incoming[..n] == incoming;
      DeadlineReason(cfg, link, p, incoming);
      forall k: nat ensures !StopsAt(cfg, link, incoming, k) {
        if k < n { assert incoming[..n][k] == incoming[k]; }
      }
    } else {
      var i, rest := incoming[n], incoming[n..];
      assert rest[0] == i && rest[1..] == incoming[n + 1..];
      assert incoming[..n] + [i] == incoming[..n + 1];
      ReceiveRecords(cfg, link, p, incoming[..n], i);
      FatalReason(cfg, link, p, i, r);
      match Receive(cfg, link, p, i)
      case Err(_) =>
        assert StopsAt(cfg, link, incoming, n);
        OneStop(cfg, link, incoming, n);
      case Ok(q) =>
        assert Unharmed(cfg, link, incoming[..n + 1]);
        CompleteIsReady(cfg, link, q, incoming[..n + 1]);
        if Complete(q) {
          NoStop(cfg, link, incoming, n + 1);
        } else {
          RefusedFrom(cfg, link, q, incoming, n + 1, r);
        }
    }
  }

  lemma OneStop(cfg: Config, link: LinkId, incoming: seq<Incoming>, n: nat)
    requires StopsAt(cfg, link, incoming, n)
    ensures forall k: nat :: StopsAt(cfg, link, incoming, k) ==> k == n
    ensures !Unharmed(cfg, link, incoming)
  {
    hide Ready, Fatal;
    forall k: nat ensures StopsAt(cfg, link, incoming, k) ==> k == n {
      if n < k <= |incoming| { assert incoming[..k][n] == incoming[n]; }
      if k < n { assert incoming[..n][k] == incoming[k]; }
    }
  }

  lemma NoStop(cfg: Config, link: LinkId, incoming: seq<Incoming>, n: nat)
    requires n <= |incoming| && Ready(cfg, link, incoming[..n]) && Unharmed(cfg, link, incoming[..n])
    ensures forall k: nat :: !StopsAt(cfg, link, incoming, k)
  {
    hide Ready, Fatal;
    forall k: nat ensures !StopsAt(cfg, link, incoming, k) {
      if k < n { assert incoming[..n][k] == incoming[k]; }
    }
  }

  /** A handshake fails with a refusal exactly when the first fatal event, coming before it is
      complete, stands for that refusal, or nothing fatal came, nothing was complete by the
      deadline, and the refusal names what was missing. */
  lemma RefusedIff(cfg: Config, link: LinkId, incoming: seq<Incoming>, r: Refusal)
    ensures Outcome(cfg, link, Begin(cfg), incoming) == Err(r) <==>
            || (exists k: nat :: StopsAt(cfg, link, incoming, k) && RefusedFor(cfg, link, incoming[k], r))
            || (Unharmed(cfg, link, incoming) &&
              (forall m :: 0 <= m <= |incoming| ==> !Ready(cfg, link, incoming[..m])) &&
                r == Missing(link, incoming))
  {
    assert incoming[..0] == [] && incoming[0..] == incoming;
    assert Records(cfg, link, Begin(cfg), []);
    RefusedFrom(cfg, link, Begin(cfg), incoming, 0, r);
  }

  /** Under an allow list no command runs without a listed identity on this link. */
  lemma NoCommandWithoutIdentity(cfg: Config, link: LinkId, incoming: seq<Incoming>)
    requires AuthRequired(cfg)
    requires forall k :: 0 <= k < |incoming| ==>
               !(incoming[k].On? && incoming[k].link == link && incoming[k].event.Identified? &&
                 incoming[k].event.id in cfg.allowed)
    ensures Outcome(cfg, link, Begin(cfg), incoming).Err?
  {
    forall n: nat ensures !CompletesAt(cfg, link, incoming, n) {
      if n <= |incoming| {
        assert forall k :: 0 <= k < n ==> incoming[..n][k] == incoming[k];
        assert !Has(i => AllowedIdentity(cfg, link, i), incoming[..n]);
      }
    }
    var r := Outcome(cfg, link, Begin(cfg), incoming);
    if r.Ok? {
      SuccessIff(cfg, link, incoming, r.value);
      assert false;
    }
  }

  /** Events of other links, and idle ticks, change nothing wherever they fall. */
  lemma {:induction false} OtherLinksInvisible(cfg: Config, link: LinkId, p: Progress, a: seq<Incoming>, i: Incoming,
                                               b: seq<Incoming>)
    requires !Complete(p)
    requires i.Quiet? || (i.On? && i.link != link)
    ensures Outcome(cfg, link, p, a + [i] + b) == Outcome(cfg, link, p, a + b)
    decreases |a|
  {
    hide OnEvent;
    if a == [] {
      assert a + [i] + b == [i] + b && a + b == b;
      assert ([i] + b)[1..] == b;
    } else {
      assert (a + [i] + b)[0] == a[0] && (a + b)[0] == a[0];
      assert (a + [i] + b)[1..] == a[1..] + [i] + b && (a + b)[1..] == a[1..] + b;
      var r := Receive(cfg, link, p, a[0]);
      if r.Ok? && !Complete(r.value) {
        OtherLinksInvisible(cfg, link, r.value, a[1..], i, b);
      }
    }
  }

  // ---------------------------------------------------------------- when the allow list is enforced

  /** Some `-a` entry, or some line of the right length in a file, can be read as an identity. */
  ghost predicate SomeEntryReads(settings: Settings, parse: Parser) {
    || (exists i :: 0 <= i < |settings.entries| && parse(settings.entries[i]).Some?)
    || (exists j :: 0 <= j < |FileLines(settings.files)| && LineIdentity(FileLines(settings.files)[j], parse).Some?)
  }

  /** Who is on the list: the readable `-a` entries and the readable lines of the files. */
  lemma AllowedIff(settings: Settings, parse: Parser, id: Identity)
    ensures id in AllowedSet(settings, parse) <==>
            || (exists i :: 0 <= i < |settings.entries| && parse(settings.entries[i]) == Some(id))
            || (exists j ::
                  0 <= j < |FileLines(settings.files)| && LineIdentity(FileLines(settings.files)[j], parse) == Some(id))
  {
    IdentitiesIff(FileLines(settings.files), parse, id);
    if exists i :: 0 <= i < |settings.entries| && parse(settings.entries[i]) == Some(id) {
      var i :| 0 <= i < |settings.entries| && parse(settings.entries[i]) == Some(id);
      assert settings.entries[i] in settings.entries;
    }
  }

  /** A file's line means the identity of its text, white space around it aside, when that has
      the length of a hash, and nothing otherwise. */
  lemma LineIdentityIff(line: string, parse: Parser, id: Identity)
    ensures LineIdentity(line, parse) == Some(id) <==>
            exists a, h, b :: AllSpace(a) && AllSpace(b) && Trimmed(h) && line == a + h + b && |h| == 32 &&
              parse(h) == Some(id)
  {
    hide Trim;
    if LineIdentity(line, parse) == Some(id) {
      var a, b := TrimParts(line);
      assert line == a + Trim(line) + b;
    }
    if a, h, b :| AllSpace(a) && AllSpace(b) && Trimmed(h) && line == a + h + b && |h| == 32 && parse(h) == Some(id) {
      TrimPadded(a, h, b);
    }
  }

  lemma {:induction false} IdentitiesIff(lines: seq<string>, parse: Parser, id: Identity)
    ensures id in IdentitiesIn(lines, parse) <==>
              exists j :: 0 <= j < |lines| && LineIdentity(lines[j], parse) == Some(id)
  {
    hide LineIdentity;
    if lines != [] {
      var front := lines[..|lines| - 1];
      IdentitiesIff(front, parse, id);
      assert lines == front + [lines[|lines| - 1]];
      assert forall j :: 0 <= j < |front| ==> lines[j] == front[j];
    }
  }

  lemma AuthRequiredIff(settings: Settings, parse: Parser)
    ensures AuthRequired(Resolve(settings, parse)) <==> !settings.noAuth && SomeEntryReads(settings, parse)
  {
    hide AllowedSet;
    forall id: Identity ensures id in AllowedSet(settings, parse) ==> SomeEntryReads(settings, parse) {
      AllowedIff(settings, parse, id);
    }
    if i :| 0 <= i < |settings.entries| && parse(settings.entries[i]).Some? {
      var id := parse(settings.entries[i]).value;
      AllowedIff(settings, parse, id);
      assert id in AllowedSet(settings, parse);
    }
    if j :| 0 <= j < |FileLines(settings.files)| && LineIdentity(FileLines(settings.files)[j], parse).Some? {
      FileLineIsListed(settings, parse, j);
    }
  }

  lemma FileLineIsListed(settings: Settings, parse: Parser, j: nat)
    requires j < |FileLines(settings.files)| && LineIdentity(FileLines(settings.files)[j], parse).Some?
    ensures LineIdentity(FileLines(settings.files)[j], parse).value in AllowedSet(settings, parse)
  {
    hide LineIdentity, FileLines, IdentitiesIn;
    var lines := FileLines(settings.files);
    IdentitiesIff(lines, parse, LineIdentity(lines[j], parse).value);
  }

  ghost predicate ListedPeerIdentified(settings: Settings, parse: Parser, link: LinkId, incoming: seq<Incoming>) {
    exists k :: 0 <= k < |incoming| && incoming[k].On? && incoming[k].link == link && incoming[k].event.Identified?
                && incoming[k].event.id in AllowedSet(settings, parse)
  }

  /** No command ever runs for a peer that is not listed, exactly when authentication is on
      and at least one configured entry can be read: entries that cannot leave no trace. */
  lemma ListEnforcedIff(settings: Settings, parse: Parser, link: LinkId)
    ensures (forall incoming :: HandshakeOutcome(settings, parse, link, incoming).Ok? ==>
              ListedPeerIdentified(settings, parse, link, incoming)) <==>
            !settings.noAuth && SomeEntryReads(settings, parse)
  {
    hide Outcome, SomeEntryReads, AllowedSet;
    var cfg := Resolve(settings, parse);
    AuthRequiredIff(settings, parse);
    if AuthRequired(cfg) {
      forall incoming | !ListedPeerIdentified(settings, parse, link, incoming)
        ensures HandshakeOutcome(settings, parse, link, incoming).Err?
      {
        NoCommandWithoutIdentity(cfg, link, incoming);
      }
    } else {
      var incoming := Hello(link, 1);
      OpenListenerRuns(settings, parse, link, 1);
      assert !ListedPeerIdentified(settings, parse, link, incoming);
    }
  }

  /** A version and a command, from a peer that never identifies itself. */
  function Hello(link: LinkId, protocol: nat): seq<Incoming> {
    [On(link, Version(Some(protocol), true)), On(link, Exec(Some(NO_COMMAND)))]
  }

  lemma OpenListenerRuns(settings: Settings, parse: Parser, link: LinkId, protocol: nat)
    requires !AuthRequired(Resolve(settings, parse)) && AsU8(protocol) == PROTOCOL_VERSION
    ensures HandshakeOutcome(settings, parse, link, Hello(link, protocol)) == Ok(NO_COMMAND)
  {
    hide AllowedSet;
    var cfg, incoming := Resolve(settings, parse), Hello(link, protocol);
    var p := Begin(cfg).(gotVer := true);
    assert Receive(cfg, link, Begin(cfg), incoming[0]) == Ok(p) && !Complete(p);
    assert incoming[1..] == [On(link, Exec(Some(NO_COMMAND)))];
    assert Outcome(cfg, link, p, incoming[1..]) == Ok(NO_COMMAND);
  }

  /** A listener started with `-a` and a mistyped identity, and no file, runs anybody's command. */
  lemma MistypedEntryOpensTheListener(parse: Parser, link: LinkId)
    requires parse("mistyped").None?
    ensures HandshakeOutcome(Settings(false, ["mistyped"], []), parse, link, Hello(link, 1)) == Ok(NO_COMMAND)
  {
    hide HandshakeOutcome, SomeEntryReads;
    var settings := Settings(false, ["mistyped"], []);
    assert !SomeEntryReads(settings, parse) by { NothingReads(settings, parse); }
    AuthRequiredIff(settings, parse);
    OpenListenerRuns(settings, parse, link, 1);
  }

  lemma NothingReads(settings: Settings, parse: Parser)
    requires settings.files == [] && forall i :: 0 <= i < |settings.entries| ==> parse(settings.entries[i]).None?
    ensures !SomeEntryReads(settings, parse)
  {
  }

  /** Protocol 257 passes for protocol 1. */
  lemma Protocol257IsAccepted(parse: Parser, link: LinkId)
    ensures HandshakeOutcome(Settings(true, [], []), parse, link, Hello(link, 257)) == Ok(NO_COMMAND)
  {
    OpenListenerRuns(Settings(true, [], []), parse, link, 257);
  }
}
