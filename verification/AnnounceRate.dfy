/**
  What the announce watchdog must answer, as a function of the whole, unbounded
  trace of calls.  The tracker itself (AnnounceTracker.dfy) throws history away;
  everything here is stated over the trace it never stores.
 */
module AnnounceRate {
  import opened Wrappers
  import opened Bytes
  import opened Arithmetic

  type Destination = bytes
  type Instant = int

  const U32_MAX: nat := U32_MODULUS - 1

  datatype Config = Config(window: nat, threshold: u32, coalesce: nat) {
    /** The distance that really separates two counted announces: stamps older
        than the window are gone before the coalescing test looks at them. */
    function Spacing(): nat { if coalesce < window then coalesce else window }
  }

  datatype Event =
    | Announce(dest: Destination, at: Instant)
    | Count(dest: Destination, at: Instant)
    | Prune(at: Instant)

  type Trace = seq<Event>

  function Last<T>(s: seq<T>): T
    requires s != []
  {
    s[|s| - 1]
  }

  function Front<T>(s: seq<T>): seq<T>
    requires s != []
  {
    s[..|s| - 1]
  }

  /** The clock never runs backwards. */
  ghost predicate Ordered(trace: Trace) {
    forall i, j :: 0 <= i < j < |trace| ==> trace[i].at <= trace[j].at
  }

  ghost predicate Sorted(ts: seq<Instant>) {
    forall i, j :: 0 <= i < j < |ts| ==> ts[i] <= ts[j]
  }

  /** The announce times of one destination. */
  ghost function Times(trace: Trace, d: Destination): seq<Instant> {
    if trace == [] then []
    else
      var ts := Times(Front(trace), d);
      match Last(trace)
      case Announce(d', t) => if d' == d then ts + [t] else ts
      case _ => ts
  }

  /** Greedy burst coalescing: keep a time when it lies `e` or more after the last one kept. */
  ghost function Greedy(ts: seq<Instant>, e: nat): seq<Instant> {
    if ts == [] then []
    else
      var g := Greedy(Front(ts), e);
      if g == [] || Last(ts) - Last(g) >= e then g + [Last(ts)] else g
  }

  /** `Vec::retain(|stamp| stamp > cutoff)`. */
  function Live(stamps: seq<Instant>, cutoff: Instant): seq<Instant> {
    if stamps == [] then []
    else if Last(stamps) > cutoff then Live(Front(stamps), cutoff) + [Last(stamps)]
    else Live(Front(stamps), cutoff)
  }

  ghost function CountedTimes(cfg: Config, trace: Trace, d: Destination): seq<Instant> {
    Greedy(Times(trace, d), cfg.Spacing())
  }

  /** The counted announces of `d` inside the window that ends at `now`. */
  ghost function InWindow(cfg: Config, trace: Trace, d: Destination, now: Instant): seq<Instant> {
    Live(CountedTimes(cfg, trace, d), now - cfg.window)
  }

  ghost predicate Counts(cfg: Config, before: Trace, d: Destination, now: Instant) {
    var g := CountedTimes(cfg, before, d);
    g == [] || now - Last(g) >= cfg.Spacing()
  }

  /** The count an announce at `now` arrives at, when it is counted, as the u32 the source compares. */
  ghost function CountOnArrival(cfg: Config, before: Trace, d: Destination, now: Instant): u32 {
    (|InWindow(cfg, before, d, now)| + 1) % U32_MODULUS
  }

  ghost predicate Crosses(cfg: Config, before: Trace, d: Destination, now: Instant) {
    Counts(cfg, before, d, now) && CountOnArrival(cfg, before, d, now) > cfg.threshold
  }

  /** Whether `d` carries the reported flag after `trace`. */
  ghost predicate Reported(cfg: Config, trace: Trace, d: Destination) {
    trace != [] &&
    var before := Front(trace);
    match Last(trace)
    case Announce(d', t) => Reported(cfg, before, d) || (d' == d && Crosses(cfg, before, d, t))
    case Count(_, _) => Reported(cfg, before, d)
    case Prune(t) => Reported(cfg, before, d) && InWindow(cfg, before, d, t) != []
  }

  /** Whether `d` has an entry in the table after `trace`. */
  ghost predicate Tracked(cfg: Config, trace: Trace, d: Destination) {
    trace != [] &&
    var before := Front(trace);
    match Last(trace)
    case Announce(d', _) => d' == d || Tracked(cfg, before, d)
    case Count(_, _) => Tracked(cfg, before, d)
    case Prune(t) => InWindow(cfg, before, d, t) != []
  }

  /** What `record` answers for an announce at `now` that follows `before`. */
  ghost function RecordAnswer(cfg: Config, before: Trace, d: Destination, now: Instant): Option<u32> {
    if Crosses(cfg, before, d, now) && !Reported(cfg, before, d)
    then Some(CountOnArrival(cfg, before, d, now))
    else None
  }

  // ---------------------------------------------------------------- basic facts

  lemma {:induction false} LiveAppend(a: seq<Instant>, b: seq<Instant>, c: Instant)
    ensures Live(a + b, c) == Live(a, c) + Live(b, c)
  {
    if b == [] {
      assert a + b == a;
    } else {
      LiveAppend(a, Front(b), c);
      assert Front(a + b) == a + Front(b) && Last(a + b) == Last(b);
    }
  }

  lemma {:induction false} LiveCompose(a: seq<Instant>, c1: Instant, c2: Instant)
    requires c1 <= c2
    ensures Live(Live(a, c1), c2) == Live(a, c2)
  {
    if a != [] {
      LiveCompose(Front(a), c1, c2);
      if Last(a) > c1 {
        var kept := Live(Front(a), c1);
        assert Front(kept + [Last(a)]) == kept;
      }
    }
  }

  lemma {:induction false} LiveBounds(a: seq<Instant>, c: Instant)
    ensures |Live(a, c)| <= |a|
    ensures forall i :: 0 <= i < |Live(a, c)| ==> Live(a, c)[i] > c && Live(a, c)[i] in a
  {
    if a != [] { LiveBounds(Front(a), c); }
  }

  /** Raising the cutoff only loses stamps. */
  lemma LiveMonotone(a: seq<Instant>, c1: Instant, c2: Instant)
    requires c1 <= c2
    ensures |Live(a, c2)| <= |Live(a, c1)|
  {
    LiveCompose(a, c1, c2);
    LiveBounds(Live(a, c1), c2);
  }

  /** On a sorted history the window keeps a suffix, so the newest stamp decides emptiness. */
  lemma {:induction false} LiveOfSorted(g: seq<Instant>, c: Instant)
    requires Sorted(g)
    ensures Live(g, c) == [] <==> g == [] || Last(g) <= c
    ensures Live(g, c) != [] ==> Last(Live(g, c)) == Last(g)
  {
    if g != [] && Last(g) <= c {
      LiveOfSorted(Front(g), c);
    }
  }

  lemma LiveStep(g: seq<Instant>, c: Instant)
    ensures Live(g, c) ==
            if g == [] then []
            else Live(Front(g), c) + if Last(g) > c then [Last(g)] else []
  {
  }

  lemma {:induction false} LiveAll(g: seq<Instant>, c: Instant)
    requires forall i :: 0 <= i < |g| ==> g[i] > c
    ensures Live(g, c) == g
  {
    hide Live;
    LiveStep(g, c);
    if g != [] {
      LiveAll(Front(g), c);
      assert g == Front(g) + [Last(g)];
    }
  }

  ghost predicate Spaced(s: seq<Instant>, e: nat) {
    forall i :: 0 < i < |s| ==> s[i] - s[i - 1] >= e
  }

  lemma {:induction false} SpacedSpan(s: seq<Instant>, e: nat)
    requires s != [] && Spaced(s, e)
    ensures Last(s) - s[0] >= (|s| - 1) * e
  {
    if |s| > 1 {
      SpacedSpan(Front(s), e);
      assert s[|s| - 1] - s[|s| - 2] >= e;
      assert (|s| - 1) * e == (|s| - 2) * e + e;
    }
  }

  /** Filtering a sorted, spaced history leaves it sorted and spaced. */
  lemma {:induction false} LiveSpaced(g: seq<Instant>, e: nat, c: Instant)
    requires Sorted(g) && Spaced(g, e)
    ensures Spaced(Live(g, c), e) && Sorted(Live(g, c))
  {
    hide Greedy;
    if g != [] {
      LiveSpaced(Front(g), e, c);
      LiveOfSorted(Front(g), c);
      assert Live(Front(g), c) != [] ==> Last(Live(Front(g), c)) == g[|g| - 2] <= Last(g);
    }
  }

  lemma GreedyStep(ts: seq<Instant>, e: nat)
    ensures Greedy(ts, e) ==
            if ts == [] then []
            else
              var g := Greedy(Front(ts), e);
              if g == [] || Last(ts) - Last(g) >= e then g + [Last(ts)] else g
  {
  }

  lemma {:induction false} GreedyWithin(ts: seq<Instant>, e: nat)
    ensures forall x :: x in Greedy(ts, e) ==> x in ts
  {
    hide Greedy;
    GreedyStep(ts, e);
    if ts != [] {
      GreedyWithin(Front(ts), e);
      assert ts == Front(ts) + [Last(ts)];
    }
  }

  /** The newest time counts, or lies within `e` of the last one counted. */
  lemma GreedyLast(ts: seq<Instant>, e: nat)
    requires ts != []
    ensures var g := Greedy(ts, e); g != [] && (Last(g) == Last(ts) || Last(ts) - Last(g) < e)
  {
    GreedyStep(ts, e);
  }

  lemma {:induction false} GreedyOrdered(ts: seq<Instant>, e: nat)
    requires Sorted(ts)
    ensures Sorted(Greedy(ts, e)) && Spaced(Greedy(ts, e), e)
  {
    hide Greedy;
    GreedyStep(ts, e);
    if ts != [] {
      GreedyOrdered(Front(ts), e);
      GreedyWithin(Front(ts), e);
      var g := Greedy(Front(ts), e);
      forall i | 0 <= i < |g| ensures g[i] <= Last(ts) {
        assert g[i] in g;
        var k :| 0 <= k < |ts| - 1 && ts[k] == g[i];
      }
    }
  }

  lemma GreedyFacts(ts: seq<Instant>, e: nat)
    requires Sorted(ts)
    ensures Sorted(Greedy(ts, e)) && Spaced(Greedy(ts, e), e)
    ensures forall x :: x in Greedy(ts, e) ==> x in ts
    ensures ts != [] ==> Greedy(ts, e) != [] && (Last(Greedy(ts, e)) == Last(ts) || Last(ts) - Last(Greedy(ts, e)) < e)
  {
    hide Greedy;
    GreedyOrdered(ts, e);
    GreedyWithin(ts, e);
    if ts != [] { GreedyLast(ts, e); }
  }

  lemma {:induction false} GreedyGrows(ts: seq<Instant>, n: nat, e: nat)
    requires n <= |ts|
    ensures Greedy(ts[..n], e) <= Greedy(ts, e)
  {
    if n < |ts| {
      assert Front(ts)[..n] == ts[..n];
      GreedyGrows(Front(ts), n, e);
    } else {
      assert ts[..n] == ts;
    }
  }

  lemma {:induction false} TimesSorted(trace: Trace, d: Destination)
    requires Ordered(trace)
    ensures Sorted(Times(trace, d))
    ensures forall x :: x in Times(trace, d) ==> x <= Last(trace).at
  {
    if trace != [] {
      TimesSorted(Front(trace), d);
      if Front(trace) != [] {
        assert trace[|trace| - 2].at <= trace[|trace| - 1].at;
      }
      var ts := Times(Front(trace), d);
      forall i | 0 <= i < |ts| ensures ts[i] <= Last(trace).at {
        assert ts[i] in ts;
      }
    }
  }

  /** Everything later proofs need about the counted announces of one destination. */
  lemma CountedFacts(cfg: Config, trace: Trace, d: Destination)
    requires Ordered(trace)
    ensures Sorted(CountedTimes(cfg, trace, d)) && Spaced(CountedTimes(cfg, trace, d), cfg.Spacing())
    ensures forall x :: x in CountedTimes(cfg, trace, d) ==> x <= Last(trace).at
  {
    hide Times, Greedy;
    TimesSorted(trace, d);
    GreedyFacts(Times(trace, d), cfg.Spacing());
  }

  /** One more announce extends the counted ones exactly when it counts. */
  lemma CountedStep(cfg: Config, before: Trace, d: Destination, now: Instant)
    ensures CountedTimes(cfg, before + [Announce(d, now)], d) ==
            CountedTimes(cfg, before, d) + if Counts(cfg, before, d, now) then [now] else []
  {
    assert Front(before + [Announce(d, now)]) == before;
    assert Front(Times(before, d) + [now]) == Times(before, d);
  }

  lemma SameCounted(cfg: Config, before: Trace, e: Event, d: Destination)
    requires !(e.Announce? && e.dest == d)
    ensures CountedTimes(cfg, before + [e], d) == CountedTimes(cfg, before, d)
  {
    assert Front(before + [e]) == before;
  }

  lemma NothingYet(cfg: Config, d: Destination, now: Instant)
    ensures CountedTimes(cfg, [], d) == [] && InWindow(cfg, [], d, now) == []
    ensures Live([], now - cfg.window) == [] && !Reported(cfg, [], d)
  {
  }

  /** How the two flags of a destination move with one more call. */
  lemma FlagMoves(cfg: Config, before: Trace, e: Event, d: Destination)
    ensures Reported(cfg, before + [e], d) <==>
              if e.Prune? then Reported(cfg, before, d) && InWindow(cfg, before, d, e.at) != []
              else Reported(cfg, before, d) || (e.Announce? && e.dest == d && Crosses(cfg, before, d, e.at))
    ensures Tracked(cfg, before + [e], d) <==>
              if e.Prune? then InWindow(cfg, before, d, e.at) != []
              else Tracked(cfg, before, d) || (e.Announce? && e.dest == d)
  {
    assert Front(before + [e]) == before;
  }

  // ---------------------------------------------------------------- independence

  /** Calls about other destinations, and `count` and `prune` calls, wherever they
      stand, leave every later count of `d` as it was. */
  lemma {:induction false} OnlyOwnAnnouncesMatter(cfg: Config, a: Trace, e: Event, b: Trace, d: Destination,
                                                  now: Instant)
    requires !(e.Announce? && e.dest == d)
    ensures InWindow(cfg, a + [e] + b, d, now) == InWindow(cfg, a + b, d, now)
  {
    SkippedInTimes(a, e, b, d);
  }

  lemma {:induction false} SkippedInTimes(a: Trace, e: Event, b: Trace, d: Destination)
    requires !(e.Announce? && e.dest == d)
    ensures Times(a + [e] + b, d) == Times(a + b, d)
  {
    if b == [] {
      assert a + b == a && a + [e] + b == a + [e] && Front(a + [e]) == a;
    } else {
      assert Front(a + b) == a + Front(b) && Front(a + [e] + b) == a + [e] + Front(b);
      SkippedInTimes(a, e, Front(b), d);
    }
  }

  // ---------------------------------------------------------------- near-optimal counting

  /** `picks` selects announces (by position) that are pairwise `e` or more apart. */
  ghost predicate Separated(ts: seq<Instant>, picks: seq<nat>, e: nat) {
    && (forall i :: 0 <= i < |picks| ==> picks[i] < |ts|)
    && (forall i, j :: 0 <= i < j < |picks| ==> picks[i] < picks[j] && ts[picks[j]] - ts[picks[i]] >= e)
  }

  ghost predicate After(ts: seq<Instant>, picks: seq<nat>, c: Instant) {
    forall i :: 0 <= i < |picks| ==> picks[i] < |ts| && ts[picks[i]] > c
  }

  /** A separated selection inside the window never exceeds the greedy count by more than one. */
  lemma {:induction false} GreedyNearOptimal(ts: seq<Instant>, picks: seq<nat>, e: nat, c: Instant)
    requires Sorted(ts) && Separated(ts, picks, e) && After(ts, picks, c)
    ensures |picks| <= |Live(Greedy(ts, e), c)| + 1
    decreases |picks|
  {
    hide Live, Greedy;
    if |picks| > 1 {
      var p, q := picks[|picks| - 1], picks[|picks| - 2];
      var early, late := ts[..q + 1], ts[..p + 1];
      GreedyNearOptimal(early, Front(picks), e, c);
      StepAddsLiveStamp(late, q, e, c);
      assert late[..q + 1] == early;
      GreedyGrows(ts, p + 1, e);
      var g, h := Greedy(late, e), Greedy(ts, e);
      assert h == g + h[|g|..];
      LiveAppend(g, h[|g|..], c);
    }
  }

  /** Between two announces that far apart the greedy history gains a stamp newer than the first. */
  lemma StepAddsLiveStamp(late: seq<Instant>, q: nat, e: nat, c: Instant)
    requires Sorted(late) && q + 1 < |late|
    requires Last(late) - late[q] >= e && late[q] > c
    ensures |Live(Greedy(late, e), c)| >= |Live(Greedy(late[..q + 1], e), c)| + 1
  {
    hide Live, Greedy;
    var g, h := Greedy(late[..q + 1], e), Greedy(late, e);
    GreedyGrows(late, q + 1, e);
    GreedyGains(late, q, e);
    var more := h[|g|..];
    assert h == g + more;
    LiveAppend(g, more, c);
    GreedyFacts(late, e);
    assert Last(more) == Last(h) > c;
    LiveNonempty(more, c);
  }

  lemma LiveNonempty(s: seq<Instant>, c: Instant)
    requires s != [] && Last(s) > c
    ensures |Live(s, c)| >= 1
  {
  }

  lemma GreedyGains(late: seq<Instant>, q: nat, e: nat)
    requires Sorted(late) && q + 1 < |late| && Last(late) - late[q] >= e
    ensures |Greedy(late, e)| > |Greedy(late[..q + 1], e)|
  {
    hide Live;
    var early, mid := late[..q + 1], Front(late);
    assert mid[..q + 1] == early;
    GreedyGrows(mid, q + 1, e);
    GreedyFacts(early, e);
    var g, k := Greedy(early, e), Greedy(mid, e);
    if |k| == |g| {
      assert k == g;
      assert g[|g| - 1] in g;
      var i :| 0 <= i < |early| && early[i] == Last(g);
      assert late[i] <= late[q];
    }
  }

  /** `picks` are increasing positions in `ts` that hold exactly `stamps`. */
  ghost predicate Selects(ts: seq<Instant>, picks: seq<nat>, stamps: seq<Instant>) {
    && |picks| == |stamps|
    && (forall i :: 0 <= i < |picks| ==> picks[i] < |ts| && ts[picks[i]] == stamps[i])
    && (forall i, j :: 0 <= i < j < |picks| ==> picks[i] < picks[j])
  }

  lemma {:induction false} Positions(ts: seq<Instant>, e: nat, c: Instant) returns (picks: seq<nat>)
    ensures Selects(ts, picks, Live(Greedy(ts, e), c))
  {
    picks := [];
    if ts != [] {
      var sub := Positions(Front(ts), e, c);
      var g := Greedy(Front(ts), e);
      assert Selects(ts, sub, Live(g, c));
      picks := sub;
      if Greedy(ts, e) != g && Last(ts) > c {
        assert Front(g + [Last(ts)]) == g;
        picks := sub + [|ts| - 1];
      }
    }
  }

  /** The greedy stamps inside the window are themselves such a selection. */
  lemma GreedyIsASelection(ts: seq<Instant>, e: nat, c: Instant) returns (picks: seq<nat>)
    requires Sorted(ts)
    ensures Separated(ts, picks, e) && After(ts, picks, c)
    ensures Selects(ts, picks, Live(Greedy(ts, e), c))
  {
    hide Live, Greedy;
    picks := Positions(ts, e, c);
    var w := Live(Greedy(ts, e), c);
    GreedyFacts(ts, e);
    LiveSpaced(Greedy(ts, e), e, c);
    LiveBounds(Greedy(ts, e), c);
    forall i, j | 0 <= i < j < |picks| ensures w[j] - w[i] >= e {
      assert w[j] - w[j - 1] >= e;
      assert i < j - 1 ==> w[i] <= w[j - 1];
    }
  }

  /** The count is the best possible number of separated announces in the window, or one less. */
  lemma CountIsNearOptimal(cfg: Config, trace: Trace, d: Destination, now: Instant)
    requires Ordered(trace)
    ensures forall picks ::
              Separated(Times(trace, d), picks, cfg.Spacing()) && After(Times(trace, d), picks, now - cfg.window)
              ==> |picks| <= |InWindow(cfg, trace, d, now)| + 1
    ensures exists picks ::
              Separated(Times(trace, d), picks, cfg.Spacing()) && After(Times(trace, d), picks, now - cfg.window)
              && |picks| == |InWindow(cfg, trace, d, now)|
  {
    hide Live, Times, Greedy;
    var ts, e, c := Times(trace, d), cfg.Spacing(), now - cfg.window;
    TimesSorted(trace, d);
    forall picks | Separated(ts, picks, e) && After(ts, picks, c)
      ensures |picks| <= |InWindow(cfg, trace, d, now)| + 1
    {
      GreedyNearOptimal(ts, picks, e, c);
    }
    var best := GreedyIsASelection(ts, e, c);
  }

  /** The counted announces of one window always fit in it at the coalescing distance. */
  lemma WindowPopulation(cfg: Config, trace: Trace, d: Destination, now: Instant)
    requires Ordered(trace) && (trace != [] ==> Last(trace).at <= now)
    requires InWindow(cfg, trace, d, now) != []
    ensures (|InWindow(cfg, trace, d, now)| - 1) * cfg.Spacing() < cfg.window
  {
    hide Live, Times, Greedy;
    var g, c := CountedTimes(cfg, trace, d), now - cfg.window;
    var w := InWindow(cfg, trace, d, now);
    NothingYet(cfg, d, now);
    CountedFacts(cfg, trace, d);
    LiveSpaced(g, cfg.Spacing(), c);
    LiveBounds(g, c);
    SpacedSpan(w, cfg.Spacing());
    assert Last(w) in g;
  }

  // ---------------------------------------------------------------- no missed flood

  lemma {:induction false} OverThresholdIsReported(cfg: Config, trace: Trace, d: Destination)
    requires Ordered(trace) && trace != [] && cfg.threshold < U32_MAX
    requires |InWindow(cfg, trace, d, Last(trace).at)| > cfg.threshold
    ensures Reported(cfg, trace, d)
  {
    hide InWindow, CountedTimes, Crosses, Reported, Tracked;
    var before, e := Front(trace), Last(trace);
    assert trace == before + [e];
    NothingYet(cfg, d, e.at);
    FlagMoves(cfg, before, e, d);
    if |InWindow(cfg, before, d, e.at)| > cfg.threshold {
      assert before != [];
      assert trace[|trace| - 2].at <= e.at;
      WindowShrinks(cfg, before, d, Last(before).at, e.at);
      OverThresholdIsReported(cfg, before, d);
    } else {
      if !(e.Announce? && e.dest == d) { SameWindow(cfg, before, e, d); }
      ThresholdPassedNow(cfg, before, d, e.at);
    }
  }

  lemma WindowShrinks(cfg: Config, trace: Trace, d: Destination, t1: Instant, t2: Instant)
    requires t1 <= t2
    ensures |InWindow(cfg, trace, d, t2)| <= |InWindow(cfg, trace, d, t1)|
  {
    hide CountedTimes, Live;
    LiveMonotone(CountedTimes(cfg, trace, d), t1 - cfg.window, t2 - cfg.window);
  }

  lemma SameWindow(cfg: Config, before: Trace, e: Event, d: Destination)
    requires !(e.Announce? && e.dest == d)
    ensures InWindow(cfg, before + [e], d, e.at) == InWindow(cfg, before, d, e.at)
  {
    hide CountedTimes, Live;
    SameCounted(cfg, before, e, d);
  }

  lemma ThresholdPassedNow(cfg: Config, before: Trace, d: Destination, now: Instant)
    requires cfg.threshold < U32_MAX
    requires |InWindow(cfg, before, d, now)| <= cfg.threshold
    requires |InWindow(cfg, before + [Announce(d, now)], d, now)| > cfg.threshold
    ensures Crosses(cfg, before, d, now)
  {
    hide Times, Greedy, Reported;
    CountedStep(cfg, before, d, now);
    LiveAppend(CountedTimes(cfg, before, d), if Counts(cfg, before, d, now) then [now] else [], now - cfg.window);
    LiveBounds([now], now - cfg.window);
  }

  /** Some announce of `d` in the trace was answered with a report. */
  ghost predicate ReportedAt(cfg: Config, trace: Trace, d: Destination, i: nat) {
    i < |trace| && trace[i].Announce? && trace[i].dest == d && RecordAnswer(cfg, trace[..i], d, trace[i].at).Some?
  }

  /** The flag is only ever set by handing a report to the caller. */
  lemma {:induction false} FlagIsFromAReport(cfg: Config, trace: Trace, d: Destination) returns (i: nat)
    requires Reported(cfg, trace, d)
    ensures ReportedAt(cfg, trace, d, i)
  {
    hide Crosses, InWindow, RecordAnswer;
    var before, e := Front(trace), Last(trace);
    if Reported(cfg, before, d) {
      i := FlagIsFromAReport(cfg, before, d);
      assert before[..i] == trace[..i];
    } else {
      i := |before|;
      assert trace[..i] == before;
      FirstCrossingReports(cfg, before, d, e.at);
    }
  }

  lemma FirstCrossingReports(cfg: Config, before: Trace, d: Destination, now: Instant)
    requires Crosses(cfg, before, d, now) && !Reported(cfg, before, d)
    ensures RecordAnswer(cfg, before, d, now).Some?
  {
  }

  /** Any window that ever held threshold + 2 separated announces has led to a report, and
      the destination's flag stands. */
  lemma NoMissedFlood(cfg: Config, trace: Trace, d: Destination, picks: seq<nat>)
    requires Ordered(trace) && trace != [] && cfg.threshold < U32_MAX
    requires Separated(Times(trace, d), picks, cfg.Spacing())
    requires After(Times(trace, d), picks, Last(trace).at - cfg.window)
    requires |picks| >= cfg.threshold + 2
    ensures Reported(cfg, trace, d)
    ensures exists i: nat :: ReportedAt(cfg, trace, d, i)
  {
    hide Live, Times, Greedy, Reported;
    CountIsNearOptimal(cfg, trace, d, Last(trace).at);
    OverThresholdIsReported(cfg, trace, d);
    var i := FlagIsFromAReport(cfg, trace, d);
  }

  // ---------------------------------------------------------------- what a report says, and when

  /** A report of `d` at `i` that no later prune has found the window empty to clear. */
  ghost predicate Standing(cfg: Config, trace: Trace, d: Destination, i: nat) {
    && ReportedAt(cfg, trace, d, i)
    && forall j :: i < j < |trace| && trace[j].Prune? ==> InWindow(cfg, trace[..j], d, trace[j].at) != []
  }

  lemma StandingLonger(cfg: Config, before: Trace, e: Event, d: Destination, i: nat)
    ensures i < |before| ==>
              (Standing(cfg, before + [e], d, i) <==>
               Standing(cfg, before, d, i) && (e.Prune? ==> InWindow(cfg, before, d, e.at) != []))
  {
    hide InWindow, RecordAnswer;
    var after := before + [e];
    if i < |before| {
      assert after[..|before|] == before && after[|before|] == e;
      assert after[..i] == before[..i];
      assert forall j :: 0 <= j < |before| ==> after[..j] == before[..j] && after[j] == before[j];
    }
  }

  lemma StandingNow(cfg: Config, before: Trace, e: Event, d: Destination)
    ensures Standing(cfg, before + [e], d, |before|) <==>
            e.Announce? && e.dest == d && RecordAnswer(cfg, before, d, e.at).Some?
  {
    hide InWindow, RecordAnswer;
    assert (before + [e])[..|before|] == before;
  }

  /** The flag stands exactly while a report does: from the report until a prune finds the window empty. */
  lemma {:induction false} FlagIff(cfg: Config, trace: Trace, d: Destination)
    ensures Reported(cfg, trace, d) <==> exists i: nat :: Standing(cfg, trace, d, i)
  {
    hide InWindow, RecordAnswer, Reported, Standing, Crosses;
    NothingYet(cfg, d, 0);
    if trace == [] {
      forall i: nat ensures !Standing(cfg, trace, d, i) { NoneStanding(cfg, trace, d, i); }
    } else {
      var before, e := Front(trace), Last(trace);
      assert trace == before + [e];
      FlagIff(cfg, before, d);
      FlagMoves(cfg, before, e, d);
      StandingNow(cfg, before, e, d);
      CrossingReports(cfg, before, d, e.at);
      forall i: nat ensures Standing(cfg, trace, d, i) ==> i <= |before| { NoneStanding(cfg, trace, d, i); }
      forall i: nat
        ensures i < |before| ==>
                  (Standing(cfg, trace, d, i) <==>
                   Standing(cfg, before, d, i) && (e.Prune? ==> InWindow(cfg, before, d, e.at) != []))
      {
        StandingLonger(cfg, before, e, d, i);
      }
      forall i: nat ensures Standing(cfg, before, d, i) ==> i < |before| { NoneStanding(cfg, before, d, i); }
    }
  }

  lemma NoneStanding(cfg: Config, trace: Trace, d: Destination, i: nat)
    ensures Standing(cfg, trace, d, i) ==> i < |trace|
  {
    hide InWindow, RecordAnswer;
  }

  lemma CrossingReports(cfg: Config, before: Trace, d: Destination, now: Instant)
    ensures RecordAnswer(cfg, before, d, now).Some? <==> Crosses(cfg, before, d, now) && !Reported(cfg, before, d)
  {
    hide Crosses, Reported;
  }

  /** When an announce is answered with a report, and with which number: it counts, the counted
      announces of the window with it are `c`, `c` as a u32 is above the threshold, and no
      earlier report still stands.  So a flood after a quiet prune is reported again. */
  lemma ReportIff(cfg: Config, before: Trace, d: Destination, now: Instant, c: u32)
    ensures RecordAnswer(cfg, before, d, now) == Some(c) <==>
            && CountedTimes(cfg, before + [Announce(d, now)], d) == CountedTimes(cfg, before, d) + [now]
            && c == (|InWindow(cfg, before, d, now)| + 1) % U32_MODULUS && c > cfg.threshold
            && !exists i: nat :: Standing(cfg, before, d, i)
  {
    hide InWindow, Times, Greedy, Reported, Standing;
    FlagIff(cfg, before, d);
    CountedStep(cfg, before, d, now);
    var g := CountedTimes(cfg, before, d);
    assert g + [] == g && g + [now] != g;
  }

  /** The number reported is the count of the window that ends with the announce, and above
      the threshold: some separated selection of its announces has that many, and none has
      more than one more. */
  lemma ReportCarriesTheCount(cfg: Config, before: Trace, d: Destination, now: Instant)
    requires Ordered(before + [Announce(d, now)]) && cfg.window > 0
    requires RecordAnswer(cfg, before, d, now).Some?
    ensures var trace, c := before + [Announce(d, now)], RecordAnswer(cfg, before, d, now).value;
            var ts, e, from := Times(trace, d), cfg.Spacing(), now - cfg.window;
            && c > cfg.threshold && c == |InWindow(cfg, trace, d, now)| % U32_MODULUS
            && (|InWindow(cfg, trace, d, now)| < U32_MODULUS ==>
                  && (exists picks :: Separated(ts, picks, e) && After(ts, picks, from) && |picks| == c)
                  && (forall picks :: Separated(ts, picks, e) && After(ts, picks, from) ==> |picks| <= c + 1))
  {
    hide Live, Times, Greedy, Reported;
    var trace := before + [Announce(d, now)];
    CountedStep(cfg, before, d, now);
    LiveAppend(CountedTimes(cfg, before, d), [now], now - cfg.window);
    LiveAll([now], now - cfg.window);
    CountIsNearOptimal(cfg, trace, d, now);
  }

  /** An announce of `d` at `i` after which no prune found the window empty. */
  ghost predicate Heard(cfg: Config, trace: Trace, d: Destination, i: nat) {
    && i < |trace| && trace[i].Announce? && trace[i].dest == d
    && forall j :: i < j < |trace| && trace[j].Prune? ==> InWindow(cfg, trace[..j], d, trace[j].at) != []
  }

  lemma HeardLonger(cfg: Config, before: Trace, e: Event, d: Destination, i: nat)
    ensures i < |before| ==>
              (Heard(cfg, before + [e], d, i) <==>
               Heard(cfg, before, d, i) && (e.Prune? ==> InWindow(cfg, before, d, e.at) != []))
    ensures Heard(cfg, before + [e], d, |before|) <==> e.Announce? && e.dest == d
  {
    hide InWindow;
    var after := before + [e];
    assert after[..|before|] == before && after[|before|] == e;
    assert forall j :: 0 <= j < |before| ==> after[..j] == before[..j] && after[j] == before[j];
  }

  /** A destination is tracked exactly from an announce until a prune finds its window empty. */
  lemma {:induction false} TrackedIff(cfg: Config, trace: Trace, d: Destination)
    requires Ordered(trace)
    ensures Tracked(cfg, trace, d) <==> exists i: nat :: Heard(cfg, trace, d, i)
  {
    hide InWindow, Tracked, Heard, Reported, Crosses;
    if trace == [] {
      forall i: nat ensures !Heard(cfg, trace, d, i) { HeardIsThere(cfg, trace, d, i); }
      NothingTracked(cfg, d);
    } else {
      var before, e := Front(trace), Last(trace);
      assert trace == before + [e];
      assert before != [] ==> trace[|before| - 1].at <= e.at;
      TrackedIff(cfg, before, d);
      FlagMoves(cfg, before, e, d);
      forall i: nat
        ensures Heard(cfg, trace, d, i) ==> i <= |before|
        ensures Heard(cfg, before, d, i) ==> i < |before|
        ensures i < |before| ==>
                  (Heard(cfg, trace, d, i) <==>
                   Heard(cfg, before, d, i) && (e.Prune? ==> InWindow(cfg, before, d, e.at) != []))
        ensures i == |before| ==> (Heard(cfg, trace, d, i) <==> e.Announce? && e.dest == d)
      {
        HeardIsThere(cfg, trace, d, i);
        HeardIsThere(cfg, before, d, i);
        HeardLonger(cfg, before, e, d, i);
      }
      if e.Prune? && InWindow(cfg, before, d, e.at) != [] {
        LiveMeansTracked(cfg, before, d, e.at);
      }
      if e.Announce? && e.dest == d { assert Heard(cfg, trace, d, |before|); }
    }
  }

  lemma NothingTracked(cfg: Config, d: Destination)
    ensures !Tracked(cfg, [], d)
  {
  }

  lemma HeardIsThere(cfg: Config, trace: Trace, d: Destination, i: nat)
    ensures Heard(cfg, trace, d, i) ==> i < |trace|
  {
    hide InWindow;
  }

  /** A destination with a counted announce in the window has an entry. */
  lemma {:induction false} LiveMeansTracked(cfg: Config, trace: Trace, d: Destination, now: Instant)
    requires Ordered(trace) && (trace != [] ==> Last(trace).at <= now) && InWindow(cfg, trace, d, now) != []
    ensures Tracked(cfg, trace, d)
  {
    hide Times, Greedy, Live, Tracked, Reported, Crosses;
    NothingYet(cfg, d, now);
    var before, e := Front(trace), Last(trace);
    assert trace == before + [e];
    FlagMoves(cfg, before, e, d);
    if !(e.Announce? && e.dest == d) {
      SameCounted(cfg, before, e, d);
      assert before != [] ==> trace[|before| - 1].at <= e.at;
      WindowShrinks(cfg, before, d, e.at, now);
      if !e.Prune? { LiveMeansTracked(cfg, before, d, now); }
    }
  }

  // ---------------------------------------------------------------- report spacing

  /** After the flag was cleared at `p`: no counted stamp lies in (p - window, p). */
  ghost predicate ClearedAt(cfg: Config, g: seq<Instant>, p: Instant) {
    forall i :: 0 <= i < |g| ==> g[i] <= p - cfg.window || g[i] >= p
  }

  /** From a report at `t1` on, either the flag still stands or it was cleared a full window later. */
  ghost predicate StandsOrCleared(cfg: Config, trace: Trace, d: Destination, t1: Instant, p: Instant) {
    && trace != []
    && t1 in CountedTimes(cfg, trace, d)
    && (!Reported(cfg, trace, d) ==>
          t1 + cfg.window <= p <= Last(trace).at && ClearedAt(cfg, CountedTimes(cfg, trace, d), p))
  }

  lemma ClearedStep(cfg: Config, before: Trace, e: Event, d: Destination, t1: Instant, p: Instant) returns (p': Instant)
    requires Ordered(before + [e]) && StandsOrCleared(cfg, before, d, t1, p)
    ensures StandsOrCleared(cfg, before + [e], d, t1, p')
  {
    hide Live, Times, Greedy, Reported, Tracked;
    var after := before + [e];
    assert Front(after) == before;
    assert after[|before| - 1].at <= after[|before|].at;
    p' := p;
    FlagMoves(cfg, before, e, d);
    if e.Announce? && e.dest == d {
      CountedStep(cfg, before, d, e.at);
    } else {
      SameCounted(cfg, before, e, d);
    }
    if e.Prune? && Reported(cfg, before, d) {
      p' := e.at;
      var g := CountedTimes(cfg, before, d);
      assert Ordered(before) by { assert forall i :: 0 <= i < |before| ==> before[i] == after[i]; }
      CountedFacts(cfg, before, d);
      LiveOfSorted(g, e.at - cfg.window);
      assert forall i :: 0 <= i < |g| - 1 ==> g[i] <= Last(g);
      assert t1 <= Last(g);
    }
  }

  lemma ReportSetsFlag(cfg: Config, before: Trace, d: Destination, t1: Instant)
    requires RecordAnswer(cfg, before, d, t1).Some?
    ensures StandsOrCleared(cfg, before + [Announce(d, t1)], d, t1, t1)
  {
    hide Live, Times, Greedy, Reported;
    CountedStep(cfg, before, d, t1);
    FlagMoves(cfg, before, Announce(d, t1), d);
  }

  lemma {:induction false} FlagStandsForAWindow(cfg: Config, trace: Trace, i: nat, n: nat, d: Destination,
                                                t1: Instant) returns (p: Instant)
    requires Ordered(trace) && i < n <= |trace|
    requires trace[i] == Announce(d, t1) && RecordAnswer(cfg, trace[..i], d, t1).Some?
    ensures StandsOrCleared(cfg, trace[..n], d, t1, p)
    decreases n
  {
    hide Live, Times, Greedy, Reported;
    if n == i + 1 {
      ReportSetsFlag(cfg, trace[..i], d, t1);
      p := t1;
    } else {
      var q := FlagStandsForAWindow(cfg, trace, i, n - 1, d, t1);
      p := ClearedStep(cfg, trace[..n - 1], trace[n - 1], d, t1, q) by {
        assert trace[..n - 1] + [trace[n - 1]] == trace[..n];
      }
    }
    assert trace[..n - 1] + [trace[n - 1]] == trace[..n];
  }

  /** Two reports of one destination are a full window plus a full burst apart. */
  lemma ReportSpacing(cfg: Config, trace: Trace, i: nat, j: nat, d: Destination, t1: Instant, t2: Instant)
    requires Ordered(trace) && i < j < |trace|
    requires trace[i] == Announce(d, t1) && RecordAnswer(cfg, trace[..i], d, t1).Some?
    requires trace[j] == Announce(d, t2) && RecordAnswer(cfg, trace[..j], d, t2).Some?
    ensures t2 >= t1 + cfg.window + cfg.threshold * cfg.Spacing()
  {
    hide CountedTimes, RecordAnswer, Reported, ClearedAt;
    var p := FlagStandsForAWindow(cfg, trace, i, j, d, t1);
    assert trace[j - 1].at <= t2;
    assert !Reported(cfg, trace[..j], d) by { ReportNeedsClearFlag(cfg, trace[..j], d, t2); }
    BurstSinceClear(cfg, trace[..j], d, p, t2);
  }

  lemma ReportNeedsClearFlag(cfg: Config, before: Trace, d: Destination, now: Instant)
    requires RecordAnswer(cfg, before, d, now).Some?
    ensures !Reported(cfg, before, d)
  {
    hide Reported, Crosses;
  }

  /** A report counts `threshold` separated announces since the flag was last cleared. */
  lemma BurstSinceClear(cfg: Config, before: Trace, d: Destination, p: Instant, now: Instant)
    requires Ordered(before) && p <= now && RecordAnswer(cfg, before, d, now).Some?
    requires ClearedAt(cfg, CountedTimes(cfg, before, d), p)
    ensures now >= p + cfg.threshold * cfg.Spacing()
  {
    hide Live, Times, Greedy, Reported;
    var g, c, e := CountedTimes(cfg, before, d), now - cfg.window, cfg.Spacing();
    var w := Live(g, c);
    CountedFacts(cfg, before, d);
    LiveSpaced(g, e, c);
    LiveOfSorted(g, c);
    LiveAfterClear(cfg, g, p, now);
    BurstLength(w, now, e, p, cfg.threshold);
  }

  lemma LiveAfterClear(cfg: Config, g: seq<Instant>, p: Instant, now: Instant)
    requires ClearedAt(cfg, g, p) && p <= now
    ensures var w := Live(g, now - cfg.window); forall k :: 0 <= k < |w| ==> w[k] >= p
  {
    hide Live;
    LiveBounds(g, now - cfg.window);
    var w := Live(g, now - cfg.window);
    forall k | 0 <= k < |w| ensures w[k] >= p {
      var i :| 0 <= i < |g| && g[i] == w[k];
    }
  }

  lemma BurstLength(w: seq<Instant>, t: Instant, e: nat, p: Instant, threshold: nat)
    requires Spaced(w, e) && (w != [] ==> t - Last(w) >= e) && |w| >= threshold
    requires p <= t && forall k :: 0 <= k < |w| ==> w[k] >= p
    ensures t >= p + threshold * e
  {
    var all := w + [t];
    SpacedSpan(all, e);
    assert (|all| - 1) * e >= threshold * e by { MulMonotone(threshold, |all| - 1, e); }
    assert all[0] >= p;
  }

  // ---------------------------------------------------------------- when a report can happen at all

  /** The condition on the settings alone under which any report is possible. */
  predicate CanReport(cfg: Config) {
    cfg.threshold < U32_MAX && (cfg.threshold == 0 || cfg.threshold * cfg.Spacing() < cfg.window)
  }

  /** `k` announces of `d`, one every `e`. */
  ghost function Ramp(d: Destination, k: nat, e: nat): Trace {
    seq(k, i requires 0 <= i < k => Announce(d, i * e))
  }

  ghost function RampTimes(k: nat, e: nat): seq<Instant> {
    seq(k, i requires 0 <= i < k => i * e)
  }

  lemma {:induction false} RampFacts(cfg: Config, d: Destination, k: nat)
    requires k <= cfg.threshold
    ensures CountedTimes(cfg, Ramp(d, k, cfg.Spacing()), d) == RampTimes(k, cfg.Spacing())
    ensures !Reported(cfg, Ramp(d, k, cfg.Spacing()), d)
  {
    hide Live, Times, Greedy, Reported;
    var e := cfg.Spacing();
    NothingYet(cfg, d, 0);
    if k == 0 {
      assert Ramp(d, k, e) == [] && RampTimes(k, e) == [];
    } else {
      RampFacts(cfg, d, k - 1);
      var before, now := Ramp(d, k - 1, e), (k - 1) * e;
      RampStep(d, k, e);
      CountedStep(cfg, before, d, now);
      FlagMoves(cfg, before, Announce(d, now), d);
      LiveBounds(RampTimes(k - 1, e), now - cfg.window);
    }
  }

  lemma RampStep(d: Destination, k: nat, e: nat)
    requires k > 0
    ensures Ramp(d, k, e) == Ramp(d, k - 1, e) + [Announce(d, (k - 1) * e)]
    ensures RampTimes(k, e) == RampTimes(k - 1, e) + [(k - 1) * e]
    ensures k > 1 ==> (k - 1) * e - Last(RampTimes(k - 1, e)) == e
  {
    assert k > 1 ==> (k - 1) * e - (k - 2) * e == e;
  }

  lemma RampOrdered(d: Destination, k: nat, e: nat)
    ensures Ordered(Ramp(d, k, e) + [Announce(d, k * e)])
  {
    var all := Ramp(d, k, e) + [Announce(d, k * e)];
    forall i, j | 0 <= i < j < |all| ensures all[i].at <= all[j].at {
      MulMonotone(i, j, e);
    }
  }

  /** Exactly when some run makes `record` report: below the u32 ceiling, and with
      room in the window for more than `threshold` separated announces. */
  lemma ReportPossibleIff(cfg: Config, d: Destination)
    ensures CanReport(cfg) <==>
            exists before: Trace, now: Instant ::
                Ordered(before + [Announce(d, now)]) && RecordAnswer(cfg, before, d, now).Some?
  {
    if CanReport(cfg) {
      var before, now := RampReports(cfg, d);
    }
    forall before: Trace, now: Instant | Ordered(before + [Announce(d, now)]) && RecordAnswer(cfg, before, d, now).Some?
      ensures CanReport(cfg)
    {
      ReportNeedsRoom(cfg, before, d, now);
    }
  }

  lemma RampReports(cfg: Config, d: Destination) returns (before: Trace, now: Instant)
    requires CanReport(cfg)
    ensures Ordered(before + [Announce(d, now)]) && RecordAnswer(cfg, before, d, now).Some?
  {
    hide Live, Times, Greedy, Reported;
    var e, k := cfg.Spacing(), cfg.threshold;
    before, now := Ramp(d, k, e), k * e;
    RampOrdered(d, k, e);
    RampFacts(cfg, d, k);
    RampStep(d, k + 1, e);
    RampIsLive(cfg, k);
    assert InWindow(cfg, before, d, now) == RampTimes(k, e);
    assert Counts(cfg, before, d, now);
    FullCount(cfg, before, d, now);
  }

  lemma RampIsLive(cfg: Config, k: nat)
    requires k == 0 || k * cfg.Spacing() < cfg.window
    ensures Live(RampTimes(k, cfg.Spacing()), k * cfg.Spacing() - cfg.window) == RampTimes(k, cfg.Spacing())
  {
    var ts := RampTimes(k, cfg.Spacing());
    forall i | 0 <= i < |ts| ensures ts[i] > k * cfg.Spacing() - cfg.window { MulMonotone(0, i, cfg.Spacing()); }
    LiveAll(ts, k * cfg.Spacing() - cfg.window);
  }

  lemma FullCount(cfg: Config, before: Trace, d: Destination, now: Instant)
    requires cfg.threshold < U32_MAX && |InWindow(cfg, before, d, now)| == cfg.threshold
    requires Counts(cfg, before, d, now) && !Reported(cfg, before, d)
    ensures RecordAnswer(cfg, before, d, now).Some?
  {
    hide Live, Times, Greedy, Reported;
  }

  lemma ReportNeedsRoom(cfg: Config, before: Trace, d: Destination, now: Instant)
    requires Ordered(before + [Announce(d, now)]) && RecordAnswer(cfg, before, d, now).Some?
    ensures CanReport(cfg)
  {
    hide Live, Times, Greedy, Reported;
    var all := before + [Announce(d, now)];
    assert forall i :: 0 <= i < |before| ==> before[i] == all[i];
    assert before != [] ==> all[|before| - 1].at <= all[|before|].at;
    var g, c, e := CountedTimes(cfg, before, d), now - cfg.window, cfg.Spacing();
    var w := Live(g, c);
    if cfg.threshold > 0 {
      CountedFacts(cfg, before, d);
      LiveSpaced(g, e, c);
      LiveBounds(g, c);
      LiveOfSorted(g, c);
      assert w[0] > c;
      assert forall k :: 0 <= k < |w| ==> w[k] >= c + 1 by {
      }
      BurstLength(w, now, e, c + 1, cfg.threshold);
    }
  }
}
