/**
  The announce watchdog's mutable table (`AnnounceRateTracker` in src/bin/rnguard.rs).
  It keeps only the stamps of the current window, yet every answer equals the
  answer computed from the whole trace of calls.
 */
module AnnounceTracker {
  import opened Wrappers
  import opened Bytes
  import opened AnnounceRate

  type History = map<Destination, seq<Instant>>

  ghost function Stored(history: History, d: Destination): seq<Instant> {
    if d in history then history[d] else []
  }

  /** The stored stamps serve every window from the current one on as well as the full history does. */
  ghost predicate Agrees(cfg: Config, stored: seq<Instant>, trace: Trace, d: Destination) {
    if trace == [] then stored == []
    else Live(stored, Last(trace).at - cfg.window) == InWindow(cfg, trace, d, Last(trace).at)
  }

  /** The table refines the trace, destination by destination. */
  ghost predicate RefinesAt(cfg: Config, history: History, reported: set<Destination>, trace: Trace, d: Destination) {
    && Agrees(cfg, Stored(history, d), trace, d)
    && (d in reported <==> Reported(cfg, trace, d))
    && (d in history <==> Tracked(cfg, trace, d))
  }

  ghost predicate Refines(cfg: Config, history: History, reported: set<Destination>, trace: Trace) {
    Ordered(trace) && forall d :: RefinesAt(cfg, history, reported, trace, d)
  }

  lemma AgreesLater(cfg: Config, stored: seq<Instant>, trace: Trace, d: Destination, now: Instant)
    requires Agrees(cfg, stored, trace, d) && (trace != [] ==> Last(trace).at <= now)
    ensures Live(stored, now - cfg.window) == InWindow(cfg, trace, d, now)
  {
    hide Live, Times, Greedy;
    NothingYet(cfg, d, now);
    if trace != [] {
      LiveCompose(stored, Last(trace).at - cfg.window, now - cfg.window);
      LiveCompose(CountedTimes(cfg, trace, d), Last(trace).at - cfg.window, now - cfg.window);
    }
  }

  lemma AgreesIntro(cfg: Config, stored: seq<Instant>, before: Trace, e: Event, d: Destination, g: seq<Instant>)
    requires CountedTimes(cfg, before + [e], d) == g
    requires Live(stored, e.at - cfg.window) == Live(g, e.at - cfg.window)
    ensures Agrees(cfg, stored, before + [e], d)
  {
    hide Live, Times, Greedy;
  }

  /** A call that does not announce `d` keeps the agreement ... */
  lemma OtherCallKeeps(cfg: Config, stored: seq<Instant>, before: Trace, e: Event, d: Destination)
    requires (before != [] ==> Last(before).at <= e.at) && !(e.Announce? && e.dest == d)
    requires Agrees(cfg, stored, before, d)
    ensures Agrees(cfg, stored, before + [e], d)
  {
    hide Live, Times, Greedy;
    AgreesLater(cfg, stored, before, d, e.at);
    SameCounted(cfg, before, e, d);
    AgreesIntro(cfg, stored, before, e, d, CountedTimes(cfg, before, d));
  }

  /** ... also when it drops the stamps of `d` that left the window. */
  lemma OtherCallRetains(cfg: Config, stored: seq<Instant>, before: Trace, e: Event, d: Destination)
    requires (before != [] ==> Last(before).at <= e.at) && !(e.Announce? && e.dest == d)
    requires Agrees(cfg, stored, before, d)
    ensures Agrees(cfg, Live(stored, e.at - cfg.window), before + [e], d)
  {
    hide Live, Times, Greedy;
    AgreesLater(cfg, stored, before, d, e.at);
    LiveCompose(stored, e.at - cfg.window, e.at - cfg.window);
    SameCounted(cfg, before, e, d);
    AgreesIntro(cfg, Live(stored, e.at - cfg.window), before, e, d, CountedTimes(cfg, before, d));
  }

  /** The coalescing test on the retained stamps is the greedy rule on the full history. */
  lemma CoalescingTest(cfg: Config, before: Trace, d: Destination, now: Instant)
    requires Ordered(before) && (before != [] ==> Last(before).at <= now)
    ensures Counts(cfg, before, d, now) <==>
              var stamps := InWindow(cfg, before, d, now);
              stamps == [] || now - Last(stamps) >= cfg.coalesce
  {
    hide Live, Times, Greedy;
    CountedFacts(cfg, before, d);
    LiveOfSorted(CountedTimes(cfg, before, d), now - cfg.window);
  }

  /** An announce of `d` that counts: the retained stamps with the new one agree. */
  lemma OwnCounted(cfg: Config, stored: seq<Instant>, before: Trace, d: Destination, now: Instant)
    requires (before != [] ==> Last(before).at <= now) && Agrees(cfg, stored, before, d)
    requires Counts(cfg, before, d, now)
    ensures Agrees(cfg, Live(stored, now - cfg.window) + [now], before + [Announce(d, now)], d)
  {
    hide Live, Times, Greedy;
    AgreesLater(cfg, stored, before, d, now);
    CountedStep(cfg, before, d, now);
    KeptAgree(stored, CountedTimes(cfg, before, d), now, now - cfg.window);
    AgreesIntro(cfg, Live(stored, now - cfg.window) + [now], before, Announce(d, now), d,
      CountedTimes(cfg, before, d) + [now]);
  }

  /** An announce of `d` that is coalesced away: the retained stamps agree as they are. */
  lemma OwnCoalesced(cfg: Config, stored: seq<Instant>, before: Trace, d: Destination, now: Instant)
    requires (before != [] ==> Last(before).at <= now) && Agrees(cfg, stored, before, d)
    requires !Counts(cfg, before, d, now)
    ensures Agrees(cfg, Live(stored, now - cfg.window), before + [Announce(d, now)], d)
  {
    hide Live, Times, Greedy;
    AgreesLater(cfg, stored, before, d, now);
    CountedStep(cfg, before, d, now);
    KeptAgree(stored, CountedTimes(cfg, before, d), now, now - cfg.window);
    AgreesIntro(cfg, Live(stored, now - cfg.window), before, Announce(d, now), d, CountedTimes(cfg, before, d));
  }

  lemma KeptAgree(stored: seq<Instant>, g: seq<Instant>, now: Instant, c: Instant)
    requires Live(stored, c) == Live(g, c)
    ensures Live(Live(stored, c), c) == Live(g, c)
    ensures Live(Live(stored, c) + [now], c) == Live(g + [now], c)
  {
    LiveCompose(stored, c, c);
    LiveAppend(Live(stored, c), [now], c);
    LiveAppend(g, [now], c);
  }

  lemma ClockBefore(before: Trace, e: Event)
    requires Ordered(before + [e])
    ensures before != [] ==> Last(before).at <= e.at
  {
    var after := before + [e];
    assert before != [] ==> after[|before| - 1].at <= after[|before|].at;
  }

  lemma SubsetSize<T>(a: set<T>, b: set<T>)
    requires a <= b
    ensures |a| <= |b|
  {
    assert b == a + (b - a);
  }

  class AnnounceRateTracker {
    const cfg: Config
    var history: History
    var reported: set<Destination>
    /** Every call made so far; never read by the code. */
    ghost var trace: Trace

    ghost predicate Valid()
      reads this
    {
      Refines(cfg, history, reported, trace)
    }

    constructor (window: nat, threshold: u32, coalesce: nat)
      ensures Valid() && trace == [] && history == map[] && reported == {}
      ensures cfg == Config(window, threshold, coalesce)
    {
      cfg := Config(window, threshold, coalesce);
      history, reported, trace := map[], {}, [];
    }

    method Record(destination: Destination, now: Instant) returns (report: Option<u32>)
      requires Valid() && Ordered(trace + [Announce(destination, now)])
      modifies this
      ensures Valid() && trace == old(trace) + [Announce(destination, now)]
      ensures report == RecordAnswer(cfg, old(trace), destination, now)
    {
      hide Live, Times, Greedy, Reported, Tracked;
      ghost var before, h, r := trace, history, reported;
      assert RefinesAt(cfg, h, r, before, destination);
      ClockBefore(before, Announce(destination, now));
      AgreesLater(cfg, Stored(h, destination), before, destination, now);
      CoalescingTest(cfg, before, destination, now);
      trace := before + [Announce(destination, now)];

      var cutoff := now - cfg.window;
      var stamps := if destination in history then history[destination] else [];
      stamps := Live(stamps, cutoff);
      history := history[destination := stamps];
      report := None;
      if stamps == [] || now - Last(stamps) >= cfg.coalesce {
        stamps := stamps + [now];
        history := history[destination := stamps];
        var count := |stamps| % U32_MODULUS;
        if count > cfg.threshold && destination !in reported {
          reported := reported + {destination};
          report := Some(count);
        }
      }

      forall d ensures RefinesAt(cfg, history, reported, trace, d) {
        assert RefinesAt(cfg, h, r, before, d);
        FlagMoves(cfg, before, Announce(destination, now), d);
        if d != destination {
          OtherCallKeeps(cfg, Stored(h, d), before, Announce(destination, now), d);
        } else if Counts(cfg, before, d, now) {
          OwnCounted(cfg, Stored(h, d), before, d, now);
        } else {
          OwnCoalesced(cfg, Stored(h, d), before, d, now);
        }
      }
    }

    method Count(destination: Destination, now: Instant) returns (count: u32)
      requires Valid() && Ordered(trace + [AnnounceRate.Count(destination, now)])
      modifies this
      ensures Valid() && trace == old(trace) + [AnnounceRate.Count(destination, now)]
      ensures count == |InWindow(cfg, old(trace), destination, now)| % U32_MODULUS
    {
      hide Live, Times, Greedy, Reported, Tracked;
      ghost var before, h, e := trace, history, AnnounceRate.Count(destination, now);
      NothingYet(cfg, destination, now);
      ClockBefore(before, e);
      trace := before + [e];

      var cutoff := now - cfg.window;
      count := 0;
      if destination in history {
        var stamps := Live(history[destination], cutoff);
        history := history[destination := stamps];
        count := |stamps| % U32_MODULUS;
      }

      forall d ensures RefinesAt(cfg, history, reported, trace, d) {
        assert RefinesAt(cfg, h, reported, before, d);
        FlagMoves(cfg, before, e, d);
        OtherCallKeeps(cfg, Stored(h, d), before, e, d);
        OtherCallRetains(cfg, Stored(h, d), before, e, d);
      }
      assert RefinesAt(cfg, h, reported, before, destination);
      AgreesLater(cfg, Stored(h, destination), before, destination, now);
    }

    method Prune(now: Instant) returns (removed: nat)
      requires Valid() && Ordered(trace + [AnnounceRate.Prune(now)])
      modifies this
      ensures Valid() && trace == old(trace) + [AnnounceRate.Prune(now)]
      ensures removed == |old(history)| - |history|
      ensures forall d :: d in history <==> InWindow(cfg, old(trace), d, now) != []
    {
      hide Live, Times, Greedy, Reported, Tracked;
      ghost var before, h, r, e := trace, history, reported, AnnounceRate.Prune(now);
      NothingYet(cfg, [], now);
      ClockBefore(before, e);
      trace := before + [e];

      var cutoff := now - cfg.window;
      var size := |history|;
      var kept := map d | d in history && Live(history[d], cutoff) != [] :: Live(history[d], cutoff);
      SubsetSize(kept.Keys, history.Keys);
      removed := size - |kept|;
      history := kept;
      reported := set d | d in reported && d in history;

      forall d
        ensures RefinesAt(cfg, history, reported, trace, d)
        ensures d in history <==> InWindow(cfg, before, d, now) != []
      {
        assert RefinesAt(cfg, h, r, before, d);
        FlagMoves(cfg, before, e, d);
        OtherCallRetains(cfg, Stored(h, d), before, e, d);
        AgreesLater(cfg, Stored(h, d), before, d, now);
      }
    }

    /** Number of destinations with an entry. */
    method TrackedCount() returns (n: nat)
      requires Valid()
      ensures exists tracked: set<Destination> :: |tracked| == n && forall d :: d in tracked <==> Tracked(cfg, trace, d)
    {
      n := |history|;
      forall d ensures d in history.Keys <==> Tracked(cfg, trace, d) {
        assert RefinesAt(cfg, history, reported, trace, d);
      }
    }
  }
}
