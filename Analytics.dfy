/** The page's analytics: the events it reports, `trackEvent` as an
    append-only log, the page-view and time-on-page events, and the
    scroll-depth tracker that reports each of the 25, 50, 75 and 100 per cent
    marks once. */
module Analytics {

  /** The events reported through `trackEvent`, each with its data. */
  datatype Event =
    | PageView(page: string, referrer: string)
    | ScrollDepth(percent: int)
    | TimeOnPage(seconds: int)
    | FormSubmit(zipCode: string, householdSize: string)
    | Qualified(claimId: int, zipCode: string)
  {
    /** The event name passed as `trackEvent`'s first argument. */
    function Name(): string {
      match this
      case PageView(_, _) => "page_view"
      case ScrollDepth(_) => "scroll_depth"
      case TimeOnPage(_) => "time_on_page"
      case FormSubmit(_, _) => "form_submit"
      case Qualified(_, _) => "qualified"
    }
  }

  /** Every event `trackEvent` is given, in order. The sinks it feeds (a
      console line on localhost, and the analytics services left commented
      out) all see this sequence. */
  class EventLog {
    var events: seq<Event>

    constructor()
      ensures events == []
    {
      events := [];
    }

    method Track(e: Event)
      modifies this
      ensures events == old(events) + [e]
    {
      events := events + [e];
    }
  }

  /** The page view reported on load: the path, and the referrer or `direct`
      when there is none (an empty referrer is falsy). The event always
      carries a referrer, and the referrer it carries is the page's own
      whenever the page has one. */
  function PageViewEvent(path: string, referrer: string): (e: Event)
    ensures e.Name() == "page_view" && e.page == path
    ensures e.referrer != []
    ensures referrer != [] ==> e.referrer == referrer
    ensures e.referrer != referrer ==> referrer == [] && e.referrer == "direct"
  {
    PageView(path, if referrer == [] then "direct" else referrer)
  }

  /** `Math.round(elapsed / 1000)` for a non-negative whole number of
      milliseconds: the nearest second, halves rounded up. */
  function TimeOnPageSeconds(elapsedMs: nat): (s: nat)
    ensures s * 1000 <= elapsedMs + 500 < s * 1000 + 1000
  {
    (elapsedMs + 500) / 1000
  }

  /** The scroll-depth marks, in the order the tracker visits them. */
  const Thresholds: seq<int> := [25, 50, 75, 100]

  predicate StrictlyIncreasing(s: seq<int>) {
    forall i, j :: 0 <= i < j < |s| ==> s[i] < s[j]
  }

  /** The marks of `ts`, in order, that a scroll to `p` reports when the
      marks in `tracked` have already been reported. */
  function Crossed(ts: seq<int>, tracked: set<int>, p: int): seq<int> {
    if ts == [] then []
    else Crossed(ts[..|ts| - 1], tracked, p) + Mark(ts[|ts| - 1], tracked, p)
  }

  /** Mark `t` if a scroll to `p` reports it. */
  function Mark(t: int, tracked: set<int>, p: int): seq<int> {
    if t <= p && t !in tracked then [t] else []
  }

  /** A scroll reports exactly the marks at or below it not reported yet. */
  lemma {:induction false} CrossedMembers(ts: seq<int>, tracked: set<int>, p: int)
    ensures forall t :: t in Crossed(ts, tracked, p) <==> t in ts && t <= p && t !in tracked
  {
    if ts != [] {
      var init := ts[..|ts| - 1];
      CrossedMembers(init, tracked, p);
      assert ts == init + [ts[|ts| - 1]];
    }
  }

  /** Over the page's four marks, `Crossed` visits them in turn. */
  lemma {:induction false} CrossedThresholds(tracked: set<int>, p: int)
    ensures Crossed(Thresholds, tracked, p) ==
            Mark(25, tracked, p) + Mark(50, tracked, p) + Mark(75, tracked, p) + Mark(100, tracked, p)
  {
    var s1, s2, s3: seq<int> := [25], [25, 50], [25, 50, 75];
    assert s1[..0] == [] && s2[..1] == s1 && s3[..2] == s2 && Thresholds[..3] == s3;
    assert Crossed(s1, tracked, p) == Mark(25, tracked, p);
    assert Crossed(s2, tracked, p) == Crossed(s1, tracked, p) + Mark(50, tracked, p);
    assert Crossed(s3, tracked, p) == Crossed(s2, tracked, p) + Mark(75, tracked, p);
    assert Crossed(Thresholds, tracked, p) == Crossed(s3, tracked, p) + Mark(100, tracked, p);
  }

  /** The `scroll_depth` events reporting the marks `ts`, in order. */
  function DepthEvents(ts: seq<int>): seq<Event> {
    seq(|ts|, i requires 0 <= i < |ts| => ScrollDepth(ts[i]))
  }

  /** The marks up to `m`, in order: what a tracker whose maximum is `m` has
      reported so far. */
  function Reached(m: int): seq<int> {
    Crossed(Thresholds, {}, m)
  }

  function Elems(s: seq<int>): set<int> {
    set t | t in s
  }

  /** The scroll listener's closure: the greatest percentage seen so far and
      the set of marks already reported. */
  class ScrollTracker {
    const log: EventLog
    var maxScroll: int
    var tracked: set<int>
    /** The marks reported so far, in the order they were reported. */
    ghost var fired: seq<int>

    /** The maximum starts at 0 and only grows; the marks reported are
        exactly those up to it, each once, in increasing order. */
    ghost predicate Valid()
      reads this
    {
      && maxScroll >= 0
      && fired == Reached(maxScroll)
      && tracked == Elems(fired)
    }

    constructor(log: EventLog)
      ensures Valid()
      ensures this.log == log && maxScroll == 0 && tracked == {} && fired == []
    {
      this.log := log;
      maxScroll := 0;
      tracked := {};
      fired := [];
      new;
      ReachedNothingAtZero();
    }

    /** The scroll listener, given the rounded percentage scrolled. */
    method Update(percent: int)
      requires Valid()
      modifies this, log
      ensures Valid()
      ensures percent <= old(maxScroll) ==>
                maxScroll == old(maxScroll) && tracked == old(tracked) && fired == old(fired)
                && log.events == old(log.events)
      ensures percent > old(maxScroll) ==>
                var newly := Crossed(Thresholds, old(tracked), percent);
                && maxScroll == percent
                && fired == old(fired) + newly
                && tracked == old(tracked) + Elems(newly)
                && log.events == old(log.events) + DepthEvents(newly)
    {
      if percent > maxScroll {
        ghost var m, fired0 := maxScroll, fired;
        maxScroll := percent;
        Report(percent);
        ReachedGrows(m, percent);
        ElemsAppend(fired0, Crossed(Thresholds, Elems(fired0), percent));
      }
    }

    /** The `forEach` over the marks: each mark at or below `percent` that
        is not yet tracked is added to the set and reported, in order. */
    method Report(percent: int)
      modifies this, log
      ensures maxScroll == old(maxScroll)
      ensures var newly := Crossed(Thresholds, old(tracked), percent);
                && tracked == old(tracked) + Elems(newly)
                && fired == old(fired) + newly
                && log.events == old(log.events) + DepthEvents(newly)
    {
      ghost var tracked0, fired0, events0 := tracked, fired, log.events;
      ghost var newly: seq<int> := [];
      var i := 0;
      while i < |Thresholds|
        invariant 0 <= i <= |Thresholds|
        invariant newly == Crossed(Thresholds[..i], tracked0, percent)
        invariant tracked == tracked0 + Elems(newly)
        invariant fired == fired0 + newly
        invariant log.events == events0 + DepthEvents(newly)
        invariant maxScroll == old(maxScroll)
      {
        var t := Thresholds[i];
        ghost var mark := Mark(t, tracked0, percent);
        assert Mark(t, tracked, percent) == mark by {
          DistinctAfter(i);
          CrossedMembers(Thresholds[..i], tracked0, percent);
        }
        ghost var eventsBefore, firedBefore := log.events, fired;
        Visit(t, percent);
        ghost var eventsAfter, firedAfter := log.events, fired;
        assert Crossed(Thresholds[..i + 1], tracked0, percent) == newly + mark by {
          CrossedStep(i, tracked0, percent);
        }
        assert tracked == tracked0 + Elems(newly + mark) by {
          AppendMark(newly, mark);
        }
        assert firedAfter == firedBefore + mark;
        assert firedAfter == fired0 + (newly + mark) by {
          assert (fired0 + newly) + mark == fired0 + (newly + mark);
        }
        assert eventsAfter == eventsBefore + DepthEvents(mark);
        assert eventsAfter == events0 + DepthEvents(newly + mark) by {
          AppendMark(newly, mark);
          assert (events0 + DepthEvents(newly)) + DepthEvents(mark) == events0 + (DepthEvents(newly) + DepthEvents(mark));
        }
        newly := newly + mark;
        i := i + 1;
      }
      assert Thresholds[..i] == Thresholds;
    }

    /** One turn of the `forEach`: mark `t` is added and reported when it is
        at or below `percent` and not yet tracked. */
    method Visit(t: int, percent: int)
      modifies this, log
      ensures maxScroll == old(maxScroll)
      ensures tracked == old(tracked) + Elems(Mark(t, old(tracked), percent))
      ensures fired == old(fired) + Mark(t, old(tracked), percent)
      ensures log.events == old(log.events) + DepthEvents(Mark(t, old(tracked), percent))
    {
      if t <= percent && t !in tracked {
        tracked := tracked + {t};
        fired := fired + [t];
        log.Track(ScrollDepth(t));
        assert DepthEvents([t]) == [ScrollDepth(t)];
      } else {
        assert fired + [] == fired;
        assert log.events + [] == log.events;
      }
    }
  }

  /** One more turn of the tracker's loop looks at one more mark. */
  lemma {:induction false} CrossedStep(i: nat, tracked: set<int>, p: int)
    requires i < |Thresholds|
    ensures Crossed(Thresholds[..i + 1], tracked, p) ==
            Crossed(Thresholds[..i], tracked, p) + Mark(Thresholds[i], tracked, p)
  {
    assert Thresholds[..i + 1][..i] == Thresholds[..i];
  }

  /** Reporting one more mark (or none) adds its event and its member. */
  lemma {:induction false} AppendMark(s: seq<int>, mark: seq<int>)
    requires |mark| <= 1
    ensures DepthEvents(s + mark) == DepthEvents(s) + DepthEvents(mark)
    ensures Elems(s + mark) == Elems(s) + Elems(mark)
  {
    if mark == [] {
      assert s + mark == s;
    } else {
      assert (s + mark)[..|s|] == s;
    }
  }

  lemma {:induction false} ElemsAppend(s: seq<int>, t: seq<int>)
    ensures Elems(s + t) == Elems(s) + Elems(t)
  {
  }

  /** No mark lies at or below 0. */
  lemma {:induction false} ReachedNothingAtZero()
    ensures Reached(0) == []
  {
    CrossedThresholds({}, 0);
  }

  /** A mark met later in the loop was not among those met before it, so
      adding marks during the loop never changes a later membership test. */
  lemma {:induction false} DistinctAfter(i: nat)
    requires i < |Thresholds|
    ensures Thresholds[i] !in Thresholds[..i]
  {
  }

  /** The marks reported up to `m` are reported in increasing order, so none
      is reported twice. */
  lemma {:induction false} ReachedIncreasing(m: int)
    ensures StrictlyIncreasing(Reached(m))
    ensures forall i, j :: 0 <= i < j < |Reached(m)| ==> Reached(m)[i] != Reached(m)[j]
  {
    CrossedThresholds({}, m);
  }

  /** Raising the maximum from `m` to `p` reports exactly the marks in
      between, after those reported before. */
  lemma {:induction false} ReachedGrows(m: int, p: int)
    requires m < p
    ensures Reached(m) + Crossed(Thresholds, Elems(Reached(m)), p) == Reached(p)
  {
    CrossedMembers(Thresholds, {}, m);
    CrossedSplit(Thresholds, Elems(Reached(m)), m, p);
  }

  /** Over increasing marks, those up to `m` followed by those above `m`
      (the ones not in `tracked`) are the marks up to `p`. */
  lemma {:induction false} CrossedSplit(ts: seq<int>, tracked: set<int>, m: int, p: int)
    requires m < p && StrictlyIncreasing(ts)
    requires forall t :: t in ts ==> (t in tracked <==> t <= m)
    ensures Crossed(ts, {}, m) + Crossed(ts, tracked, p) == Crossed(ts, {}, p)
  {
    if ts != [] {
      var init, t := ts[..|ts| - 1], ts[|ts| - 1];
      assert forall u :: u in init ==> u in ts;
      assert StrictlyIncreasing(init);
      if t <= m {
        assert forall u :: u in init ==> u < t;
        CrossedNone(init, tracked, p);
        CrossedSame(init, m, p);
      } else {
        CrossedSplit(init, tracked, m, p);
        assert Mark(t, {}, m) == [] && Mark(t, tracked, p) == Mark(t, {}, p);
        assert Crossed(ts, {}, m) == Crossed(init, {}, m);
      }
    }
  }

  /** Marks that are all tracked report nothing. */
  lemma {:induction false} CrossedNone(ts: seq<int>, tracked: set<int>, p: int)
    requires forall t :: t in ts ==> t in tracked
    ensures Crossed(ts, tracked, p) == []
  {
    if ts != [] {
      assert forall u :: u in ts[..|ts| - 1] ==> u in ts;
      CrossedNone(ts[..|ts| - 1], tracked, p);
    }
  }

  /** Marks that all lie at or below `m` are reported alike by any scroll
      to `m` or beyond. */
  lemma {:induction false} CrossedSame(ts: seq<int>, m: int, p: int)
    requires m <= p && forall t :: t in ts ==> t <= m
    ensures Crossed(ts, {}, m) == Crossed(ts, {}, p)
  {
    if ts != [] {
      var init, t := ts[..|ts| - 1], ts[|ts| - 1];
      assert forall u :: u in init ==> u in ts;
      assert t in ts;
      CrossedSame(init, m, p);
      assert Mark(t, {}, m) == [t] == Mark(t, {}, p);
    }
  }

  /** A new maximum reports a mark only when that mark lies above the old
      maximum and at or below the new percentage. */
  lemma {:induction false} ReportedMarksLieBetween(m: int, p: int)
    ensures forall t :: t in Crossed(Thresholds, Elems(Reached(m)), p) <==>
              t in Thresholds && m < t <= p
  {
    CrossedMembers(Thresholds, {}, m);
    CrossedMembers(Thresholds, Elems(Reached(m)), p);
  }

  /** The marks the example sequence 10, 30, 28, 80 crosses at each new
      maximum. */
  lemma {:induction false} ExampleCrossings()
    ensures Crossed(Thresholds, {}, 10) == []
    ensures Crossed(Thresholds, {}, 30) == [25]
    ensures Crossed(Thresholds, {25}, 80) == [50, 75]
  {
    CrossedThresholds({}, 10);
    CrossedThresholds({}, 30);
    CrossedThresholds({25}, 80);
    assert Mark(25, {25}, 80) == [] && Mark(100, {25}, 80) == [];
  }

  /** The example sequence 10, 30, 28, 80: nothing, then 25, then nothing,
      then 50 and 75. */
  method ScrollExample()
  {
    var log := new EventLog();
    var tracker := new ScrollTracker(log);
    ExampleCrossings();
    assert DepthEvents([25]) == [ScrollDepth(25)];
    assert DepthEvents([50, 75]) == [ScrollDepth(50), ScrollDepth(75)];
    assert Elems([25]) == {25};
    tracker.Update(10);
    assert tracker.tracked == {} && log.events == [];
    tracker.Update(30);
    assert tracker.tracked == {25} && log.events == [ScrollDepth(25)];
    tracker.Update(28);
    assert tracker.tracked == {25} && log.events == [ScrollDepth(25)];
    tracker.Update(80);
    assert log.events == [ScrollDepth(25)] + [ScrollDepth(50), ScrollDepth(75)];
  }
}
