/**
 * The scroll-reveal coordinator of the site script: a fixed collection of
 * `.reveal` elements, each carrying a one-way `active` flag, revealed either
 * by an intersection observer (which then stops observing the element) or by
 * polling each element's top edge against the viewport height.
 *
 * Elements are identified by their position in the collection. Geometry is
 * given as integers, one top edge per element, measured when the event fires.
 */
module Reveal {

  /** Pixels subtracted from the viewport height to obtain the reveal line. */
  const RevealPoint: int := 100

  /** The strategy chosen once, at start-up, from the runtime's capabilities. */
  datatype Strategy = EventDriven | Polling

  /** One intersection-observer entry: which element, and whether it now intersects. */
  datatype Entry = Entry(target: nat, isIntersecting: bool)

  /** The reveal state as a value: one `active` flag per element and the observed set. */
  datatype RevealState = RevealState(flags: seq<bool>, observed: set<nat>)

  /** The events the coordinator reacts to. */
  datatype RevealEvent =
    | Scroll(tops: seq<int>, windowHeight: int)
    | Load(tops: seq<int>, windowHeight: int)
    | Intersect(entries: seq<Entry>)

  /** The polling test: the element's top edge lies above the reveal line. */
  predicate InRevealZone(top: int, windowHeight: int) {
    top < windowHeight - RevealPoint
  }

  /** Every entry names one of the `n` elements. */
  predicate TargetsIn(entries: seq<Entry>, n: nat) {
    forall k :: 0 <= k < |entries| ==> entries[k].target < n
  }

  /** The first `n` element positions. */
  function Indices(n: nat): (r: set<nat>)
    ensures forall i: int :: i in r <==> 0 <= i < n
  {
    if n == 0 then {} else Indices(n - 1) + {n - 1}
  }

  /** The elements that some entry reports as intersecting. */
  function IntersectingTargets(entries: seq<Entry>): set<nat> {
    set k | 0 <= k < |entries| && entries[k].isIntersecting :: entries[k].target
  }

  /** The flags after one polling pass: each element is set if it was set or lies in the zone. */
  function Polled(flags: seq<bool>, tops: seq<int>, windowHeight: int): (r: seq<bool>)
    requires |tops| == |flags|
    ensures |r| == |flags|
    ensures forall i :: 0 <= i < |r| && flags[i] ==> r[i]
  {
    seq(|flags|, i requires 0 <= i < |flags| => flags[i] || InRevealZone(tops[i], windowHeight))
  }

  /** The observer callback's work for one entry. */
  function Deliver(s: RevealState, e: Entry): (r: RevealState)
    requires e.target < |s.flags|
    ensures |r.flags| == |s.flags|
  {
    if e.isIntersecting then RevealState(s.flags[e.target := true], s.observed - {e.target})
    else s
  }

  /** The observer callback: the entries handled in order. */
  function Callback(s: RevealState, entries: seq<Entry>): (r: RevealState)
    requires TargetsIn(entries, |s.flags|)
    ensures |r.flags| == |s.flags|
    decreases |entries|
  {
    if entries == [] then s
    else Deliver(Callback(s, entries[..|entries| - 1]), entries[|entries| - 1])
  }

  /** The state right after start-up: all elements observed, or one polling pass. */
  function Init(strategy: Strategy, tops: seq<int>, windowHeight: int): (r: RevealState)
    ensures |r.flags| == |tops|
    ensures strategy == EventDriven ==>
      (forall i :: 0 <= i < |tops| ==> !r.flags[i]) && r.observed == Indices(|tops|)
    ensures strategy == Polling ==>
      (forall i :: 0 <= i < |tops| ==> r.flags[i] == InRevealZone(tops[i], windowHeight)) && r.observed == {}
  {
    var hidden := seq(|tops|, _ => false);
    match strategy
    case EventDriven => RevealState(hidden, Indices(|tops|))
    case Polling => RevealState(Polled(hidden, tops, windowHeight), {})
  }

  /**
   * The event makes sense for `n` elements under `strategy`: geometry for each
   * element, and intersection entries only where an observer was created.
   */
  predicate Fits(strategy: Strategy, e: RevealEvent, n: nat) {
    match e
    case Scroll(tops, _) => |tops| == n
    case Load(tops, _) => |tops| == n
    case Intersect(entries) => strategy == EventDriven && TargetsIn(entries, n)
  }

  /** The state after one event: the scroll listener polls only under the fallback; load always polls. */
  function Step(strategy: Strategy, s: RevealState, e: RevealEvent): (r: RevealState)
    requires Fits(strategy, e, |s.flags|)
    ensures |r.flags| == |s.flags|
  {
    match e
    case Scroll(tops, h) => if strategy == Polling then s.(flags := Polled(s.flags, tops, h)) else s
    case Load(tops, h) => s.(flags := Polled(s.flags, tops, h))
    case Intersect(entries) => Callback(s, entries)
  }

  predicate AllFit(strategy: Strategy, events: seq<RevealEvent>, n: nat) {
    forall k :: 0 <= k < |events| ==> Fits(strategy, events[k], n)
  }

  /** The state after a sequence of events, handled in order. */
  function Run(strategy: Strategy, s: RevealState, events: seq<RevealEvent>): (r: RevealState)
    requires AllFit(strategy, events, |s.flags|)
    ensures |r.flags| == |s.flags|
    decreases |events|
  {
    if events == [] then s
    else Step(strategy, Run(strategy, s, events[..|events| - 1]), events[|events| - 1])
  }

  /** Independent description of when an event turns element `i` on. */
  predicate Reveals(strategy: Strategy, e: RevealEvent, i: nat) {
    match e
    case Scroll(tops, h) => strategy == Polling && i < |tops| && InRevealZone(tops[i], h)
    case Load(tops, h) => i < |tops| && InRevealZone(tops[i], h)
    case Intersect(entries) => i in IntersectingTargets(entries)
  }

  /**
   * The coordinator's invariant: observed elements exist; under the observer
   * every element is revealed or still observed; under polling nothing is observed.
   */
  predicate Covered(strategy: Strategy, s: RevealState) {
    (forall i :: i in s.observed ==> i < |s.flags|) &&
    match strategy
    case EventDriven => forall i :: 0 <= i < |s.flags| ==> s.flags[i] || i in s.observed
    case Polling => s.observed == {}
  }

  // ---------------------------------------------------------------------------
  // Polling
  // ---------------------------------------------------------------------------

  /** A polling pass sets exactly the elements in the zone and leaves every other flag alone. */
  lemma PollingIsAddOnly(flags: seq<bool>, tops: seq<int>, windowHeight: int)
    requires |tops| == |flags|
    ensures var r := Polled(flags, tops, windowHeight);
      |r| == |flags| &&
      (forall i :: 0 <= i < |r| && InRevealZone(tops[i], windowHeight) ==> r[i]) &&
      (forall i :: 0 <= i < |r| && !InRevealZone(tops[i], windowHeight) ==> r[i] == flags[i]) &&
      (forall i :: 0 <= i < |r| && flags[i] ==> r[i])
  {
  }

  /** Running the polling pass twice with the same geometry changes nothing the second time. */
  lemma PollingIdempotent(flags: seq<bool>, tops: seq<int>, windowHeight: int)
    requires |tops| == |flags|
    ensures Polled(Polled(flags, tops, windowHeight), tops, windowHeight) == Polled(flags, tops, windowHeight)
  {
  }

  // ---------------------------------------------------------------------------
  // Observer callback
  // ---------------------------------------------------------------------------

  lemma IntersectingTargetsSnoc(entries: seq<Entry>, e: Entry)
    ensures IntersectingTargets(entries + [e])
         == IntersectingTargets(entries) + (if e.isIntersecting then {e.target} else {})
  {
    var all := entries + [e];
    forall t | t in IntersectingTargets(all)
      ensures t in IntersectingTargets(entries) + (if e.isIntersecting then {e.target} else {})
    {
      var k :| 0 <= k < |all| && all[k].isIntersecting && all[k].target == t;
      if k < |entries| {
        assert entries[k] == all[k];
      }
    }
    forall t | t in IntersectingTargets(entries)
      ensures t in IntersectingTargets(all)
    {
      var k :| 0 <= k < |entries| && entries[k].isIntersecting && entries[k].target == t;
      assert all[k] == entries[k];
    }
    if e.isIntersecting {
      assert all[|entries|] == e;
    }
  }

  /**
   * What a callback does, whatever the order of its entries: an element ends up
   * active iff it was active or some entry reports it intersecting, and exactly
   * those intersecting elements leave the observed set.
   */
  lemma {:induction false} CallbackEffect(s: RevealState, entries: seq<Entry>)
    requires TargetsIn(entries, |s.flags|)
    ensures var r := Callback(s, entries);
      (forall i :: 0 <= i < |s.flags| ==>
        r.flags[i] == (s.flags[i] || i in IntersectingTargets(entries))) &&
      r.observed == s.observed - IntersectingTargets(entries)
    decreases |entries|
  {
    if entries == [] {
      assert IntersectingTargets(entries) == {};
    } else {
      var front := entries[..|entries| - 1];
      var last := entries[|entries| - 1];
      assert entries == front + [last];
      CallbackEffect(s, front);
      IntersectingTargetsSnoc(front, last);
    }
  }

  /** The callback never clears a flag and the observed set only shrinks. */
  lemma CallbackMonotone(s: RevealState, entries: seq<Entry>)
    requires TargetsIn(entries, |s.flags|)
    ensures var r := Callback(s, entries);
      (forall i :: 0 <= i < |s.flags| && s.flags[i] ==> r.flags[i]) &&
      r.observed <= s.observed
  {
  }

  /** A batch of entries none of which intersects changes neither the flags nor the observed set. */
  lemma CallbackNonIntersectingNoChange(s: RevealState, entries: seq<Entry>)
    requires TargetsIn(entries, |s.flags|)
    requires forall k :: 0 <= k < |entries| ==> !entries[k].isIntersecting
    ensures Callback(s, entries) == s
  {
  }

  /** Delivering the same batch again produces no further change. */
  lemma CallbackIdempotent(s: RevealState, entries: seq<Entry>)
    requires TargetsIn(entries, |s.flags|)
    ensures Callback(Callback(s, entries), entries) == Callback(s, entries)
  {
    var once := Callback(s, entries);
    CallbackEffect(s, entries);
    CallbackEffect(once, entries);
    assert Callback(once, entries).flags == once.flags;
  }

  /**
   * Under the coordinator's invariant, a repeated intersecting entry for an
   * element the observer no longer watches changes nothing: that element was
   * revealed when it was unobserved.
   */
  lemma RepeatedEntryNoChange(s: RevealState, i: nat)
    requires Covered(EventDriven, s) && i < |s.flags| && i !in s.observed
    ensures Callback(s, [Entry(i, true)]) == s
  {
  }

  // ---------------------------------------------------------------------------
  // Events and sequences of events
  // ---------------------------------------------------------------------------

  /** One event sets element `i` iff it was set or the event reveals it. */
  lemma StepEffect(strategy: Strategy, s: RevealState, e: RevealEvent, i: nat)
    requires Fits(strategy, e, |s.flags|) && i < |s.flags|
    ensures Step(strategy, s, e).flags[i] == (s.flags[i] || Reveals(strategy, e, i))
  {
    if e.Intersect? {
      CallbackEffect(s, e.entries);
    }
  }

  /** Only observer events change the observed set, and only by removing the intersecting elements. */
  lemma StepObserved(strategy: Strategy, s: RevealState, e: RevealEvent)
    requires Fits(strategy, e, |s.flags|)
    ensures Step(strategy, s, e).observed
         == if e.Intersect? then s.observed - IntersectingTargets(e.entries) else s.observed
  {
    if e.Intersect? {
      CallbackEffect(s, e.entries);
    }
  }

  /** Every event keeps the coordinator's invariant. */
  lemma StepKeepsCovered(strategy: Strategy, s: RevealState, e: RevealEvent)
    requires Covered(strategy, s) && Fits(strategy, e, |s.flags|)
    ensures Covered(strategy, Step(strategy, s, e))
  {
    var r := Step(strategy, s, e);
    forall i | 0 <= i < |s.flags| ensures r.flags[i] == (s.flags[i] || Reveals(strategy, e, i)) {
      StepEffect(strategy, s, e, i);
    }
    StepObserved(strategy, s, e);
  }

  /**
   * After any sequence of scroll, load and observer events, element `i` is
   * active iff it was active before or one of the events reveals it. So no
   * path ever clears a flag, and an element that no event reveals stays hidden.
   */
  lemma {:induction false} RunEffect(strategy: Strategy, s: RevealState, events: seq<RevealEvent>, i: nat)
    requires AllFit(strategy, events, |s.flags|) && i < |s.flags|
    ensures Run(strategy, s, events).flags[i]
         == (s.flags[i] || exists k :: 0 <= k < |events| && Reveals(strategy, events[k], i))
    decreases |events|
  {
    if events != [] {
      var front := events[..|events| - 1];
      var last := events[|events| - 1];
      RunEffect(strategy, s, front, i);
      StepEffect(strategy, Run(strategy, s, front), last, i);
      if exists k :: 0 <= k < |events| && Reveals(strategy, events[k], i) {
        var k :| 0 <= k < |events| && Reveals(strategy, events[k], i);
        if k < |front| {
          assert front[k] == events[k];
        }
      }
      if exists k :: 0 <= k < |front| && Reveals(strategy, front[k], i) {
        var k :| 0 <= k < |front| && Reveals(strategy, front[k], i);
        assert events[k] == front[k];
      }
    }
  }

  /** The observed set only ever shrinks, and the invariant holds throughout. */
  lemma {:induction false} RunKeepsCovered(strategy: Strategy, s: RevealState, events: seq<RevealEvent>)
    requires Covered(strategy, s) && AllFit(strategy, events, |s.flags|)
    ensures Run(strategy, s, events).observed <= s.observed
    ensures Covered(strategy, Run(strategy, s, events))
    decreases |events|
  {
    if events != [] {
      var front := events[..|events| - 1];
      var last := events[|events| - 1];
      RunKeepsCovered(strategy, s, front);
      var t := Run(strategy, s, front);
      StepKeepsCovered(strategy, t, last);
      StepObserved(strategy, t, last);
    }
  }

  /** Start-up establishes the invariant. */
  lemma InitCovered(strategy: Strategy, tops: seq<int>, windowHeight: int)
    ensures Covered(strategy, Init(strategy, tops, windowHeight))
  {
  }

  /** With no reveal elements, start-up registers nothing and no event changes the state. */
  lemma EmptyCollectionIdle(strategy: Strategy, windowHeight: int, e: RevealEvent)
    requires Fits(strategy, e, 0)
    ensures Init(strategy, [], windowHeight) == RevealState([], {})
    ensures Step(strategy, RevealState([], {}), e) == RevealState([], {})
  {
  }

  /**
   * The load handler polls under the observer strategy too: an element inside
   * the initial viewport is revealed by the load event alone, with no
   * intersecting entry.
   */
  lemma LoadRevealsUnderObserver()
    ensures var s := Run(EventDriven, Init(EventDriven, [0], 800), [Load([0], 800)]);
      s.flags == [true] && s.observed == {0}
  {
  }

  // ---------------------------------------------------------------------------
  // The coordinator as an object
  // ---------------------------------------------------------------------------

  class Revealer {
    const strategy: Strategy
    /** The `active` flag of each reveal element, in document order. */
    const revealed: array<bool>
    /** The elements the intersection observer still watches. */
    var observed: set<nat>

    function View(): RevealState
      reads this, revealed
    {
      RevealState(revealed[..], observed)
    }

    ghost predicate Valid()
      reads this, revealed
    {
      Covered(strategy, View())
    }

    /** Start-up: observe every element, or poll once with the initial geometry. */
    constructor (strategy: Strategy, tops: seq<int>, windowHeight: int)
      ensures this.strategy == strategy && fresh(revealed)
      ensures View() == Init(strategy, tops, windowHeight)
      ensures Valid()
    {
      this.strategy := strategy;
      revealed := new bool[|tops|](_ => false);
      observed := {};
      new;
      assert revealed[..] == seq(|tops|, _ => false);
      if strategy == EventDriven {
        var i := 0;
        while i < |tops|
          invariant 0 <= i <= |tops|
          invariant observed == Indices(i)
          modifies this
        {
          observed := observed + {i};
          i := i + 1;
        }
      } else {
        RevealCheck(tops, windowHeight);
      }
      InitCovered(strategy, tops, windowHeight);
    }

    /** One polling pass over every element. */
    method RevealCheck(tops: seq<int>, windowHeight: int)
      requires |tops| == revealed.Length
      modifies revealed
      ensures revealed[..] == Polled(old(revealed[..]), tops, windowHeight)
    {
      var i := 0;
      while i < revealed.Length
        invariant 0 <= i <= revealed.Length
        invariant forall j :: 0 <= j < i ==>
          revealed[j] == (old(revealed[j]) || InRevealZone(tops[j], windowHeight))
        invariant forall j :: i <= j < revealed.Length ==> revealed[j] == old(revealed[j])
      {
        if InRevealZone(tops[i], windowHeight) {
          revealed[i] := true;
        }
        i := i + 1;
      }
    }

    /** The scroll listener: it exists only under the polling fallback. */
    method OnScroll(tops: seq<int>, windowHeight: int)
      requires Valid() && |tops| == revealed.Length
      modifies revealed
      ensures Valid()
      ensures View() == Step(strategy, old(View()), Scroll(tops, windowHeight))
    {
      StepKeepsCovered(strategy, View(), Scroll(tops, windowHeight));
      if strategy == Polling {
        RevealCheck(tops, windowHeight);
      }
    }

    /** The page-load handler: one polling pass whatever the strategy. */
    method OnLoad(tops: seq<int>, windowHeight: int)
      requires Valid() && |tops| == revealed.Length
      modifies revealed
      ensures Valid()
      ensures View() == Step(strategy, old(View()), Load(tops, windowHeight))
    {
      StepKeepsCovered(strategy, View(), Load(tops, windowHeight));
      RevealCheck(tops, windowHeight);
    }

    /** The intersection-observer callback, handling its entries in order. */
    method OnIntersect(entries: seq<Entry>)
      requires Valid() && strategy == EventDriven && TargetsIn(entries, revealed.Length)
      modifies this, revealed
      ensures Valid()
      ensures View() == Step(strategy, old(View()), Intersect(entries))
    {
      StepKeepsCovered(strategy, View(), Intersect(entries));
      var k := 0;
      while k < |entries|
        invariant 0 <= k <= |entries|
        invariant View() == Callback(old(View()), entries[..k])
      {
        var e := entries[k];
        if e.isIntersecting {
          revealed[e.target] := true;
          observed := observed - {e.target};
        }
        assert entries[..k + 1][..k] == entries[..k];
        k := k + 1;
      }
      assert entries[..|entries|] == entries;
    }
  }
}
