/** The scroll throttle of `initParallaxOrbs`: a scroll event asks for an
    animation frame only while no request is outstanding (`ticking` is
    false) and sets `ticking`; the frame callback recomputes the orb
    offsets and clears `ticking`. The offsets themselves are left abstract:
    the model counts how often they are recomputed. */
module Parallax {

  /** Viewports narrower than this many CSS pixels get no parallax. */
  const MobileBreakpoint: int := 768

  /** Whether the scroll listener is attached: not under a reduced-motion
      preference, not below the mobile breakpoint. Decided once. */
  function ListenerAttached(prefersReducedMotion: bool, innerWidth: int): (attached: bool)
    ensures prefersReducedMotion ==> !attached
    ensures innerWidth < MobileBreakpoint ==> !attached
    ensures !prefersReducedMotion && innerWidth >= MobileBreakpoint ==> attached
  {
    !prefersReducedMotion && !(innerWidth < MobileBreakpoint)
  }

  /** What reaches the page: a raw scroll event, or a display frame that
      runs the animation-frame callbacks requested before it. */
  datatype Event = Scroll | Frame

  /** `ticking`, the number of requested frame callbacks that have not run
      yet, and how many times the orb offsets have been recomputed. */
  datatype Throttle = Throttle(ticking: bool, pending: nat, recomputes: nat)

  const Idle: Throttle := Throttle(false, 0, 0)

  /** The effect of one event. */
  function StepEvent(attached: bool, s: Throttle, ev: Event): (r: Throttle)
    ensures ev.Scroll? && (s.ticking || !attached) ==> r == s
    ensures ev.Frame? ==> !r.ticking || s.pending == 0
    ensures r.recomputes >= s.recomputes
  {
    match ev
    case Scroll =>
      if attached && !s.ticking then Throttle(true, s.pending + 1, s.recomputes) else s
    case Frame =>
      // every outstanding callback runs, recomputes once and clears `ticking`
      if s.pending > 0 then Throttle(false, 0, s.recomputes + s.pending) else s
  }

  /** The state after `events`, starting from page load. */
  function Replay(attached: bool, events: seq<Event>): (r: Throttle)
    ensures r.recomputes + r.pending <= |events|
  {
    if events == [] then Idle
    else StepEvent(attached, Replay(attached, events[..|events| - 1]), events[|events| - 1])
  }

  /** `ticking` is set exactly while one frame callback is outstanding. */
  ghost predicate Coherent(s: Throttle)
  {
    s.pending <= 1 && (s.ticking <==> s.pending == 1)
  }

  /** Every reachable state is coherent: at most one frame callback is
      ever outstanding, and `ticking` says whether there is one. */
  lemma {:induction false} ReplayCoherent(attached: bool, events: seq<Event>)
    ensures Coherent(Replay(attached, events))
  {
    if events != [] {
      ReplayCoherent(attached, events[..|events| - 1]);
    }
  }

  /** How many of `events` are `ev`. */
  function CountOf(events: seq<Event>, ev: Event): (n: nat)
    ensures n <= |events|
  {
    if events == [] then 0
    else CountOf(events[..|events| - 1], ev) + (if events[|events| - 1] == ev then 1 else 0)
  }

  /** The orbs are recomputed at most once per frame and at most once per
      scroll event, however the two interleave. */
  lemma {:induction false} RecomputesBounded(attached: bool, events: seq<Event>)
    ensures Replay(attached, events).recomputes <= CountOf(events, Frame)
    ensures Replay(attached, events).recomputes + Replay(attached, events).pending
            <= CountOf(events, Scroll)
  {
    if events != [] {
      var init := events[..|events| - 1];
      RecomputesBounded(attached, init);
      ReplayCoherent(attached, init);
    }
  }

  /** Without the listener, no scroll ever schedules or recomputes anything. */
  lemma {:induction false} DetachedNeverRecomputes(events: seq<Event>)
    ensures Replay(false, events) == Idle
  {
    if events != [] {
      DetachedNeverRecomputes(events[..|events| - 1]);
    }
  }

  /** `k` scroll events. */
  function Scrolls(k: nat): (r: seq<Event>)
    ensures |r| == k && forall i :: 0 <= i < k ==> r[i] == Scroll
  {
    seq(k, _ => Scroll)
  }

  /** After scroll events, the scroll listener has a frame callback
      outstanding, however many of the scrolls there were. */
  lemma {:induction false} ScrollsLeaveOnePending(history: seq<Event>, k: nat)
    requires 1 <= k
    ensures Replay(true, history + Scrolls(k)).ticking
    ensures Replay(true, history + Scrolls(k)).pending == 1
    ensures Replay(true, history + Scrolls(k)).recomputes == Replay(true, history).recomputes
  {
    var events := history + Scrolls(k);
    assert events[..|events| - 1] == history + Scrolls(k - 1);
    ReplayCoherent(true, history);
    if k > 1 {
      ScrollsLeaveOnePending(history, k - 1);
    } else {
      assert history + Scrolls(0) == history;
    }
  }

  /** Coalescing: any number k >= 1 of scroll events followed by one frame
      cause exactly one recompute, and leave `ticking` clear. */
  lemma Coalescing(history: seq<Event>, k: nat)
    requires 1 <= k
    ensures Replay(true, history + Scrolls(k) + [Frame]).recomputes
            == Replay(true, history).recomputes + 1
    ensures Replay(true, history + Scrolls(k) + [Frame]) ==
            Throttle(false, 0, Replay(true, history).recomputes + 1)
  {
    var events := history + Scrolls(k) + [Frame];
    assert events[..|events| - 1] == history + Scrolls(k);
    ScrollsLeaveOnePending(history, k);
  }

  /** The listener state of `initParallaxOrbs`. */
  class ParallaxOrbs {
    const attached: bool
    var ticking: bool
    var pending: nat
    var recomputes: nat
    /** Every event that has reached the page, oldest first. */
    ghost var events: seq<Event>

    ghost predicate Valid()
      reads this
    {
      Throttle(ticking, pending, recomputes) == Replay(attached, events)
    }

    constructor (prefersReducedMotion: bool, innerWidth: int)
      ensures Valid() && events == []
      ensures attached == ListenerAttached(prefersReducedMotion, innerWidth)
      ensures !ticking && pending == 0 && recomputes == 0
    {
      attached := ListenerAttached(prefersReducedMotion, innerWidth);
      ticking, pending, recomputes := false, 0, 0;
      events := [];
    }

    /** A raw scroll event; `scheduled` says whether a frame was requested. */
    method OnScroll() returns (scheduled: bool)
      requires Valid()
      modifies this
      ensures Valid() && events == old(events) + [Scroll]
      ensures scheduled <==> attached && !old(ticking)
      ensures ticking == (attached || old(ticking))
      ensures recomputes == old(recomputes)
      ensures pending <= 1
    {
      ReplayCoherent(attached, events);
      ghost var next := events + [Scroll];
      assert next[..|next| - 1] == events;
      assert Replay(attached, next) == StepEvent(attached, Replay(attached, events), Scroll);
      scheduled := false;
      if attached && !ticking {
        pending := pending + 1;
        ticking := true;
        scheduled := true;
      }
      events := next;
    }

    /** A display frame; `ran` says whether the frame callback ran. */
    method OnFrame() returns (ran: bool)
      requires Valid()
      modifies this
      ensures Valid() && events == old(events) + [Frame]
      ensures ran <==> old(ticking)
      ensures !ticking && pending == 0
      ensures recomputes == old(recomputes) + (if ran then 1 else 0)
    {
      ReplayCoherent(attached, events);
      ghost var next := events + [Frame];
      assert next[..|next| - 1] == events;
      assert Replay(attached, next) == StepEvent(attached, Replay(attached, events), Frame);
      ran := false;
      if pending > 0 {
        recomputes := recomputes + pending;
        pending := 0;
        ticking := false;
        ran := true;
      }
      events := next;
    }
  }
}
