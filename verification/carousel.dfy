/** The per-card image slider (script.js lines 510-598).

    A card's state is the index `currentSlide`, the `active` class of each
    image and of each dot, the stored interval handle `autoSlideInterval`,
    and the set of intervals that are still live. Interval ids come from a
    counter, so a newly started interval is never one already live. Each
    listener and each interval firing is one discrete step.

    Indexing past the end of `images` or `dots` yields `undefined` in
    JavaScript, and reading `classList` of it throws; the step then stops
    with everything it had already changed kept, which `Outcome.threw`
    records. */
module Carousel {

  import opened Counting

  datatype Handle = Unset | Interval(id: nat)

  datatype Slider = Slider(
    current: int,
    imageActive: seq<bool>,
    dotActive: seq<bool>,
    hasPrev: bool,
    hasNext: bool,
    handle: Handle,
    live: set<nat>,
    nextId: nat)

  datatype Outcome = Outcome(slider: Slider, threw: bool)

  /** Exactly the flag at `k` is set. */
  predicate OnlyAt(flags: seq<bool>, k: int) {
    0 <= k < |flags| && forall j :: 0 <= j < |flags| ==> (flags[j] <==> j == k)
  }

  /** "Exactly one is active" in the counting sense. */
  lemma {:induction false} OnlyAtCountsOne(flags: seq<bool>, k: int)
    requires OnlyAt(flags, k)
    ensures Count(flags, true) == 1
    decreases |flags|
  {
    var n := |flags|;
    var front := flags[..n - 1];
    if k == n - 1 {
      assert true !in front;
    } else {
      assert OnlyAt(front, k);
      OnlyAtCountsOne(front, k);
    }
  }

  /** Every flag cleared, as the two `forEach(... remove('active'))` do. */
  function AllOff(n: nat): (flags: seq<bool>)
    ensures |flags| == n && forall j :: 0 <= j < n ==> !flags[j]
  {
    seq(n, _ => false)
  }

  predicate IdsFresh(s: Slider) {
    && (forall id :: id in s.live ==> id < s.nextId)
    && (s.handle.Interval? ==> s.handle.id < s.nextId)
  }

  /** The shape the page needs: at least one image, a dot for every image,
      the index in range, and interval ids below the counter. */
  predicate Fits(s: Slider) {
    && 1 <= |s.imageActive| <= |s.dotActive|
    && 0 <= s.current < |s.imageActive|
    && IdsFresh(s)
  }

  /** `showSlide(index)`: clear every marker, pull the index back into range
      when `index` is out of range, then mark the image and then the dot at
      `currentSlide`. */
  function ShowSlide(s: Slider, index: int): (o: Outcome)
    ensures o.slider.handle == s.handle && o.slider.live == s.live && o.slider.nextId == s.nextId
    ensures o.slider.hasPrev == s.hasPrev && o.slider.hasNext == s.hasNext
    ensures |o.slider.imageActive| == |s.imageActive| && |o.slider.dotActive| == |s.dotActive|
    ensures
      var n := |s.imageActive|;
      index == s.current && 0 <= index && 1 <= n <= |s.dotActive| ==>
        && !o.threw
        && o.slider.current == (if index < n then index else 0)
        && OnlyAt(o.slider.imageActive, o.slider.current)
        && OnlyAt(o.slider.dotActive, o.slider.current)
    ensures |s.imageActive| == 0 ==> o.threw
    // Fewer dots than images: the image is marked, then reading the dot throws.
    ensures index == s.current && 0 <= index < |s.imageActive| && index >= |s.dotActive| ==>
              o.threw && OnlyAt(o.slider.imageActive, index) && forall j :: 0 <= j < |s.dotActive| ==> !o.slider.dotActive[j]
    ensures !o.threw ==> 0 <= o.slider.current < |s.imageActive| && o.slider.current < |s.dotActive|
  {
    var n := |s.imageActive|;
    var c0 := if index >= n then 0 else s.current;
    var c := if index < 0 then n - 1 else c0;
    var cleared := s.(current := c, imageActive := AllOff(n), dotActive := AllOff(|s.dotActive|));
    if !(0 <= c < n) then Outcome(cleared, true)
    else
      var withImage := cleared.(imageActive := cleared.imageActive[c := true]);
      if !(c < |s.dotActive|) then Outcome(withImage, true)
      else Outcome(withImage.(dotActive := withImage.dotActive[c := true]), false)
  }

  /** `nextSlide`: step forward, wrapping past the last image to the first. */
  function NextSlide(s: Slider): (o: Outcome)
    ensures Fits(s) ==> !o.threw && Fits(o.slider)
    ensures Fits(s) ==> o.slider.current == (s.current + 1) % |s.imageActive|
    ensures Fits(s) ==> OnlyAt(o.slider.imageActive, o.slider.current) && OnlyAt(o.slider.dotActive, o.slider.current)
    ensures o.slider.handle == s.handle && o.slider.live == s.live && o.slider.nextId == s.nextId
  {
    var c := s.current + 1;
    var c' := if c >= |s.imageActive| then 0 else c;
    ShowSlide(s.(current := c'), c')
  }

  /** `prevSlide`: step back, wrapping before the first image to the last. */
  function PrevSlide(s: Slider): (o: Outcome)
    ensures Fits(s) ==> !o.threw && Fits(o.slider)
    ensures Fits(s) ==> o.slider.current == (s.current - 1 + |s.imageActive|) % |s.imageActive|
    ensures Fits(s) ==> OnlyAt(o.slider.imageActive, o.slider.current) && OnlyAt(o.slider.dotActive, o.slider.current)
    ensures o.slider.handle == s.handle && o.slider.live == s.live && o.slider.nextId == s.nextId
  {
    var c := s.current - 1;
    var c' := if c < 0 then |s.imageActive| - 1 else c;
    ShowSlide(s.(current := c'), c')
  }

  /** `startAutoSlide`: a new interval is created and its handle stored,
      overwriting (not clearing) whatever handle was stored before. */
  function StartAutoSlide(s: Slider): (r: Slider)
    requires IdsFresh(s)
    ensures IdsFresh(r)
    ensures r.handle.Interval? && r.handle.id !in s.live
    ensures r.live == s.live + {r.handle.id}
    ensures r.current == s.current && r.imageActive == s.imageActive && r.dotActive == s.dotActive
    ensures r.hasPrev == s.hasPrev && r.hasNext == s.hasNext
  {
    s.(handle := Interval(s.nextId), live := s.live + {s.nextId}, nextId := s.nextId + 1)
  }

  /** `stopAutoSlide`: clear the stored interval; an unset handle is a no-op. */
  function StopAutoSlide(s: Slider): (r: Slider)
    ensures s.handle.Unset? ==> r.live == s.live
    ensures s.handle.Interval? ==> r.live == s.live - {s.handle.id}
    ensures r.current == s.current && r.imageActive == s.imageActive && r.dotActive == s.dotActive
    ensures r.handle == s.handle && r.nextId == s.nextId
    ensures r.hasPrev == s.hasPrev && r.hasNext == s.hasNext
  {
    match s.handle
    case Unset => s
    case Interval(h) => s.(live := s.live - {h})
  }

  /** What a manual navigation does after moving: stop, then start. */
  function Restart(o: Outcome): (r: Outcome)
    requires IdsFresh(o.slider)
  {
    if o.threw then o else Outcome(StartAutoSlide(StopAutoSlide(o.slider)), false)
  }

  /** The `mouseleave` listener as written: start without stopping. */
  function OnMouseLeave(s: Slider): (r: Slider)
    requires IdsFresh(s)
    ensures IdsFresh(r) && r.handle.Interval?
    ensures r.live == s.live + {r.handle.id} && r.handle.id !in s.live
  {
    StartAutoSlide(s)
  }

  /** The `mouseleave` listener as intended: stop before starting, as the
      manual navigation listeners do. */
  function OnMouseLeaveFixed(s: Slider): (r: Slider)
    requires IdsFresh(s)
    ensures IdsFresh(r) && r.handle.Interval?
    ensures r.live == StopAutoSlide(s).live + {r.handle.id}
    ensures s.live <= HandleIds(s.handle) ==> r.live == {r.handle.id}
  {
    StartAutoSlide(StopAutoSlide(s))
  }

  datatype Event =
    | NextButton
    | PrevButton
    | DotClick(index: nat)
    | MouseEnter
    | MouseLeave
    | Fire(id: nat)

  /** Which `mouseleave` listener the card has. */
  datatype LeaveListener = AsWritten | Fixed

  /** One event. A click on a missing button or dot, or the firing of an
      interval no longer live, does nothing. */
  function Dispatch(s: Slider, e: Event, leave: LeaveListener): (o: Outcome)
    requires IdsFresh(s)
    ensures IdsFresh(o.slider)
    ensures Fits(s) ==> Fits(o.slider) && !o.threw
    ensures Fits(s) && e.DotClick? && e.index < |s.dotActive| ==>
              o.slider.current == (if e.index < |s.imageActive| then e.index else 0)
                && OnlyAt(o.slider.imageActive, o.slider.current)
                && OnlyAt(o.slider.dotActive, o.slider.current)
    ensures Fits(s) && (e.MouseEnter? || e.MouseLeave?) ==>
              o.slider.current == s.current && o.slider.imageActive == s.imageActive
                && o.slider.dotActive == s.dotActive
  {
    match e
    case NextButton =>
      if s.hasNext then Restart(NextSlide(s)) else Outcome(s, false)
    case PrevButton =>
      if s.hasPrev then Restart(PrevSlide(s)) else Outcome(s, false)
    case DotClick(k) =>
      if k < |s.dotActive| then Restart(ShowSlide(s.(current := k), k)) else Outcome(s, false)
    case MouseEnter =>
      Outcome(StopAutoSlide(s), false)
    case MouseLeave =>
      if leave == AsWritten then Outcome(OnMouseLeave(s), false) else Outcome(OnMouseLeaveFixed(s), false)
    case Fire(id) =>
      if id in s.live then NextSlide(s) else Outcome(s, false)
  }

  /** A manual navigation (arrow or dot actually present on the card) ends
      with the previously stored interval cleared and exactly one new one
      started; nothing else is added to or removed from the live set. */
  lemma ManualNavigationRestarts(s: Slider, e: Event, leave: LeaveListener)
    requires Fits(s)
    requires (e == NextButton && s.hasNext) || (e == PrevButton && s.hasPrev)
             || (e.DotClick? && e.index < |s.dotActive|)
    ensures var r := Dispatch(s, e, leave).slider;
      && r.handle.Interval? && r.handle.id !in s.live
      && r.live == StopAutoSlide(s).live + {r.handle.id}
  {
  }

  function HandleIds(h: Handle): set<nat> {
    match h
    case Unset => {}
    case Interval(id) => {id}
  }

  /** The card as it is after `DOMContentLoaded`: index 0, markers as the
      markup has them, and autoplay started only for more than one image. */
  function Init(imageActive: seq<bool>, dotActive: seq<bool>, hasPrev: bool, hasNext: bool): (s: Slider)
    ensures s.current == 0 && IdsFresh(s)
    ensures |imageActive| > 1 ==> s.handle.Interval? && s.live == {s.handle.id}
    ensures |imageActive| <= 1 ==> s.handle.Unset? && s.live == {}
    ensures 1 <= |imageActive| <= |dotActive| ==> Fits(s)
  {
    var s0 := Slider(0, imageActive, dotActive, hasPrev, hasNext, Unset, {}, 0);
    if |imageActive| > 1 then StartAutoSlide(s0) else s0
  }

  /** The events in order; a step that threw leaves its partial changes and
      the next event is still delivered. */
  function Run(s: Slider, events: seq<Event>, leave: LeaveListener): (r: Slider)
    requires IdsFresh(s)
    ensures IdsFresh(r)
    decreases |events|
  {
    if |events| == 0 then s else Run(Dispatch(s, events[0], leave).slider, events[1..], leave)
  }

  /** With at least one image and a dot per image, the index stays in range
      through any sequence of events, whichever listener handles leaving. */
  lemma {:induction false} RunKeepsIndexInRange(s: Slider, events: seq<Event>, leave: LeaveListener)
    requires Fits(s)
    ensures Fits(Run(s, events, leave))
    ensures 0 <= Run(s, events, leave).current < |s.imageActive|
    decreases |events|
  {
    if |events| > 0 {
      var o := Dispatch(s, events[0], leave);
      RunKeepsIndexInRange(o.slider, events[1..], leave);
    }
  }

  /** After any step that re-renders (an arrow, a dot, an interval firing),
      exactly one image and exactly one dot carry `active`, both at the
      current index. */
  lemma RenderedStepMarksOne(s: Slider, e: Event, leave: LeaveListener)
    requires Fits(s)
    requires e.NextButton? || e.PrevButton? || e.DotClick? || e.Fire?
    requires e == NextButton ==> s.hasNext
    requires e == PrevButton ==> s.hasPrev
    requires e.DotClick? ==> e.index < |s.dotActive|
    requires e.Fire? ==> e.id in s.live
    ensures var r := Dispatch(s, e, leave).slider;
      && Count(r.imageActive, true) == 1 && Count(r.dotActive, true) == 1
      && OnlyAt(r.imageActive, r.current) && OnlyAt(r.dotActive, r.current)
  {
    var r := Dispatch(s, e, leave).slider;
    assert OnlyAt(r.imageActive, r.current) && OnlyAt(r.dotActive, r.current);
    OnlyAtCountsOne(r.imageActive, r.current);
    OnlyAtCountsOne(r.dotActive, r.current);
  }

  /** With the corrected listener, at most one interval is ever live: the
      live set is always within the stored handle. */
  predicate AtMostStored(s: Slider) {
    s.live <= HandleIds(s.handle)
  }

  lemma FixedDispatchKeepsOneTimer(s: Slider, e: Event)
    requires IdsFresh(s) && AtMostStored(s)
    ensures AtMostStored(Dispatch(s, e, Fixed).slider)
  {
  }

  lemma {:induction false} FixedRunKeepsOneTimer(s: Slider, events: seq<Event>)
    requires IdsFresh(s) && AtMostStored(s)
    ensures AtMostStored(Run(s, events, Fixed))
    ensures |Run(s, events, Fixed).live| <= 1
    decreases |events|
  {
    if |events| == 0 {
      if s.handle.Interval? && s.handle.id in s.live {
        assert s.live == {s.handle.id};
      } else {
        assert s.live == {};
      }
    } else {
      FixedDispatchKeepsOneTimer(s, events[0]);
      FixedRunKeepsOneTimer(Dispatch(s, events[0], Fixed).slider, events[1..]);
    }
  }

  /** With the corrected listener, a manual navigation leaves exactly one
      live interval. */
  lemma FixedManualNavigationLeavesOne(s: Slider, e: Event)
    requires Fits(s) && AtMostStored(s)
    requires (e == NextButton && s.hasNext) || (e == PrevButton && s.hasPrev)
             || (e.DotClick? && e.index < |s.dotActive|)
    ensures |Dispatch(s, e, Fixed).slider.live| == 1
  {
  }

  /** The listener as written leaks: on a two-image card, hovering, clicking
      the next arrow (which restarts autoplay while the pointer is still on
      the card) and leaving leaves two intervals running. */
  lemma HoverClickLeaveLeaks()
    ensures var s := Init([true, false], [true, false], true, true);
      |Run(s, [MouseEnter, NextButton, MouseLeave], AsWritten).live| == 2
  {
  }
}
