/** The hamburger menu controller (script.js lines 13-28 and 57-76).

    The page state it touches is three flags: the burger icon's `active`
    class, the navigation panel's `active` class, and whether body scrolling
    is locked (`overflow: hidden`). Every user event is modelled as one
    dispatch through the listeners in the order the browser runs them: the
    clicked element's own listener first, then the document's listener the
    click bubbles up to. */
module Menu {

  datatype MenuState = MenuState(burgerActive: bool, navActive: bool, scrollLocked: bool)

  /** The state the page loads in: no `active` class anywhere, scrolling free. */
  const Closed := MenuState(false, false, false)

  /** The menu is open exactly when the navigation panel carries `active`. */
  predicate IsOpen(m: MenuState) {
    m.navActive
  }

  /** The burger, the panel and the scroll lock all agree. */
  predicate Consistent(m: MenuState) {
    m.burgerActive == m.navActive == m.scrollLocked
  }

  /** `toggleMenu`: both classes are flipped, and the scroll lock is derived
      from the panel's state read before the flip, so it always ends up
      matching the panel, whatever the burger says. */
  function Toggle(m: MenuState): (r: MenuState)
    ensures r.navActive != m.navActive && r.burgerActive != m.burgerActive
    ensures r.scrollLocked == r.navActive
    ensures Consistent(m) ==> Consistent(r)
  {
    var wasOpen := m.navActive;
    MenuState(!m.burgerActive, !m.navActive, if wasOpen then false else true)
  }

  /** `closeMenu`: removes both classes and clears the overflow style. */
  function Close(m: MenuState): (r: MenuState)
    ensures Consistent(r) && !IsOpen(r)
    ensures !r.burgerActive && !r.scrollLocked
  {
    m.(burgerActive := false, navActive := false, scrollLocked := false)
  }

  /** The document-level click listener: it closes the menu unless the click
      target lies inside the burger icon or the navigation panel. */
  function OnDocumentClick(m: MenuState, insideBurger: bool, insideNav: bool): (r: MenuState)
    ensures insideBurger || insideNav ==> r == m
    ensures !insideBurger && !insideNav ==> r == Close(m)
  {
    if !insideBurger && !insideNav then Close(m) else m
  }

  /** The document-level keydown listener: only the key named "Escape" closes. */
  function OnKeyDown(m: MenuState, key: string): (r: MenuState)
    ensures key != "Escape" ==> r == m
    ensures key == "Escape" ==> r == Close(m)
  {
    if key == "Escape" then Close(m) else m
  }

  /** Where a click lands. A `NavLink` is one of the `.nav-menu a` links,
      which lie inside the navigation panel; `NavPanel` is any other point
      of the panel. A `CarouselControl` is a slider arrow or dot, whose
      listener stops propagation before the document sees the click. */
  datatype Target = BurgerIcon | NavLink | NavPanel | CarouselControl | Elsewhere

  datatype Event = Click(target: Target) | KeyDown(key: string)

  /** Whether an event leaves an open menu open. */
  predicate KeepsOpen(e: Event) {
    match e
    case Click(t) => t == NavPanel || t == CarouselControl
    case KeyDown(k) => k != "Escape"
  }

  /** One event, run through every listener it reaches in bubbling order. */
  function Dispatch(m: MenuState, e: Event): (r: MenuState)
    ensures Consistent(m) ==> Consistent(r)
    ensures Consistent(m) && e == Click(BurgerIcon) ==> IsOpen(r) == !IsOpen(m)
    ensures Consistent(m) && e != Click(BurgerIcon) ==> (IsOpen(r) <==> IsOpen(m) && KeepsOpen(e))
  {
    match e
    case Click(BurgerIcon) => OnDocumentClick(Toggle(m), true, false)
    case Click(NavLink) => OnDocumentClick(Close(m), false, true)
    case Click(NavPanel) => OnDocumentClick(m, false, true)
    case Click(CarouselControl) => m
    case Click(Elsewhere) => OnDocumentClick(m, false, false)
    case KeyDown(k) => OnKeyDown(m, k)
  }

  /** A finite sequence of events, dispatched in order. */
  function Run(m: MenuState, events: seq<Event>): MenuState
    decreases |events|
  {
    if |events| == 0 then m else Run(Dispatch(m, events[0]), events[1..])
  }

  /** From a consistent state (in particular from `Closed`), burger, panel
      and scroll lock agree after any sequence of events. */
  lemma {:induction false} RunKeepsConsistent(m: MenuState, events: seq<Event>)
    requires Consistent(m)
    ensures Consistent(Run(m, events))
    decreases |events|
  {
    if |events| > 0 {
      RunKeepsConsistent(Dispatch(m, events[0]), events[1..]);
    }
  }

  /** The page's own starting point is covered. */
  lemma FromClosedConsistent(events: seq<Event>)
    ensures Consistent(Run(Closed, events))
    ensures IsOpen(Run(Closed, events)) <==> Run(Closed, events).scrollLocked
  {
    RunKeepsConsistent(Closed, events);
  }

  /** Closing twice is the same as closing once. */
  lemma CloseIdempotent(m: MenuState)
    ensures Close(Close(m)) == Close(m)
    ensures Close(m) == Closed
  {
  }

  /** Toggling twice restores a consistent state. */
  lemma ToggleTwice(m: MenuState)
    requires Consistent(m)
    ensures Toggle(Toggle(m)) == m
  {
  }

  /** Events that never reach `closeMenu` and are not the burger leave the
      state exactly as it was, consistent or not. */
  lemma IgnoredEventsChangeNothing(m: MenuState, e: Event)
    requires e == Click(NavPanel) || e == Click(CarouselControl) || (e.KeyDown? && e.key != "Escape")
    ensures Dispatch(m, e) == m
  {
  }

  /** A run consisting only of ignored events changes nothing. */
  lemma {:induction false} IgnoredRunChangesNothing(m: MenuState, events: seq<Event>)
    requires forall k :: 0 <= k < |events| ==> KeepsOpen(events[k])
    ensures Run(m, events) == m
    decreases |events|
  {
    if |events| > 0 {
      IgnoredEventsChangeNothing(m, events[0]);
      var rest := events[1..];
      assert forall k :: 0 <= k < |rest| ==> KeepsOpen(rest[k]) by {
        forall k | 0 <= k < |rest|
          ensures KeepsOpen(rest[k])
        {
          assert rest[k] == events[k + 1];
        }
      }
      IgnoredRunChangesNothing(m, rest);
    }
  }
}
