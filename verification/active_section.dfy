/** The scroll handler that highlights the navigation link of the section
    currently in view (script.js lines 99-117).

    The handler walks the page's sections in document order and remembers
    the id of the last one whose top is at most 150 pixels below the scroll
    offset; then every navigation link gets `active-link` exactly when its
    `href` is `#` followed by that id. */
module ActiveSection {

  /** What `getAttribute` returns: `null` for a missing attribute, or its text. */
  datatype Attr = Missing | Present(value: string)

  /** A section's `offsetTop` in whole pixels and its `id` attribute. */
  datatype Section = Section(top: int, id: Attr)

  /** How far above a section's top the offset may be while it already counts. */
  const Lookahead: int := 150

  predicate Reached(offset: int, s: Section) {
    offset >= s.top - Lookahead
  }

  predicate NoneReached(offset: int, sections: seq<Section>) {
    forall k :: 0 <= k < |sections| ==> !Reached(offset, sections[k])
  }

  /** Section `j` is reached and no later section is. */
  predicate IsLastReached(offset: int, sections: seq<Section>, j: int) {
    && 0 <= j < |sections|
    && Reached(offset, sections[j])
    && forall k :: j < k < |sections| ==> !Reached(offset, sections[k])
  }

  /** The value of `current` once the `forEach` has visited `sections`:
      it starts as the empty string and each reached section overwrites it. */
  function CurrentOf(offset: int, sections: seq<Section>): (r: Attr)
    ensures NoneReached(offset, sections) ==> r == Present("")
    ensures forall j :: IsLastReached(offset, sections, j) ==> r == sections[j].id
    decreases |sections|
  {
    if |sections| == 0 then Present("")
    else
      var last := sections[|sections| - 1];
      if Reached(offset, last) then last.id
      else
        var front := sections[..|sections| - 1];
        assert forall j :: IsLastReached(offset, sections, j) ==> IsLastReached(offset, front, j);
        CurrentOf(offset, front)
  }

  /** The fragment the links are compared against. A template literal
      renders a `null` id as the four letters "null". */
  function Fragment(current: Attr): (r: string)
    ensures |r| >= 1 && r[0] == '#'
    ensures current.Present? ==> r[1..] == current.value
    ensures current.Missing? ==> r[1..] == "null"
  {
    match current
    case Missing => "#null"
    case Present(v) => "#" + v
  }

  predicate LinkMatches(href: Attr, current: Attr) {
    href == Present(Fragment(current))
  }

  /** Exactly one section, or none, is reached: there is always a last
      reached section unless nothing is reached. */
  lemma {:induction false} SomeLastReached(offset: int, sections: seq<Section>)
    requires !NoneReached(offset, sections)
    ensures exists j :: IsLastReached(offset, sections, j)
    decreases |sections|
  {
    var n := |sections|;
    if Reached(offset, sections[n - 1]) {
      assert IsLastReached(offset, sections, n - 1);
    } else {
      var front := sections[..n - 1];
      var k :| 0 <= k < n && Reached(offset, sections[k]);
      assert k < n - 1 && front[k] == sections[k];
      SomeLastReached(offset, front);
      var j :| IsLastReached(offset, front, j);
      assert IsLastReached(offset, sections, j);
    }
  }

  /** The scroll handler: the two `forEach` loops. It returns the selected
      id and, for each navigation link (given by its `href`), whether it
      ends up carrying `active-link`. */
  method OnScroll(offset: int, sections: seq<Section>, hrefs: seq<Attr>)
    returns (current: Attr, marked: seq<bool>)
    ensures NoneReached(offset, sections) ==> current == Present("")
    ensures forall j :: IsLastReached(offset, sections, j) ==> current == sections[j].id
    ensures |marked| == |hrefs|
    ensures forall k :: 0 <= k < |hrefs| ==> (marked[k] <==> LinkMatches(hrefs[k], current))
  {
    current := Present("");
    var i := 0;
    while i < |sections|
      invariant 0 <= i <= |sections|
      invariant current == CurrentOf(offset, sections[..i])
    {
      assert sections[..i + 1][..i] == sections[..i];
      if offset >= sections[i].top - Lookahead {
        current := sections[i].id;
      }
      i := i + 1;
    }
    assert sections[..i] == sections;
    marked := [];
    var k := 0;
    while k < |hrefs|
      invariant 0 <= k <= |hrefs|
      invariant |marked| == k
      invariant forall m :: 0 <= m < k ==> (marked[m] <==> LinkMatches(hrefs[m], current))
    {
      marked := marked + [hrefs[k] == Present(Fragment(current))];
      k := k + 1;
    }
  }

  /** With pairwise distinct `href`s (as on the page), at most one link is
      marked, and one is marked whenever some link points at the current id. */
  lemma DistinctLinksMarkAtMostOne(hrefs: seq<Attr>, current: Attr, marked: seq<bool>)
    requires forall a, b :: 0 <= a < b < |hrefs| ==> hrefs[a] != hrefs[b]
    requires |marked| == |hrefs|
    requires forall k :: 0 <= k < |hrefs| ==> (marked[k] <==> LinkMatches(hrefs[k], current))
    ensures forall a, b :: 0 <= a < |marked| && 0 <= b < |marked| && marked[a] && marked[b] ==> a == b
    ensures (exists k :: 0 <= k < |hrefs| && hrefs[k] == Present(Fragment(current)))
            ==> (exists k :: 0 <= k < |marked| && marked[k])
  {
  }
}
