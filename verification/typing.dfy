/** The looping typing effect of the hero heading (script.js lines 123-182).

    Its state is a cursor `i` into the fixed text "Hello, I am Gab" and a
    phase flag. Each call of `typeLoop` is one `Step`: it types a character,
    erases one, or (after the full text or the empty text is reached) flips
    the phase. What a step writes to the heading is an `Effect`; the model
    keeps the visible text exactly, and the markup only where the source
    assigns it in full (the erase phase). */
module Typing {

  const Prefix: string := "Hello, I am "
  const Name: string := "Gab"
  const Text: string := Prefix + Name

  /** The lengths the period of the loop is counted from. */
  lemma TextLengths()
    ensures |Prefix| == 12 && |Name| == 3 && |Text| == 15
  {
  }

  datatype Phase = Typing | Erasing

  datatype Typer = Typer(i: int, phase: Phase)

  /** The first call, 500 ms after the page's content is loaded. */
  const Start := Typer(0, Typing)

  predicate Valid(s: Typer) {
    0 <= s.i <= |Text|
  }

  /** Markup the erase phase assigns: plain text, or the prefix followed by
      a `highlight` span around the part of the name still shown. */
  datatype Markup = Plain(text: string) | Highlighted(lead: string, marked: string)

  function MarkupText(m: Markup): string {
    match m
    case Plain(t) => t
    case Highlighted(lead, marked) => lead + marked
  }

  /** What one call does to the heading. `Append` is the typing phase's
      `innerHTML +=` of one character, possibly preceded by the opening of
      the highlight span and followed by its closing; `Assign` is the erase
      phase's full re-assignment; `Wait` is the phase flip, which writes
      nothing and only waits longer before the next call. */
  datatype Effect =
    | Append(opensSpan: bool, ch: char, closesSpan: bool)
    | Assign(markup: Markup)
    | Wait

  datatype Tick = Tick(next: Typer, effect: Effect)

  /** The markup assigned after erasing down to `j` characters. */
  function EraseMarkup(j: int): (m: Markup)
    requires 0 <= j <= |Text|
    ensures MarkupText(m) == Text[..j]
    ensures m.Highlighted? <==> j > |Prefix|
    ensures m.Highlighted? ==> m.lead == Prefix
  {
    var shown := Text[..j];
    if j <= |Prefix| then Plain(shown)
    else
      assert shown == Prefix + shown[|Prefix|..];
      Highlighted(Prefix, shown[|Prefix|..])
  }

  /** The text the heading shows in state `s`: always the first `i`
      characters, in both phases. */
  function Visible(s: Typer): string
    requires Valid(s)
  {
    Text[..s.i]
  }

  /** The visible text after an effect is applied to `shown`. */
  function Apply(shown: string, e: Effect): string {
    match e
    case Append(_, c, _) => shown + [c]
    case Assign(m) => MarkupText(m)
    case Wait => shown
  }

  /** One call of `typeLoop`. The `</span>` stripped at the first erase step
      is overwritten by the assignment in the same call, so it does not
      appear as a separate effect. */
  function Step(s: Typer): (t: Tick)
    requires Valid(s)
    ensures Valid(t.next)
    ensures Apply(Visible(s), t.effect) == Visible(t.next)
    // The phase flips exactly at the two ends of the text, and nowhere else.
    ensures t.next.phase != s.phase <==>
              (s.phase == Typing && s.i == |Text|) || (s.phase == Erasing && s.i == 0)
    ensures t.next.phase != s.phase ==> t.next.i == s.i && t.effect == Wait
    ensures t.next.phase == s.phase && s.phase == Typing ==> t.next.i == s.i + 1
    ensures t.next.phase == s.phase && s.phase == Erasing ==> t.next.i == s.i - 1
    // The span opens right before the name's first letter and closes after its last.
    ensures t.effect.Append? ==> (t.effect.opensSpan <==> s.i == |Prefix|)
    ensures t.effect.Append? ==> (t.effect.closesSpan <==> t.next.i == |Text|)
    // While erasing, the highlight span is present iff part of the name is left.
    ensures t.effect.Assign? ==> (t.effect.markup.Highlighted? <==> t.next.i > |Prefix|)
  {
    match s.phase
    case Typing =>
      if s.i < |Text| then
        var j := s.i + 1;
        assert Text[..j] == Text[..s.i] + [Text[s.i]];
        Tick(Typer(j, Typing), Append(s.i == |Prefix|, Text[s.i], j == |Text|))
      else
        Tick(Typer(s.i, Erasing), Wait)
    case Erasing =>
      if s.i > 0 then
        var j := s.i - 1;
        Tick(Typer(j, Erasing), Assign(EraseMarkup(j)))
      else
        Tick(Typer(s.i, Typing), Wait)
  }

  /** `n` consecutive calls. */
  function Run(s: Typer, n: nat): (r: Typer)
    requires Valid(s)
    ensures Valid(r)
    decreases n
  {
    if n == 0 then s else Run(Step(s).next, n - 1)
  }

  lemma {:induction false} RunAdd(s: Typer, a: nat, b: nat)
    requires Valid(s)
    ensures Run(s, a + b) == Run(Run(s, a), b)
    decreases a
  {
    if a > 0 {
      RunAdd(Step(s).next, a - 1, b);
    }
  }

  /** Typing from `k` characters reaches the full text after `|Text| - k` calls. */
  lemma {:induction false} TypesUp(k: int)
    requires 0 <= k <= |Text|
    ensures Run(Typer(k, Typing), |Text| - k) == Typer(|Text|, Typing)
    decreases |Text| - k
  {
    if k < |Text| {
      assert Step(Typer(k, Typing)).next == Typer(k + 1, Typing);
      TypesUp(k + 1);
    }
  }

  /** Erasing from `k` characters empties the heading after `k` calls. */
  lemma {:induction false} ErasesDown(k: int)
    requires 0 <= k <= |Text|
    ensures Run(Typer(k, Erasing), k) == Typer(0, Erasing)
    decreases k
  {
    if k > 0 {
      assert Step(Typer(k, Erasing)).next == Typer(k - 1, Erasing);
      ErasesDown(k - 1);
    }
  }

  /** The number of calls in one full cycle of the loop. */
  const Period: nat := 2 * |Text| + 2

  /** One full cycle: type all 15 characters, flip, erase them all, flip.
      After `Period == 32` calls the loop is back where it started. */
  lemma Cycle()
    ensures Period == 32
    ensures Run(Start, Period) == Start
  {
    TextLengths();
    var n := |Text|;
    TypesUp(0);
    assert Step(Typer(n, Typing)).next == Typer(n, Erasing);
    assert Run(Typer(n, Typing), 1) == Typer(n, Erasing);
    ErasesDown(n);
    assert Step(Typer(0, Erasing)).next == Start;
    assert Run(Typer(0, Erasing), 1) == Start;
    RunAdd(Start, n, 1);
    RunAdd(Start, n + 1, n);
    RunAdd(Start, 2 * n + 1, 1);
  }

  /** The loop is periodic: whatever number of calls has run, the state is
      the one reached within the first cycle. */
  lemma {:induction false} Periodic(n: nat)
    ensures Run(Start, n) == Run(Start, n % Period)
    decreases n
  {
    var p := Period;
    if n >= p {
      RunAdd(Start, p, n - p);
      Cycle();
      Periodic(n - p);
      assert n % p == (n - p) % p;
    }
  }
}
