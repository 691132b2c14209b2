# Portfolio page behaviour, modelled in Dafny

This project models the sequential logic inside `script.js`, the client-side script of a single-page portfolio site. With the page's DOM replaced by plain values, six small pieces of behaviour remain. Each becomes a module of pure functions over immutable state, with lemmas over finite event sequences:

- `Menu` (`menu.dfy`): the hamburger menu. Its state is the burger's `active` class, the navigation panel's `active` class and the body scroll lock. Events are burger clicks, navigation-link clicks, other clicks (the document listener closes the menu unless the target is inside the burger or the panel) and key presses (only Escape closes). Clicks run through the listeners in bubbling order. Carousel controls call `stopPropagation`, so the document listener never sees them.
- `ActiveSection` (`active_section.dfy`): the scroll handler. It picks the last section in document order whose top is at most 150 px below the scroll offset, and marks each navigation link whose `href` is `#` plus that id. A section without an `id` yields `null`, which the template literal renders as `#null`.
- `Typing` (`typing.dfy`): the typing/erasing loop over "Hello, I am " + "Gab". Each `typeLoop` call is one `Step` of a `(i, phase)` machine. The step's `Effect` records what is written to the heading.
- `ContactForm` (`contact_form.dfy`): the validating submit handler. There is an empty-field check, then the email pattern `^[^\s@]+@[^\s@]+\.[^\s@]+$`. The pattern is stated twice: as the language of the expression, and as a direct scan. The two are proved equal. Submission is modelled too: the sending state, then a delayed completion that thanks the sender, resets the fields and restores the button.
- `StatCounter` (`stat_counter.dfy`): the counter animation. It parses a leading integer, decimal or `0x`-prefixed hexadecimal, and runs a stepping interval with increment `ceil(t/50)`. A `+` is shown when the text has one, and the `counted` guard stops a second run.
- `Counting` (`counting.dfy`): occurrence counting over sequences, shared by the form's single `@` and the slider's single active marker.
- `Carousel` (`carousel.dfy`): the per-card slider. The state is the slide index, the image and dot `active` markers, the stored interval handle and the set of live intervals. JavaScript's `undefined.classList` error on an out-of-range index is recorded as a thrown step that keeps its partial changes.

Timer delays are not modelled. Each timer callback or interval firing is one discrete step, and the interval ids come from a counter in the state.

## Model

| member | source | states |
|---|---|---|
| Menu.Toggle | script.js:13-21 | both classes flip; the scroll lock always ends equal to the panel's new state, because it is computed from the panel before the flip; consistency is preserved |
| Menu.Close | script.js:24-28 | afterwards the menu is closed and burger, panel and lock agree |
| Menu.OnDocumentClick | script.js:65-69 | a click inside the burger or the panel changes nothing; any other click closes the menu |
| Menu.OnKeyDown | script.js:72-76 | only the key "Escape" closes; every other key changes nothing |
| Menu.Dispatch | script.js:57-76 | from a consistent state: a burger click flips open/closed; every other event leaves the menu open exactly when it was open and the event is a panel click, a carousel control click or a non-Escape key |
| Menu.RunKeepsConsistent | script.js:13-28 | burger-active = nav-active = scroll-locked holds after any sequence of events from a consistent state |
| Menu.FromClosedConsistent | script.js:57-76 | from the closed page-load state, any event sequence leaves the menu open exactly when scrolling is locked |
| Menu.CloseIdempotent | script.js:24-28 | closing twice equals closing once, and the result is the closed state |
| Menu.ToggleTwice | script.js:13-21 | from a consistent state, two burger toggles give back exactly the same state |
| Menu.IgnoredEventsChangeNothing | script.js:65-76 | clicks inside the panel, clicks on carousel controls and non-Escape keys leave the state unchanged |
| Menu.IgnoredRunChangesNothing | script.js:65-76 | a whole sequence of such events leaves the state unchanged |
| ActiveSection.CurrentOf | script.js:100-109 | the selected id is the id of the last section (in document order) with offset >= top - 150, or "" when no section qualifies |
| ActiveSection.SomeLastReached | script.js:103-109 | when some section qualifies, a last qualifying section exists, so exactly one of the two cases above applies |
| ActiveSection.Fragment | script.js:113 | the compared fragment is "#" followed by the id, or "#null" for a missing id |
| ActiveSection.OnScroll | script.js:99-117 | the handler's two loops: the selected id is as above, and link k is marked iff its href equals "#" + current |
| ActiveSection.DistinctLinksMarkAtMostOne | script.js:111-116 | with distinct hrefs at most one link is marked, and one is marked when a link points at the current id |
| Typing.EraseMarkup | script.js:161-171 | the erase-phase markup shows exactly the first j characters, with the highlight span present iff j > length of the prefix |
| Typing.Step | script.js:136-179 | the cursor stays in [0, 15]; the visible text is the first i characters before and after every step; the phase flips only at i = 15 (typing) or i = 0 (erasing), and otherwise i moves by one; the span opens before character 12 and closes after the last character; while erasing, the span is present iff i > 12 |
| Typing.Run | script.js:149-176 | any number of calls keeps the cursor within the text |
| Typing.TypesUp | script.js:137-149 | typing from k characters reaches the full text after 15 - k calls |
| Typing.ErasesDown | script.js:154-173 | erasing from k characters empties the heading after k calls |
| Typing.Cycle | script.js:124-181 | the period 2·|Text|+2 is 32 calls for the 15-character text, and from the initial (0, typing) state the loop is back there after one period |
| Typing.Periodic | script.js:136-181 | after any number n of calls, the state equals the one after n mod Period (32) calls |
| ContactForm.ScanMatchesPattern | script.js:351 | the direct scan (no whitespace, exactly one `@`, non-empty local part, a dot in the domain with a character on each side) accepts exactly the strings the regular expression matches |
| ContactForm.ScanImpliesPattern | script.js:351 | every string the scan accepts matches the regular expression |
| ContactForm.PatternImpliesScan | script.js:351 | every string the regular expression matches passes the scan |
| ContactForm.Validate | script.js:345-355 | "Please fill in all fields" iff some field is the empty string (whitespace-only passes); otherwise "Please enter a valid email address" iff the email does not match the pattern; otherwise accepted |
| ContactForm.AcceptsExample | script.js:351 | "a@b.co" matches the pattern |
| ContactForm.RejectsExamples | script.js:351 | "a@b", "a b@c.com" and "@b.com" do not match |
| ContactForm.ThankYou | script.js:365 | the success message contains the sender's name |
| ContactForm.Submit | script.js:335-362 | a rejected form only gets the error notification; an accepted one keeps its fields, shows "SENDING..." on a disabled button and queues a completion that records the name and the original label |
| ContactForm.Complete | script.js:364-373 | the completion shows a success notification that mentions the captured name, empties the fields and restores the original label with the button enabled |
| ContactForm.EmptyFieldNeverSucceeds | script.js:345-348 | with an empty field no completion is queued, so no success notification can follow |
| ContactForm.SubmitThenComplete | script.js:357-373 | a valid submission from an idle form, once completed, thanks the sender by name, empties the fields and leaves the button as it was |
| ContactForm.ExampleSubmission | script.js:339-373 | name "A", email "a@b.co": sending state, then the success notification for "A" |
| StatCounter.LeadingDigits | script.js:273 | the digit run parseInt reads in a given radix: a prefix of the text, all digits of that radix, followed by a non-digit or the end |
| StatCounter.ParseLeadingInt | script.js:273-275 | after a `0x`/`0X` prefix, a number exactly when a hex digit follows it; otherwise a number exactly when the text starts with a digit |
| StatCounter.Decimal | script.js:287 | the displayed number is a non-empty digit string without leading zeros whose value is the number |
| StatCounter.DisplayedValueParses | script.js:273-287 | parseInt of a displayed value followed by a suffix that neither extends the digits nor forms a hex prefix gives back that value |
| StatCounter.CounterTextParses | script.js:273-287 | every intermediate text the counter shows, value plus suffix, parses back to that value |
| StatCounter.Increment | script.js:277 | ceil(t/50): 0 for t = 0, otherwise the least inc with 50·inc >= t |
| StatCounter.Suffix | script.js:287 | "+" iff the original text contains "+" |
| StatCounter.CountUp | script.js:276-289 | for target t and inc = ceil(t/50): the intermediate values are inc, 2·inc, …, strictly increasing and all < t, each shown with the suffix; one more step would reach t; the last text shown is the original text |
| StatCounter.Animate | script.js:276-289 | for target t and inc = ceil(t/50), the intermediate values are inc, 2·inc, …, strictly increasing and all < t, each shown with the suffix; the next step would reach t; the last text shown is the original text; NaN shows nothing |
| StatCounter.Trigger | script.js:268-292 | the item ends counted and showing its original text; a second trigger on a counted item does nothing |
| StatCounter.Example120 | script.js:272-287 | "120+" parses as 120, steps by 3 and re-appends "+" |
| StatCounter.HexExamples | script.js:273-275 | "0x1A" parses as 26 and a bare "0X" as NaN |
| Carousel.ShowSlide | script.js:526-535 | with the index equal to the current slide, at least one image and a dot per image: no throw, and exactly the image and the dot at the (range-corrected) current index carry active; with no images it throws; with fewer dots than images, a current index past the last dot marks the image and then throws; timers untouched |
| Carousel.NextSlide | script.js:538-542 | the index becomes (i+1) mod N, and exactly one image and one dot are active there |
| Carousel.PrevSlide | script.js:545-549 | the index becomes (i-1+N) mod N, and exactly one image and one dot are active there |
| Carousel.StartAutoSlide | script.js:552-554 | a fresh interval becomes live and its handle is stored, overwriting the previous handle without clearing it |
| Carousel.StopAutoSlide | script.js:556-558 | only the stored interval stops; an unset handle is a no-op |
| Carousel.OnMouseLeave | script.js:590 | as written, leaving adds a fresh live interval to those already live |
| Carousel.OnMouseLeaveFixed | script.js:589-590 | corrected: leaving clears the stored interval first, so only the new one is live when at most the stored one was |
| Carousel.Dispatch | script.js:561-590 | every event keeps the index in range and never throws on a well-formed card; a dot click at k sets the index to k (or 0 past the last image) and marks only k; hovering and leaving change no marker |
| Carousel.ManualNavigationRestarts | script.js:561-586 | an arrow or dot click clears the stored interval and starts exactly one fresh interval |
| Carousel.RenderedStepMarksOne | script.js:526-535 | after an arrow, dot or interval step, exactly one image and exactly one dot are active, at the current index |
| Carousel.OnlyAtCountsOne | script.js:527-534 | "only the flag at k is set" means exactly one flag is set |
| Carousel.Init | script.js:592-595 | the card starts at index 0, and autoplay is live only when the card has more than one image |
| Carousel.RunKeepsIndexInRange | script.js:538-586 | with N >= 1 images and at least N dots, the index stays in [0, N) through any event sequence |
| Carousel.FixedDispatchKeepsOneTimer | script.js:552-590 | with the corrected leave listener, every step keeps the live intervals within the stored handle |
| Carousel.FixedRunKeepsOneTimer | script.js:552-590 | with the corrected leave listener, at most one interval is live after any event sequence |
| Carousel.FixedManualNavigationLeavesOne | script.js:561-586 | with the corrected leave listener, a manual navigation leaves exactly one live interval |
| Carousel.HoverClickLeaveLeaks | script.js:589-590 | as written: on a two-image card, hover, next-arrow click and leave leave two intervals live |

## Left out

- The second submit handler, which sends the form through a third-party mail service with placeholder ids (script.js:30-53). It is a foreign call; its alert-based outcome is not modelled.
- Timer delays (90/60/1200/500 ms, the 3000 ms autoplay, the counter's floating-point `stepTime`, the 1500 ms simulated submission). Every callback is one discrete step.
- The markup the typing phase builds with `innerHTML +=` around an unclosed `<span>`. It depends on the browser's HTML parser. Only the visible text and the span open/close points are modelled while typing. The erase phase's explicitly assigned markup is modelled in full.
- Parallax transforms, the header shadow, the page-load fade, project-card hover z-index, smooth scrolling, console output. These are style writes with no logic to verify.
- The visibility observers: the fade-in, the skill-bar width animation and lazy image loading. They are browser visibility plumbing. The stat counter is modelled from the moment its observer calls it.
- Notification DOM creation, styling and auto-dismiss. A notification is modelled as the single current `Toast`, replaced by each new one.
- StatCounter.ParseLeadingInt: `parseInt`'s skipping of leading whitespace and its sign are not modelled; such text is taken as NaN. Numbers beyond double precision are not modelled either. The `0x`/`0X` hex prefix is modelled.
- ContactForm.Complete: `contactForm.reset()` restores the markup's default values, which are taken to be empty.
- ActiveSection.OnScroll: `pageYOffset` and `offsetTop` are taken as whole pixels.
- Carousel.Init: cards without a `.project-slider` are skipped by the source and have no state here. The initial `active` markers come from the markup and are passed in.

The code itself shows that one `mouseleave` interval is not meant to stack on another. Every manual navigation listener stops autoplay before starting it again (script.js:565-566, 573-574 and 583-584). The hover pair is commented as a pause of autoplay (script.js:588), not as a second timer. The initial autoplay is guarded by `images.length > 1` (script.js:593). Yet `mouseleave` starts an interval without clearing the stored one, and it does so on any card, including single-image cards. Both behaviours are modelled as written, and the first is reported below.

## Findings

| source | as written | input that shows it | evidently intended | confidence | as-written member | corrected member |
|---|---|---|---|---|---|---|
| script.js:589-590 | `mouseleave` calls `startAutoSlide` without `stopAutoSlide`, and the arrow and dot listeners restart autoplay even while the pointer is on the card | two-image card: mouseenter, click next, mouseleave leaves two intervals running, so slides advance twice as often | leaving the card resumes a single autoplay interval, as the manual navigation listeners do with stop-then-start | high; not executed | Carousel.HoverClickLeaveLeaks | Carousel.FixedRunKeepsOneTimer |
