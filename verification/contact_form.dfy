/** The contact form's validating submit handler (script.js lines 332-397).

    On submit the four field values are checked in order: any empty field
    gives one error message, a malformed email another; otherwise the submit
    button shows a sending label and, one timer callback later, a success
    notification addressed to the sender appears, the fields are reset and
    the button is restored. */
module ContactForm {

  import opened Counting

  /** The characters JavaScript's `\s` class matches. */
  predicate IsJsWhitespace(c: char) {
    || c == '\t' || c == '\n' || c == '\U{000B}' || c == '\U{000C}' || c == '\r' || c == ' '
    || c == '\U{00A0}' || c == '\U{1680}'
    || ('\U{2000}' <= c <= '\U{200A}')
    || c == '\U{2028}' || c == '\U{2029}' || c == '\U{202F}' || c == '\U{205F}'
    || c == '\U{3000}' || c == '\U{FEFF}'
  }

  // ---------------------------------------------------------------------
  // The email pattern /^[^\s@]+@[^\s@]+\.[^\s@]+$/
  // ---------------------------------------------------------------------

  /** One run of the class `[^\s@]+`: non-empty, no whitespace, no `@`. */
  predicate IsSegment(s: string) {
    |s| > 0 && forall k :: 0 <= k < |s| ==> !IsJsWhitespace(s[k]) && s[k] != '@'
  }

  /** The language of the pattern: the string splits as segment, `@`,
      segment, `.`, segment, at some positions `at` and `dot`. */
  ghost predicate MatchesEmailPattern(e: string) {
    exists at, dot :: SplitsAt(e, at, dot)
  }

  /** The split of `MatchesEmailPattern` at the given `@` and `.` positions. */
  predicate SplitsAt(e: string, at: int, dot: int) {
    && 0 <= at < dot < |e| && e[at] == '@' && e[dot] == '.'
    && IsSegment(e[..at]) && IsSegment(e[at + 1..dot]) && IsSegment(e[dot + 1..])
  }

  /** Position of the first `c` in `s`. */
  function FirstIndex(s: string, c: char): (k: nat)
    requires c in s
    ensures k < |s| && s[k] == c && c !in s[..k]
    decreases |s|
  {
    if s[0] == c then 0
    else
      assert c in s[1..];
      var k := FirstIndex(s[1..], c);
      assert s[..k + 1] == [s[0]] + s[1..][..k];
      k + 1
  }

  /** A `.` with at least one character on each side. */
  predicate HasInnerDot(d: string) {
    exists j :: 0 < j < |d| - 1 && d[j] == '.'
  }

  /** The email check as a direct scan: no whitespace anywhere, exactly one
      `@`, something before it, and an inner dot in the part after it. */
  predicate IsValidEmail(e: string) {
    && (forall k :: 0 <= k < |e| ==> !IsJsWhitespace(e[k]))
    && Count(e, '@') == 1
    && var at := FirstIndex(e, '@');
       at > 0 && HasInnerDot(e[at + 1..])
  }

  /** An `@` at `at` with none elsewhere is what `Count` equal to 1 means. */
  lemma {:induction false} SingleAt(e: string, at: int)
    requires 0 <= at < |e| && e[at] == '@'
    ensures Count(e, '@') == 1 <==> '@' !in e[..at] && '@' !in e[at + 1..]
  {
    assert e == e[..at] + [e[at]] + e[at + 1..];
    CountConcat(e[..at] + [e[at]], e[at + 1..], '@');
    CountConcat(e[..at], [e[at]], '@');
    assert [e[at]][..0] == [];
  }

  lemma ScanImpliesPattern(e: string)
    requires IsValidEmail(e)
    ensures MatchesEmailPattern(e)
  {
    var at := FirstIndex(e, '@');
    SingleAt(e, at);
    var d := e[at + 1..];
    var j :| 0 < j < |d| - 1 && d[j] == '.';
    var dot := at + 1 + j;
    assert e[dot] == d[j];
    var local, mid, top := e[..at], e[at + 1..dot], e[dot + 1..];
    assert mid == d[..j] && top == d[j + 1..];
    assert forall k :: 0 <= k < |local| ==> local[k] == e[k];
    assert forall k :: 0 <= k < |mid| ==> mid[k] == e[at + 1 + k];
    assert forall k :: 0 <= k < |top| ==> top[k] == e[dot + 1 + k];
    assert IsSegment(local) && IsSegment(mid) && IsSegment(top);
    assert SplitsAt(e, at, dot);
  }

  /** A split leaves no whitespace anywhere in the string. */
  lemma SplitHasNoWhitespace(e: string, at: int, dot: int)
    requires SplitsAt(e, at, dot)
    ensures forall k :: 0 <= k < |e| ==> !IsJsWhitespace(e[k])
  {
  }

  /** A split has its only `@` at `at`. */
  lemma SplitHasOneAt(e: string, at: int, dot: int)
    requires SplitsAt(e, at, dot)
    ensures '@' !in e[..at] && '@' !in e[at + 1..]
  {
  }

  lemma PatternImpliesScan(e: string)
    requires MatchesEmailPattern(e)
    ensures IsValidEmail(e)
  {
    var at, dot :| SplitsAt(e, at, dot);
    SplitHasNoWhitespace(e, at, dot);
    SplitHasOneAt(e, at, dot);
    SingleAt(e, at);
    assert FirstIndex(e, '@') == at;
    var d := e[at + 1..];
    assert d[dot - at - 1] == '.';
    assert HasInnerDot(d);
  }

  /** The scan accepts exactly the strings the regular expression matches. */
  lemma ScanMatchesPattern(e: string)
    ensures IsValidEmail(e) <==> MatchesEmailPattern(e)
  {
    if IsValidEmail(e) {
      ScanImpliesPattern(e);
    }
    if MatchesEmailPattern(e) {
      PatternImpliesScan(e);
    }
  }

  // ---------------------------------------------------------------------
  // Validation
  // ---------------------------------------------------------------------

  const FillAllFields: string := "Please fill in all fields"
  const InvalidEmail: string := "Please enter a valid email address"

  datatype Verdict = Accepted | Rejected(message: string)

  /** The checks in the handler's order. `!value` holds of a string only when
      it is empty, so whitespace-only fields pass the first check. */
  function Validate(name: string, email: string, subject: string, message: string): (v: Verdict)
    ensures v == Rejected(FillAllFields) <==> name == "" || email == "" || subject == "" || message == ""
    ensures v == Rejected(InvalidEmail) <==>
              name != "" && email != "" && subject != "" && message != "" && !MatchesEmailPattern(email)
    ensures v == Accepted <==>
              name != "" && email != "" && subject != "" && message != "" && MatchesEmailPattern(email)
  {
    ScanMatchesPattern(email);
    if name == "" || email == "" || subject == "" || message == "" then Rejected(FillAllFields)
    else if !IsValidEmail(email) then Rejected(InvalidEmail)
    else Accepted
  }

  /** The pattern on four sample addresses: one accepted, three rejected. */
  lemma AcceptsExample()
    ensures MatchesEmailPattern("a@b.co")
  {
    var e := "a@b.co";
    assert e[..1] == "a" && e[2..3] == "b" && e[4..] == "co";
    assert SplitsAt(e, 1, 3);
  }

  lemma RejectsExamples()
    ensures !MatchesEmailPattern("a@b")
    ensures !MatchesEmailPattern("a b@c.com")
    ensures !MatchesEmailPattern("@b.com")
  {
    var e1, e2, e3 := "a@b", "a b@c.com", "@b.com";
    ScanMatchesPattern(e1);
    ScanMatchesPattern(e2);
    ScanMatchesPattern(e3);
    assert !IsValidEmail(e1) by {
      if Count(e1, '@') == 1 {
        assert e1[1] == '@' && '@' !in e1[..1];
        assert FirstIndex(e1, '@') == 1;
        assert !HasInnerDot(e1[2..]);
      }
    }
    assert !IsValidEmail(e2) by {
      assert IsJsWhitespace(e2[1]);
    }
    assert !IsValidEmail(e3) by {
      if Count(e3, '@') == 1 {
        assert FirstIndex(e3, '@') == 0;
      }
    }
  }

  // ---------------------------------------------------------------------
  // Submission
  // ---------------------------------------------------------------------

  datatype Fields = Fields(name: string, email: string, subject: string, message: string)

  datatype Button = Button(caption: string, disabled: bool)

  datatype Kind = Error | Success

  /** The single visible notification, if any: a new one replaces the old. */
  datatype Toast = NoToast | Toast(text: string, kind: Kind)

  /** A submission whose simulated delay has not elapsed yet: the name and
      the button label captured when it was started. */
  datatype Pending = Pending(name: string, originalLabel: string)

  datatype Form = Form(fields: Fields, button: Button, toast: Toast, pending: seq<Pending>)

  const SendingLabel: string := "SENDING..."

  /** `name` occurs somewhere in `text`. */
  ghost predicate Mentions(text: string, name: string) {
    exists k :: OccursAt(text, name, k)
  }

  predicate OccursAt(text: string, name: string, k: int) {
    0 <= k <= |text| - |name| && text[k..k + |name|] == name
  }

  function ThankYou(name: string): (t: string)
    ensures Mentions(t, name)
  {
    var opening := "Thank you, ";
    assert OccursAt(opening + name + "! Your message has been received. I'll get back to you soon!", name, |opening|);
    "Thank you, " + name + "! Your message has been received. I'll get back to you soon!"
  }

  /** The submit handler. A rejected form only gets an error notification;
      an accepted one disables the button and schedules the completion. */
  function Submit(f: Form): (r: Form)
    ensures var v := Validate(f.fields.name, f.fields.email, f.fields.subject, f.fields.message);
      && (v.Rejected? ==> r == f.(toast := Toast(v.message, Error)))
      && (v.Rejected? ==> r.pending == f.pending)
      && (v == Accepted ==>
            && r.fields == f.fields && r.toast == f.toast
            && r.button == Button(SendingLabel, true)
            && r.pending == f.pending + [Pending(f.fields.name, f.button.caption)])
  {
    var flds := f.fields;
    match Validate(flds.name, flds.email, flds.subject, flds.message)
    case Rejected(msg) => f.(toast := Toast(msg, Error))
    case Accepted =>
      f.(button := Button(SendingLabel, true), pending := f.pending + [Pending(flds.name, f.button.caption)])
  }

  /** The delayed callback of the oldest pending submission: success
      notification, fields reset to their (empty) defaults, button restored. */
  function Complete(f: Form): (r: Form)
    requires |f.pending| > 0
    ensures r.toast.Toast? && r.toast.kind == Success
    ensures Mentions(r.toast.text, f.pending[0].name)
    ensures r.fields == Fields("", "", "", "")
    ensures r.button == Button(f.pending[0].originalLabel, false)
    ensures r.pending == f.pending[1..]
  {
    var p := f.pending[0];
    Form(Fields("", "", "", ""), Button(p.originalLabel, false), Toast(ThankYou(p.name), Success), f.pending[1..])
  }

  /** A form with an empty field never schedules a success notification. */
  lemma EmptyFieldNeverSucceeds(f: Form)
    requires f.fields.name == "" || f.fields.email == "" || f.fields.subject == "" || f.fields.message == ""
    ensures Submit(f).pending == f.pending
    ensures Submit(f).toast == Toast(FillAllFields, Error)
    ensures Submit(f).button == f.button
  {
  }

  /** A valid submission from an idle form: the button shows the sending
      label, and once the callback has run the notification thanks the
      sender by name, the fields are empty, and the button is as before. */
  lemma SubmitThenComplete(f: Form)
    requires f.pending == []
    requires Validate(f.fields.name, f.fields.email, f.fields.subject, f.fields.message) == Accepted
    ensures Submit(f).button == Button(SendingLabel, true)
    ensures var done := Complete(Submit(f));
      && done.toast == Toast(ThankYou(f.fields.name), Success)
      && done.button == f.button.(disabled := false)
      && done.fields == Fields("", "", "", "")
      && done.pending == []
  {
  }

  /** A sample submission (name "A", email "a@b.co"): accepted, thanked as "A". */
  lemma ExampleSubmission(caption: string)
    ensures var f := Form(Fields("A", "a@b.co", "S", "M"), Button(caption, false), NoToast, []);
      && Submit(f).button == Button(SendingLabel, true)
      && Complete(Submit(f)).toast == Toast(ThankYou("A"), Success)
  {
    AcceptsExample();
  }
}
