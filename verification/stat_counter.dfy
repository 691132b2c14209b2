/** The statistics counter animation (script.js lines 268-292).

    When a stat item first becomes visible its heading text (for example
    "120+") is parsed for a leading integer `t`; an interval then adds
    `ceil(t / 50)` to a running value on every tick, showing the value (with
    a "+" when the original text has one) until the value reaches `t`, when
    the original text is put back and the interval is cleared. A `counted`
    class makes the whole animation happen at most once per item. Each
    interval tick is one discrete step; the tick length is not modelled. */
module StatCounter {

  predicate IsDigit(c: char) {
    '0' <= c <= '9'
  }

  predicate IsHexDigit(c: char) {
    IsDigit(c) || 'a' <= c <= 'f' || 'A' <= c <= 'F'
  }

  /** The radixes `parseInt` picks on its own: hexadecimal after a `0x` or
      `0X` prefix, decimal otherwise. */
  datatype Radix = Ten | Sixteen

  function Base(r: Radix): nat {
    match r
    case Ten => 10
    case Sixteen => 16
  }

  predicate IsDigitOf(r: Radix, c: char) {
    match r
    case Ten => IsDigit(c)
    case Sixteen => IsHexDigit(c)
  }

  /** The value of a digit; letters are hexadecimal digits in either case. */
  function DigitValue(c: char): (d: nat)
    requires IsHexDigit(c)
    ensures IsDigit(c) <==> d < 10
    ensures d < 16
  {
    if IsDigit(c) then (c as int) - ('0' as int)
    else if 'a' <= c <= 'f' then (c as int) - ('a' as int) + 10
    else (c as int) - ('A' as int) + 10
  }

  function DigitChar(d: nat): (c: char)
    requires d < 10
    ensures IsDigit(c) && DigitValue(c) == d
  {
    (('0' as int) + d) as char
  }

  predicate AllDigits(r: Radix, s: string) {
    forall k :: 0 <= k < |s| ==> IsDigitOf(r, s[k])
  }

  /** The value of a string of digits in radix `r`, most significant first. */
  function ValueOf(r: Radix, s: string): nat
    requires AllDigits(r, s)
    decreases |s|
  {
    if |s| == 0 then 0 else Base(r) * ValueOf(r, s[..|s| - 1]) + DigitValue(s[|s| - 1])
  }

  /** The longest run of radix-`r` digits at the front of `s`. */
  function LeadingDigits(r: Radix, s: string): (run: string)
    ensures run <= s && AllDigits(r, run)
    ensures |run| < |s| ==> !IsDigitOf(r, s[|run|])
    decreases |s|
  {
    if |s| == 0 || !IsDigitOf(r, s[0]) then ""
    else
      var rest := LeadingDigits(r, s[1..]);
      assert [s[0]] + rest <= s by {
        assert s == [s[0]] + s[1..];
      }
      [s[0]] + rest
  }

  /** What `parseInt` gives for text with no leading blanks or sign: the
      value of the leading digits, read as hexadecimal after a `0x` or `0X`
      prefix, and `NaN` when there are no such digits. */
  datatype Parsed = NaN | Number(value: nat)

  predicate HasHexPrefix(s: string) {
    |s| >= 2 && s[0] == '0' && (s[1] == 'x' || s[1] == 'X')
  }

  function ParseLeadingInt(s: string): (p: Parsed)
    ensures HasHexPrefix(s) ==> (p.Number? <==> |s| > 2 && IsHexDigit(s[2]))
    ensures !HasHexPrefix(s) ==> (p.Number? <==> |s| > 0 && IsDigit(s[0]))
  {
    if HasHexPrefix(s) then
      var run := LeadingDigits(Sixteen, s[2..]);
      if |run| == 0 then NaN else Number(ValueOf(Sixteen, run))
    else if |s| > 0 && IsDigit(s[0]) then Number(ValueOf(Ten, LeadingDigits(Ten, s)))
    else NaN
  }

  /** How a JavaScript number that is a non-negative integer prints. */
  function Decimal(n: nat): (s: string)
    ensures |s| > 0 && AllDigits(Ten, s)
    ensures ValueOf(Ten, s) == n
    ensures |s| > 1 ==> s[0] != '0'
    decreases n
  {
    if n < 10 then [DigitChar(n)]
    else
      var front := Decimal(n / 10);
      var s := front + [DigitChar(n % 10)];
      assert s[..|s| - 1] == front;
      s
  }

  /** A displayed counter text reads back as the value it shows: `parseInt`
      of `Decimal(v)` followed by a suffix that neither continues the digits
      nor turns a lone "0" into a hex prefix is `v`. */
  lemma {:induction false} DisplayedValueParses(v: nat, suffix: string)
    requires |suffix| == 0 || (!IsDigit(suffix[0]) && suffix[0] != 'x' && suffix[0] != 'X')
    ensures ParseLeadingInt(Decimal(v) + suffix) == Number(v)
  {
    var d := Decimal(v);
    if |d| == 1 && |suffix| > 0 {
      assert (d + suffix)[1] == suffix[0];
    }
    assert !HasHexPrefix(d + suffix);
    LeadingDigitsOfDigits(d, suffix);
  }

  /** What the counter writes while counting, `Decimal(v) + Suffix(text)`,
      reads back as `v`. */
  lemma CounterTextParses(v: nat, text: string)
    ensures ParseLeadingInt(Decimal(v) + Suffix(text)) == Number(v)
  {
    DisplayedValueParses(v, Suffix(text));
  }

  lemma {:induction false} LeadingDigitsOfDigits(d: string, suffix: string)
    requires AllDigits(Ten, d)
    requires |suffix| == 0 || !IsDigit(suffix[0])
    ensures LeadingDigits(Ten, d + suffix) == d
    decreases |d|
  {
    if |d| == 0 {
      assert d + suffix == suffix;
    } else {
      assert (d + suffix)[1..] == d[1..] + suffix;
      LeadingDigitsOfDigits(d[1..], suffix);
      assert d == [d[0]] + d[1..];
    }
  }

  /** `Math.ceil(t / 50)` for a non-negative integer `t`. */
  function Increment(t: nat): (inc: nat)
    ensures t == 0 ==> inc == 0
    ensures t > 0 ==> 50 * (inc - 1) < t <= 50 * inc
  {
    (t + 49) / 50
  }

  /** The suffix re-appended to every intermediate value. */
  function Suffix(text: string): (s: string)
    ensures s == "+" <==> '+' in text
    ensures s == "" <==> '+' !in text
  {
    if '+' in text then "+" else ""
  }

  /** `values` starts at `inc` and goes up by `inc` at each step. */
  predicate ArithmeticFrom(values: seq<nat>, inc: nat) {
    && (|values| > 0 ==> values[0] == inc)
    && forall j :: 0 < j < |values| ==> values[j] == values[j - 1] + inc
  }

  lemma {:induction false} ArithmeticIsMultiples(values: seq<nat>, inc: nat)
    requires ArithmeticFrom(values, inc)
    ensures forall j :: 0 <= j < |values| ==> values[j] == (j + 1) * inc
    decreases |values|
  {
    if |values| > 0 {
      var front := values[..|values| - 1];
      ArithmeticIsMultiples(front, inc);
      assert forall j :: 0 <= j < |front| ==> values[j] == front[j];
      var n := |values|;
      if n > 1 {
        assert values[n - 1] == values[n - 2] + inc;
        assert (n - 1) * inc + inc == n * inc;
      }
    }
  }

  lemma {:induction false} ArithmeticIncreases(values: seq<nat>, inc: nat)
    requires ArithmeticFrom(values, inc) && inc > 0
    ensures forall a, b :: 0 <= a < b < |values| ==> values[a] < values[b]
  {
    ArithmeticIsMultiples(values, inc);
    forall a, b | 0 <= a < b < |values|
      ensures values[a] < values[b]
    {
      assert (a + 1) * inc < (b + 1) * inc;
    }
  }

  /** The interval's ticks for target `t`. `shown` is every text the
      heading takes, in order; `values` are the intermediate counter values.
      Each loop iteration is one tick that adds the increment and finds the
      target not yet reached; the tick that reaches it ends the loop. */
  method CountUp(t: nat, text: string) returns (shown: seq<string>, values: seq<nat>)
    ensures var inc := Increment(t);
      && |shown| == |values| + 1
      && shown[|values|] == text
      && (forall j :: 0 <= j < |values| ==> values[j] == (j + 1) * inc && values[j] < t)
      && (forall j :: 0 <= j < |values| ==> shown[j] == Decimal(values[j]) + Suffix(text))
      && (forall a, b :: 0 <= a < b < |values| ==> values[a] < values[b])
      && (|values| + 1) * inc >= t
  {
    shown, values := [], [];
    var inc := Increment(t);
    var current := inc;
    while current < t
      invariant |shown| == |values|
      invariant ArithmeticFrom(values, inc)
      invariant current == (if |values| == 0 then 0 else values[|values| - 1]) + inc
      invariant forall j :: 0 <= j < |values| ==> values[j] < t
      invariant forall j :: 0 <= j < |values| ==> shown[j] == Decimal(values[j]) + Suffix(text)
      decreases t as int - current as int
    {
      shown := shown + [Decimal(current) + Suffix(text)];
      values := values + [current];
      current := current + inc;
    }
    shown := shown + [text];
    ArithmeticIsMultiples(values, inc);
    if t > 0 {
      ArithmeticIncreases(values, inc);
      if |values| > 0 {
        assert current == (|values| + 1) * inc;
      }
    }
  }

  /** The whole animation for one heading text: nothing when `parseInt`
      gives `NaN`, the ticks up to the parsed target otherwise. */
  method Animate(text: string) returns (shown: seq<string>, values: seq<nat>)
    ensures ParseLeadingInt(text).NaN? ==> shown == [] && values == []
    ensures ParseLeadingInt(text).Number? ==>
      var t := ParseLeadingInt(text).value;
      var inc := Increment(t);
      && |shown| == |values| + 1
      && shown[|values|] == text
      && (forall j :: 0 <= j < |values| ==> values[j] == (j + 1) * inc && values[j] < t)
      && (forall j :: 0 <= j < |values| ==> shown[j] == Decimal(values[j]) + Suffix(text))
      && (forall a, b :: 0 <= a < b < |values| ==> values[a] < values[b])
      && (|values| + 1) * inc >= t
  {
    var parsed := ParseLeadingInt(text);
    if parsed.NaN? {
      return [], [];
    }
    shown, values := CountUp(parsed.value, text);
  }

  /** A stat item's heading text and whether it carries `counted`. */
  datatype StatItem = StatItem(text: string, counted: bool)

  /** One visibility notification for the item. The first marks it counted
      and runs the whole animation; later ones do nothing. The heading always
      ends up showing its original text. */
  method Trigger(item: StatItem) returns (after: StatItem, shown: seq<string>)
    ensures after.counted
    ensures after.text == item.text
    ensures item.counted ==> after == item && shown == []
    ensures !item.counted && ParseLeadingInt(item.text).Number? ==> |shown| > 0 && shown[|shown| - 1] == item.text
  {
    if item.counted {
      return item, [];
    }
    var values;
    shown, values := Animate(item.text);
    after := StatItem(if |shown| > 0 then shown[|shown| - 1] else item.text, true);
  }

  /** The counter for "120+": steps of 3, forty values 3, 6, ..., 117, each
      shown with "+", then "120+" itself. */
  lemma Example120()
    ensures ParseLeadingInt("120+") == Number(120)
    ensures Increment(120) == 3
    ensures Suffix("120+") == "+"
  {
    var s := "120+";
    assert !HasHexPrefix(s);
    assert LeadingDigits(Ten, s[1..][1..][1..]) == "";
    assert LeadingDigits(Ten, s) == "120";
    assert ValueOf(Ten, "120") == 120 by {
      assert "120"[..2] == "12" && "12"[..1] == "1" && "1"[..0] == "";
    }
    assert s[3] == '+';
  }

  /** Hexadecimal headings: "0x1A" parses as 26, a bare "0x" as `NaN`, and
      the counter then does not run. */
  lemma HexExamples()
    ensures ParseLeadingInt("0x1A") == Number(26)
    ensures ParseLeadingInt("0X") == NaN
  {
    var s := "0x1A";
    assert HasHexPrefix(s);
    assert s[2..] == "1A";
    assert LeadingDigits(Sixteen, "1A"[1..][1..]) == "";
    assert LeadingDigits(Sixteen, "1A") == "1A";
    assert ValueOf(Sixteen, "1A") == 26 by {
      assert "1A"[..1] == "1" && "1"[..0] == "";
    }
    assert "0X"[2..] == "";
  }
}
