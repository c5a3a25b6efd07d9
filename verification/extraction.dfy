/** The reply-to-number parser of the collector script (DataSnatcherICEEV.py,
    `extract_value` and `extract_content`): a free-text reply of the
    language model becomes a non-negative number. */
module Extraction {
  import opened Wrappers
  import opened Text
  import opened Numbers
  import opened JsonValues

  /** Python's `int` or `float` result of `extract_value`. */
  datatype Number = Int(i: int) | Float(f: real) {
    function Value(): real {
      match this
      case Int(i) => i as real
      case Float(f) => f
    }
  }

  predicate IsDigit(c: char) {
    '0' <= c <= '9'
  }

  /** The characters the pattern `[^\d.]` does not delete. */
  predicate IsNumericChar(c: char) {
    IsDigit(c) || c == '.'
  }

  predicate AllNumeric(t: string) {
    forall i :: 0 <= i < |t| ==> IsNumericChar(t[i])
  }

  predicate AllDigits(t: string) {
    forall i :: 0 <= i < |t| ==> IsDigit(t[i])
  }

  predicate HasDigit(t: string) {
    exists i :: 0 <= i < |t| && IsDigit(t[i])
  }

  /** `re.sub(r'[^\d.]', '', s)`: the digits and dots of `s`, in order. */
  function KeepNumeric(s: string): (r: string)
    ensures AllNumeric(r)
    ensures |r| <= |s|
    ensures forall i :: 0 <= i < |r| ==> r[i] in s
  {
    if |s| == 0 then ""
    else (if IsNumericChar(s[0]) then [s[0]] else "") + KeepNumeric(s[1..])
  }

  lemma {:induction false} KeepNumericAppend(a: string, b: string)
    ensures KeepNumeric(a + b) == KeepNumeric(a) + KeepNumeric(b)
  {
    if |a| > 0 {
      KeepNumericAppend(a[1..], b);
      assert (a + b)[1..] == a[1..] + b;
    } else {
      assert a + b == b;
    }
  }

  /** Text with no digit and no dot filters down to nothing. */
  lemma {:induction false} KeepNumericOfText(s: string)
    requires forall i :: 0 <= i < |s| ==> !IsNumericChar(s[i])
    ensures KeepNumeric(s) == ""
  {
    if |s| > 0 {
      KeepNumericOfText(s[1..]);
    }
  }

  /** A string of digits and dots passes the filter unchanged. */
  lemma {:induction false} KeepNumericOfNumeric(s: string)
    requires AllNumeric(s)
    ensures KeepNumeric(s) == s
  {
    if |s| > 0 {
      KeepNumericOfNumeric(s[1..]);
    }
  }

  /** Stripping first does not change what the filter keeps: whitespace is
      neither a digit nor a dot. */
  lemma KeepNumericStrip(s: string)
    ensures KeepNumeric(Strip(s)) == KeepNumeric(s)
  {
    KeepNumericTrimLeft(s);
    KeepNumericTrimRight(TrimLeft(s));
  }

  /** A leading whitespace character is filtered away. */
  lemma KeepNumericDropsSpace(s: string)
    requires |s| > 0 && IsSpace(s[0])
    ensures KeepNumeric(s) == KeepNumeric(s[1..])
    ensures TrimLeft(s) == TrimLeft(s[1..])
  {
    assert !IsNumericChar(s[0]);
  }

  lemma {:induction false} KeepNumericTrimLeft(s: string)
    ensures KeepNumeric(TrimLeft(s)) == KeepNumeric(s)
  {
    if |s| > 0 && IsSpace(s[0]) {
      KeepNumericTrimLeft(s[1..]);
      KeepNumericDropsSpace(s);
    }
  }

  lemma {:induction false} KeepNumericTrimRight(s: string)
    ensures KeepNumeric(TrimRight(s)) == KeepNumeric(s)
  {
    if |s| > 0 && IsSpace(s[|s| - 1]) {
      var init, last := s[..|s| - 1], [s[|s| - 1]];
      KeepNumericTrimRight(init);
      assert s == init + last;
      KeepNumericAppend(init, last);
      assert KeepNumeric(last) == "" by { assert last[1..] == ""; }
    }
  }

  /** Number of dots in `t`. */
  function DotCount(t: string): nat {
    if |t| == 0 then 0 else (if t[0] == '.' then 1 else 0) + DotCount(t[1..])
  }

  lemma {:induction false} DotCountAppend(a: string, b: string)
    ensures DotCount(a + b) == DotCount(a) + DotCount(b)
  {
    if |a| > 0 {
      DotCountAppend(a[1..], b);
      assert (a + b)[1..] == a[1..] + b;
    } else {
      assert a + b == b;
    }
  }

  lemma {:induction false} DotCountZero(t: string)
    ensures DotCount(t) == 0 <==> '.' !in t
  {
    if |t| > 0 {
      DotCountZero(t[1..]);
      assert t == [t[0]] + t[1..];
    }
  }

  /** What Python's `float()` accepts among strings of digits and dots: at
      most one dot and at least one digit (`"."`, `"1.2.3"` are refused). */
  predicate IsDecimal(t: string) {
    DotCount(t) <= 1 && HasDigit(t)
  }

  /** The value of a run of decimal digits, most significant first. */
  function DigitsValue(d: string): nat
    requires AllDigits(d)
  {
    if |d| == 0 then 0
    else DigitsValue(d[..|d| - 1]) * 10 + (d[|d| - 1] as int - '0' as int)
  }

  function Pow10(n: nat): (p: nat)
    ensures p >= 1
  {
    if n == 0 then 1 else 10 * Pow10(n - 1)
  }

  /** Index of the first occurrence of `c` in `t`. */
  function IndexOf(t: string, c: char): (i: nat)
    requires c in t
    ensures i < |t| && t[i] == c && c !in t[..i]
  {
    if t[0] == c then 0 else 1 + IndexOf(t[1..], c)
  }

  /** Without a dot, a string of digits and dots is a decimal numeral
      exactly when it is non-empty. */
  lemma {:induction false} DecimalWithoutDot(t: string)
    requires AllNumeric(t) && '.' !in t
    ensures AllDigits(t)
    ensures IsDecimal(t) <==> |t| > 0
  {
    DotCountZero(t);
    if |t| > 0 {
      assert IsDigit(t[0]);
    }
  }

  /** With a dot at `i`, a string of digits and dots is a decimal numeral
      exactly when no second dot follows and some digit surrounds the dot. */
  lemma {:induction false} DecimalAtDot(t: string, i: nat)
    requires AllNumeric(t) && i < |t| && t[i] == '.' && '.' !in t[..i]
    ensures AllDigits(t[..i])
    ensures IsDecimal(t) <==> '.' !in t[i + 1..] && (i > 0 || i + 1 < |t|)
    ensures '.' !in t[i + 1..] ==> AllDigits(t[i + 1..])
  {
    var whole, frac := t[..i], t[i + 1..];
    assert t == whole + ("." + frac);
    DotCountAppend(whole, "." + frac);
    DotCountAppend(".", frac);
    assert DotCount(".") == 1 by { assert "."[1..] == ""; }
    DotCountZero(whole);
    DotCountZero(frac);
    if '.' !in frac {
      assert AllDigits(frac);
      if i > 0 {
        assert IsDigit(t[0]);
      } else if i + 1 < |t| {
        assert IsDigit(t[i + 1]);
      } else {
        assert t == ".";
      }
    }
  }

  /** The value of the numeral `whole.frac`. */
  function DecimalValue(whole: string, frac: string): (v: real)
    requires AllDigits(whole) && AllDigits(frac)
    ensures v >= 0.0
  {
    DigitsValue(whole) as real + DigitsValue(frac) as real / Pow10(|frac|) as real
  }

  /** Python's `float(t)` for a string of digits and dots: `None` is the
      `ValueError` raised for anything that is not a decimal numeral. */
  function ParseDecimal(t: string): (r: Option<real>)
    requires AllNumeric(t)
    ensures r.Some? <==> IsDecimal(t)
    ensures r.Some? ==> r.value >= 0.0
  {
    if '.' !in t then
      DecimalWithoutDot(t);
      if |t| == 0 then None else Some(DigitsValue(t) as real)
    else
      var i := IndexOf(t, '.');
      DecimalAtDot(t, i);
      if '.' in t[i + 1..] || (i == 0 && i + 1 == |t|) then None
      else Some(DecimalValue(t[..i], t[i + 1..]))
  }

  /** `int(v) if v.is_integer() else v`. */
  function AsNumber(v: real): (n: Number)
    ensures n.Value() == v
    ensures n.Int? <==> IsWhole(v)
  {
    if IsWhole(v) then Int(v.Floor) else Float(v)
  }

  /** The unit heuristic: a value above 1000 is taken to be in dollars and
      divided by 1000, once. */
  function Rescale(v: real): (w: real)
    ensures v <= 1000.0 ==> w == v
    ensures v > 1000.0 ==> w * 1000.0 == v && w > 1.0
  {
    if v > 1000.0 then v / 1000.0 else v
  }

  /** `extract_value(content)`: never negative, an `Int` exactly when the
      value is whole, and 0 when no decimal numeral survives the filter. */
  function ExtractValue(content: string): (r: Number)
    ensures r.Value() >= 0.0
    ensures r.Int? <==> IsWhole(r.Value())
    ensures !IsDecimal(KeepNumeric(content)) ==> r == Int(0)
  {
    KeepNumericStrip(content);
    var numeric := KeepNumeric(Strip(content));
    if |numeric| == 0 then Int(0)
    else
      match ParseDecimal(numeric)
      case None => Int(0)
      case Some(v) => AsNumber(Rescale(v))
  }

  /** A parsed numeral is rescaled once and then tagged int or float. */
  lemma {:induction false} ExtractValueParsed(content: string, v: real)
    requires ParseDecimal(KeepNumeric(content)) == Some(v)
    ensures ExtractValue(content).Value() == (if v > 1000.0 then v / 1000.0 else v)
    ensures v <= 1000.0 ==> ExtractValue(content) == AsNumber(v)
  {
    KeepNumericStrip(content);
  }

  /** A reply without a single digit (`"N/A"`, `"."`, `"unknown"`) gives 0. */
  lemma {:induction false} ExtractValueNoDigits(content: string)
    requires forall i :: 0 <= i < |content| ==> !IsDigit(content[i])
    ensures ExtractValue(content) == Int(0)
  {
    var t := KeepNumeric(content);
    forall i | 0 <= i < |t|
      ensures !IsDigit(t[i])
    {
      assert t[i] in content;
    }
  }

  // ---------------------------------------------------------------------
  // Decimal rendering, the partner of the parser.

  function DigitChar(d: nat): (c: char)
    requires d < 10
    ensures IsDigit(c) && c as int - '0' as int == d
  {
    ('0' as int + d) as char
  }

  /** The decimal numeral of `n`, as Python's `str(n)` writes it. */
  function NatString(n: nat): (s: string)
    ensures |s| > 0 && AllDigits(s)
  {
    if n < 10 then [DigitChar(n)] else NatString(n / 10) + [DigitChar(n % 10)]
  }

  /** Reading the numeral of `n` back gives `n`. */
  lemma {:induction false} DigitsValueNatString(n: nat)
    ensures DigitsValue(NatString(n)) == n
  {
    var s := NatString(n);
    if n >= 10 {
      DigitsValueNatString(n / 10);
      assert s[..|s| - 1] == NatString(n / 10);
    }
  }

  /** Text without digits or dots around a numeral filters away. */
  lemma {:induction false} KeepNumericSurrounded(pre: string, t: string, post: string)
    requires AllNumeric(t)
    requires forall i :: 0 <= i < |pre| ==> !IsNumericChar(pre[i])
    requires forall i :: 0 <= i < |post| ==> !IsNumericChar(post[i])
    ensures KeepNumeric(pre + t + post) == t
  {
    KeepNumericAppend(pre + t, post);
    KeepNumericAppend(pre, t);
    KeepNumericOfText(pre);
    KeepNumericOfText(post);
    KeepNumericOfNumeric(t);
  }

  /** `float(str(n)) == n`. */
  lemma {:induction false} ParseNatString(n: nat)
    ensures ParseDecimal(NatString(n)) == Some(n as real)
  {
    var s := NatString(n);
    DecimalWithoutDot(s);
    DigitsValueNatString(n);
  }

  /** Round trip: a reply that is a whole number `n`, possibly surrounded by
      text with no digit or dot (`"about 300 hp"`), is read back as `n`, or
      as `n / 1000` when `n` exceeds 1000. */
  lemma {:induction false} WholeReplyRoundTrip(pre: string, n: nat, post: string)
    requires forall i :: 0 <= i < |pre| ==> !IsNumericChar(pre[i])
    requires forall i :: 0 <= i < |post| ==> !IsNumericChar(post[i])
    ensures n <= 1000 ==> ExtractValue(pre + NatString(n) + post) == Int(n)
    ensures n > 1000 ==> ExtractValue(pre + NatString(n) + post).Value() == n as real / 1000.0
  {
    var s := NatString(n);
    KeepNumericSurrounded(pre, s, post);
    ParseNatString(n);
    ExtractValueParsed(pre + s + post, n as real);
    assert IsWhole(n as real);
  }

  /** Parsing `whole.frac` for two runs of digits, the first non-empty. */
  lemma {:induction false} ParseFraction(whole: string, frac: string)
    requires AllDigits(whole) && AllDigits(frac) && |whole| > 0
    ensures AllNumeric(whole + "." + frac)
    ensures ParseDecimal(whole + "." + frac) == Some(DecimalValue(whole, frac))
  {
    var t := whole + "." + frac;
    assert AllNumeric(t);
    DotCountZero(whole);
    DotCountZero(frac);
    assert IndexOf(t, '.') == |whole| by {
      assert t[|whole|] == '.';
      assert t[..|whole|] == whole;
    }
    assert t[..|whole|] == whole && t[|whole| + 1..] == frac;
  }

  /** A run of n digits is worth less than 10^n. */
  lemma {:induction false} DigitsValueBound(d: string)
    requires AllDigits(d)
    ensures DigitsValue(d) < Pow10(|d|)
  {
    if |d| > 0 {
      DigitsValueBound(d[..|d| - 1]);
    }
  }

  /** Digits and dots followed by text without any keep the digits and dots. */
  lemma {:induction false} KeepNumericNumeralThenText(t: string, post: string)
    requires AllNumeric(t)
    requires forall i :: 0 <= i < |post| ==> !IsNumericChar(post[i])
    ensures KeepNumeric(t + post) == t
  {
    KeepNumericOfNumeric(t);
    KeepNumericOfText(post);
    KeepNumericAppend(t, post);
  }

  /** Round trip for a reply `w.f` with a fractional part, possibly followed
      by a unit (`"14.5 mpg"`): read back as w + f / 10^digits(f), below 1000. */
  lemma {:induction false} FractionReplyRoundTrip(reply: string, w: nat, f: nat, post: string)
    requires reply == NatString(w) + "." + NatString(f) + post
    requires forall i :: 0 <= i < |post| ==> !IsNumericChar(post[i])
    requires w < 1000
    ensures ExtractValue(reply).Value() == w as real + f as real / Pow10(|NatString(f)|) as real
  {
    var a, b := NatString(w), NatString(f);
    var t := a + "." + b;
    ParseFraction(a, b);
    KeepNumericNumeralThenText(t, post);
    DigitsValueNatString(w);
    DigitsValueNatString(f);
    var p := Pow10(|b|) as real;
    DigitsValueBound(b);
    FractionBelowOne(f as real, p);
    var v := w as real + f as real / p;
    assert ParseDecimal(KeepNumeric(t + post)) == Some(v);
    assert v <= 1000.0;
    ExtractValueParsed(t + post, v);
  }

  lemma FractionBelowOne(f: real, p: real)
    requires 0.0 <= f < p
    ensures f / p < 1.0
  {
  }

  // ---------------------------------------------------------------------
  // Worked replies.

  /** A cost given in dollars is brought to thousands: "25000" reads as 25. */
  lemma {:induction false} DollarsReadAsThousands(reply: string)
    requires reply == "25000"
    ensures ExtractValue(reply) == Int(25)
  {
    var n: nat, empty: string := 25000, "";
    assert reply == empty + NatString(n) + empty by {
      assert NatString(2) == "2";
      assert NatString(25) == "25";
      assert NatString(250) == "250";
      assert NatString(2500) == "2500";
    }
    WholeReplyRoundTrip(empty, n, empty);
    var r := ExtractValue(reply);
    assert r.Value() == 25.0;
  }

  /** A value with a unit keeps its fraction: "14.5 mpg" reads as the float 14.5. */
  lemma {:induction false} UnitIsIgnored(reply: string)
    requires reply == "14.5 mpg"
    ensures ExtractValue(reply) == Float(14.5)
  {
    var w: nat, f: nat, unit: string := 14, 5, " mpg";
    SpellUnitReply(reply, w, f, unit);
    FractionReplyRoundTrip(reply, w, f, unit);
    FourteenAndAHalf(ExtractValue(reply), w, f, Pow10(|NatString(f)|));
  }

  /** "14.5 mpg" spelled as numeral, dot, numeral and unit. */
  lemma {:induction false} SpellUnitReply(reply: string, w: nat, f: nat, unit: string)
    requires reply == "14.5 mpg" && w == 14 && f == 5 && unit == " mpg"
    ensures reply == NatString(w) + "." + NatString(f) + unit
    ensures forall i :: 0 <= i < |unit| ==> !IsNumericChar(unit[i])
    ensures Pow10(|NatString(f)|) == 10
  {
    assert NatString(1) == "1";
    assert NatString(14) == "14";
    assert NatString(5) == "5";
  }

  lemma FourteenAndAHalf(r: Number, w: nat, f: nat, p: nat)
    requires p == 10 && w == 14 && f == 5
    requires r.Value() == w as real + f as real / p as real
    requires r.Int? <==> IsWhole(r.Value())
    ensures r == Float(14.5)
  {
  }

  /** Exactly 1000 is not rescaled. */
  lemma {:induction false} ThousandIsKept(reply: string)
    requires reply == "1000"
    ensures ExtractValue(reply) == Int(1000)
  {
    assert reply == "" + NatString(1000) + "" by {
      assert NatString(1) == "1";
      assert NatString(10) == "10";
      assert NatString(100) == "100";
    }
    WholeReplyRoundTrip("", 1000, "");
  }

  /** "N/A" has no digit and reads as 0. */
  lemma {:induction false} NotAvailableIsZero(reply: string)
    requires reply == "N/A"
    ensures ExtractValue(reply) == Int(0)
  {
    ExtractValueNoDigits(reply);
  }

  /** A second dot makes the numeral invalid: "1.2.3" reads as 0. */
  lemma {:induction false} TwoDotsIsZero(reply: string)
    requires reply == "1.2.3"
    ensures ExtractValue(reply) == Int(0)
  {
    assert AllNumeric(reply) && reply[1] == '.' && reply[3] == '.';
    KeepNumericOfNumeric(reply);
    TwoDots(reply, 1, 3);
  }

  /** Two dots in a text make at least two in its count. */
  lemma {:induction false} TwoDots(t: string, i: nat, j: nat)
    requires i < j < |t| && t[i] == '.' && t[j] == '.'
    ensures DotCount(t) >= 2
  {
    assert t == t[..j] + t[j..];
    DotCountAppend(t[..j], t[j..]);
    DotCountZero(t[..j]);
    assert t[..j][i] == '.';
    DotCountZero(t[j..]);
    assert t[j..][0] == '.';
    assert t[..j] == t[..j][..i] + t[..j][i..];
    DotCountAppend(t[..j][..i], t[..j][i..]);
    DotCountZero(t[..j][i..]);
    assert t[..j][i..][0] == '.';
    DotCountZero(t[..j][..i]);
  }

  /** The minus sign is filtered out with the other text: "-7" reads as 7. */
  lemma {:induction false} SignIsDropped(reply: string)
    requires reply == "-7"
    ensures ExtractValue(reply) == Int(7)
  {
    assert reply == "-" + NatString(7) + "";
    WholeReplyRoundTrip("-", 7, "");
  }

  // ---------------------------------------------------------------------
  // The reply envelope of the chat-completion API.

  /** What the guard `response and "choices" in response and
      len(response["choices"]) > 0` followed by
      `response["choices"][0]["message"]["content"]` yields. */
  datatype Reply =
    | NoReply                // the guard is false
    | Content(text: string)  // the content string of the first choice
    | Raises                 // the guard or the lookup raises TypeError/KeyError

  /** The documented shape of a successful chat-completion body. */
  predicate WellFormedReply(j: Json) {
    && j.JObj? && "choices" in j.fields
    && j.fields["choices"].JArr? && |j.fields["choices"].items| > 0
    && j.fields["choices"].items[0].JObj?
    && "message" in j.fields["choices"].items[0].fields
    && j.fields["choices"].items[0].fields["message"].JObj?
    && "content" in j.fields["choices"].items[0].fields["message"].fields
    && j.fields["choices"].items[0].fields["message"].fields["content"].JStr?
  }

  function ReplyText(j: Json): string
    requires WellFormedReply(j)
  {
    j.fields["choices"].items[0].fields["message"].fields["content"].s
  }

  /** An object whose "choices" entry is an empty list, string or object. */
  predicate EmptyChoices(j: Json) {
    j.JObj? && "choices" in j.fields && Len(j.fields["choices"]) == Some(0)
  }

  /** An object whose "choices" entry is present and not empty but whose
      first choice's content cannot be read. */
  predicate ChoicesUnreadable(j: Json) {
    j.JObj? && "choices" in j.fields && Len(j.fields["choices"]) != Some(0) && !WellFormedReply(j)
  }

  /** `response["choices"][0]["message"]["content"]` once the list of
      choices is known to be non-empty. */
  function FirstContent(choices: Json): (r: Reply)
    ensures !r.NoReply?
  {
    match choices
    case JArr(items) =>
      if |items| > 0 && items[0].JObj? && "message" in items[0].fields
         && items[0].fields["message"].JObj? && "content" in items[0].fields["message"].fields
         && items[0].fields["message"].fields["content"].JStr?
      then Content(items[0].fields["message"].fields["content"].s)
      else Raises
    case _ => Raises
  }

  /** The first choice's content of an API response; `None` is the response
      `query_x_api` gives on a transport error or a body that is not JSON. */
  function FirstChoiceContent(response: Option<Json>): (r: Reply)
    ensures r.Content? <==> response.Some? && WellFormedReply(response.value)
    ensures r.Content? ==> r.text == ReplyText(response.value)
    ensures response.None? ==> r == NoReply
    ensures response.Some? && response.value.JObj? && "choices" !in response.value.fields ==> r == NoReply
    ensures response.Some? && EmptyChoices(response.value) ==> r == NoReply
    ensures response.Some? && response.value.JObj? ==> (r.Raises? <==> ChoicesUnreadable(response.value))
  {
    match response
    case None => NoReply
    case Some(j) =>
      if !Truthy(j) then NoReply
      else match j
        case JObj(m) =>
          if "choices" !in m then NoReply
          else (match Len(m["choices"])
            case None => Raises
            case Some(n) => if n == 0 then NoReply else FirstContent(m["choices"]))
        case JArr(xs) => if JStr("choices") in xs then Raises else NoReply
        case JStr(s) => if Contains(s, "choices") then Raises else NoReply
        case _ => Raises
  }

  /** `extract_content(response)`: 0 when there is no usable reply, the
      parsed first-choice content otherwise; `Failure` for a body whose
      lookup raises, which nothing in the collector catches. */
  function ExtractContent(response: Option<Json>): (r: Result<Number>)
    ensures r.Failure? <==> FirstChoiceContent(response).Raises?
    ensures FirstChoiceContent(response).NoReply? ==> r == Success(Int(0))
    ensures response.Some? && EmptyChoices(response.value) ==> r == Success(Int(0))
    ensures response.Some? && response.value.JObj? ==> (r.Failure? <==> ChoicesUnreadable(response.value))
    ensures response.Some? && WellFormedReply(response.value)
            ==> r == Success(ExtractValue(ReplyText(response.value)))
    ensures r.Success? ==> r.value.Value() >= 0.0
  {
    var reply := FirstChoiceContent(response);
    if reply.NoReply? then Success(Int(0))
    else if reply.Raises? then Failure("TypeError")
    else
      StripIdempotent(reply.text);
      Success(ExtractValue(Strip(reply.text)))
  }

  /** A reply with an empty list of choices reads as 0, and one whose first
      choice has no "message" stops the run. */
  lemma EmptyChoicesReadAsZero()
    ensures ExtractContent(Some(JObj(map["choices" := JArr([])]))) == Success(Int(0))
    ensures ExtractContent(Some(JObj(map["choices" := JArr([JObj(map[])])]))).Failure?
  {
    var empty := map["choices" := JArr([])];
    assert EmptyChoices(JObj(empty));
    var bare := map["choices" := JArr([JObj(map[])])];
    assert !WellFormedReply(JObj(bare));
  }
}
