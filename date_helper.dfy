/**
  The deadline formatter of pages/helper/date-helper.js.

  `formatDeadline(d)` turns a deadline cell into `YYYY-MM-DD`. It recognises the
  `Date(Y, M, D)` text the visualisation-query endpoint emits, adds one to its month, and
  otherwise falls back on the JavaScript date parser. The date parser is a parameter of the
  model (`parse`), since its result depends on the engine and the local time zone.
*/
module DateHelper {
  import opened Wrappers
  import opened JsObjects
  import opened JsStrings

  /**
    What `formatDeadline` returns for a falsy deadline. The source file holds the UTF-8 bytes
    of an em dash read as Windows-1252, i.e. the three characters U+00E2 U+20AC U+201D.
  */
  const Placeholder: string := "\U{E2}\U{20AC}\U{201D}"

  /** The year, zero-based month and day of a `Date` the generic parser accepted. */
  datatype DateParts = DateParts(year: int, monthIndex: int, day: int)

  /**
    The pieces of a text matched by `/^Date\(\s*(\d{4}),\s*(\d{1,2}),\s*(\d{1,2})\s*\)$/i`:
    `head` is `Date(` in any letter case, the `space` fields are the `\s*` runs and
    `year`, `month`, `day` the three capture groups.
  */
  datatype DateLiteral = DateLiteral(
    head: string, space1: string, year: string, space2: string, month: string,
    space3: string, day: string, space4: string)

  /** `c` is `lower` or its upper-case form, as the `i` flag compares ASCII letters. */
  predicate SameLetterIgnoringCase(c: char, lower: char) {
    c == lower || ('a' <= lower <= 'z' && c as int == lower as int - 32)
  }

  /** `s` is `Date(` up to letter case. */
  predicate IsDateHead(s: string) {
    |s| == 5 && SameLetterIgnoringCase(s[0], 'd') && SameLetterIgnoringCase(s[1], 'a')
    && SameLetterIgnoringCase(s[2], 't') && SameLetterIgnoringCase(s[3], 'e') && s[4] == '('
  }

  /** The pieces fit the pattern. */
  predicate WellFormed(m: DateLiteral) {
    && IsDateHead(m.head)
    && AllSpaces(m.space1) && AllSpaces(m.space2) && AllSpaces(m.space3) && AllSpaces(m.space4)
    && |m.year| == 4 && AllDigits(m.year)
    && 1 <= |m.month| <= 2 && AllDigits(m.month)
    && 1 <= |m.day| <= 2 && AllDigits(m.day)
  }

  /** The text the pieces spell, built from its tail: `\s*D\s*)`, then `\s*M,` and `\s*Y,` before it. */
  function DayText(m: DateLiteral): string {
    m.space3 + (m.day + (m.space4 + ")"))
  }

  function MonthText(m: DateLiteral): string {
    m.space2 + (m.month + ("," + DayText(m)))
  }

  function YearText(m: DateLiteral): string {
    m.space1 + (m.year + ("," + MonthText(m)))
  }

  function Text(m: DateLiteral): string {
    m.head + YearText(m)
  }

  /** What `\s*(\d{lo,hi})` takes from the start of a text: spaces, digits and what follows. */
  datatype Field = Field(spaces: string, digits: string, rest: string)

  function MatchField(r: string, lo: nat, hi: nat): (f: Option<Field>)
    ensures f.Some? ==>
      && r == f.value.spaces + (f.value.digits + f.value.rest)
      && AllSpaces(f.value.spaces) && AllDigits(f.value.digits)
      && lo <= |f.value.digits| <= hi
  {
    var w := LeadingSpaces(r);
    var t := SkipSpaces(r);
    var ds := LeadingDigits(t);
    assert r == w + (ds + SkipDigits(t)) by {
      SpacesSplit(r);
      DigitsSplit(t);
    }
    if lo <= |ds| <= hi then Some(Field(w, ds, SkipDigits(t))) else None
  }

  /** `\s*(\d{lo,hi})` splits a text that is spaces, then digits, then a non-digit. */
  lemma MatchFieldOf(w: string, ds: string, rest: string, lo: nat, hi: nat)
    requires AllSpaces(w) && AllDigits(ds) && 1 <= lo <= |ds| <= hi
    requires rest == [] || !IsDigit(rest[0])
    ensures MatchField(w + (ds + rest), lo, hi) == Some(Field(w, ds, rest))
  {
    assert (ds + rest)[0] == ds[0];
    LeadingSpacesOf(w, ds + rest);
    LeadingDigitsOf(ds, rest);
  }

  /** `\s*(\d{1,2})\s*\)$`, the pieces before it already matched. */
  function MatchDay(r: string, head: string, s1: string, year: string, s2: string, month: string)
    : Option<DateLiteral>
  {
    match MatchField(r, 1, 2)
    case None => None
    case Some(d) =>
      if SkipSpaces(d.rest) != ")" then None
      else Some(DateLiteral(head, s1, year, s2, month, d.spaces, d.digits, LeadingSpaces(d.rest)))
  }

  /** `\s*(\d{1,2}),` and the day part. */
  function MatchMonth(r: string, head: string, s1: string, year: string): Option<DateLiteral> {
    match MatchField(r, 1, 2)
    case None => None
    case Some(f) =>
      if f.rest == [] || f.rest[0] != ',' then None
      else MatchDay(f.rest[1..], head, s1, year, f.spaces, f.digits)
  }

  /** `\s*(\d{4}),` and the month and day parts. */
  function MatchYear(r: string, head: string): Option<DateLiteral> {
    match MatchField(r, 4, 4)
    case None => None
    case Some(f) =>
      if f.rest == [] || f.rest[0] != ',' then None
      else MatchMonth(f.rest[1..], head, f.spaces, f.digits)
  }

  /** The match of the anchored `Date(...)` pattern against `s`, if any. */
  function MatchDateLiteral(s: string): Option<DateLiteral> {
    if |s| < 5 || !IsDateHead(s[..5]) then None else MatchYear(s[5..], s[..5])
  }

  lemma DaySound(r: string, head: string, s1: string, year: string, s2: string, month: string)
    requires MatchDay(r, head, s1, year, s2, month).Some?
    ensures var m := MatchDay(r, head, s1, year, s2, month).value;
      && m.head == head && m.space1 == s1 && m.year == year && m.space2 == s2 && m.month == month
      && AllSpaces(m.space3) && AllSpaces(m.space4) && AllDigits(m.day) && 1 <= |m.day| <= 2
      && DayText(m) == r
  {
    var d := MatchField(r, 1, 2).value;
    SpacesSplit(d.rest);
  }

  lemma MonthSound(r: string, head: string, s1: string, year: string)
    requires MatchMonth(r, head, s1, year).Some?
    ensures var m := MatchMonth(r, head, s1, year).value;
      && m.head == head && m.space1 == s1 && m.year == year
      && AllSpaces(m.space2) && AllSpaces(m.space3) && AllSpaces(m.space4)
      && AllDigits(m.month) && 1 <= |m.month| <= 2 && AllDigits(m.day) && 1 <= |m.day| <= 2
      && MonthText(m) == r
  {
    var f := MatchField(r, 1, 2).value;
    DaySound(f.rest[1..], head, s1, year, f.spaces, f.digits);
    assert f.rest == "," + f.rest[1..];
  }

  lemma YearSound(r: string, head: string)
    requires MatchYear(r, head).Some?
    ensures var m := MatchYear(r, head).value;
      && m.head == head
      && AllSpaces(m.space1) && AllSpaces(m.space2) && AllSpaces(m.space3) && AllSpaces(m.space4)
      && |m.year| == 4 && AllDigits(m.year)
      && AllDigits(m.month) && 1 <= |m.month| <= 2 && AllDigits(m.day) && 1 <= |m.day| <= 2
      && YearText(m) == r
  {
    var f := MatchField(r, 4, 4).value;
    MonthSound(f.rest[1..], head, f.spaces, f.digits);
    assert f.rest == "," + f.rest[1..];
  }

  /** What the matcher returns are pieces of the pattern that spell its input. */
  lemma MatchIsSound(s: string, m: DateLiteral)
    requires MatchDateLiteral(s) == Some(m)
    ensures WellFormed(m) && Text(m) == s
  {
    assert WellFormed(m) && m.head == s[..5] && YearText(m) == s[5..] by {
      YearSound(s[5..], s[..5]);
    }
    assert s == s[..5] + s[5..];
  }

  lemma DayComplete(m: DateLiteral)
    requires WellFormed(m)
    ensures MatchDay(DayText(m), m.head, m.space1, m.year, m.space2, m.month) == Some(m)
  {
    var rest := m.space4 + ")";
    assert rest == [] || !IsDigit(rest[0]) by {
      if m.space4 != [] {
        assert rest[0] == m.space4[0];
      }
    }
    MatchFieldOf(m.space3, m.day, rest, 1, 2);
    LeadingSpacesOf(m.space4, ")");
  }

  lemma MonthComplete(m: DateLiteral)
    requires WellFormed(m)
    ensures MatchMonth(MonthText(m), m.head, m.space1, m.year) == Some(m)
  {
    var rest := "," + DayText(m);
    MatchFieldOf(m.space2, m.month, rest, 1, 2);
    assert rest[1..] == DayText(m);
    DayComplete(m);
  }

  lemma YearComplete(m: DateLiteral)
    requires WellFormed(m)
    ensures MatchYear(YearText(m), m.head) == Some(m)
  {
    var rest := "," + MonthText(m);
    MatchFieldOf(m.space1, m.year, rest, 4, 4);
    assert rest[1..] == MonthText(m);
    MonthComplete(m);
  }

  /** Every text the pattern describes is matched, and split into exactly its pieces. */
  lemma MatchIsComplete(m: DateLiteral)
    requires WellFormed(m)
    ensures MatchDateLiteral(Text(m)) == Some(m)
  {
    var s := Text(m);
    assert s[..5] == m.head && s[5..] == YearText(m);
    YearComplete(m);
  }

  /**
    The matcher accepts exactly the texts the regular expression describes, and splits each
    one into its unique pieces.
  */
  lemma MatchExactly(s: string, m: DateLiteral)
    ensures MatchDateLiteral(s) == Some(m) <==> WellFormed(m) && Text(m) == s
  {
    if MatchDateLiteral(s) == Some(m) {
      MatchIsSound(s, m);
    }
    if WellFormed(m) && Text(m) == s {
      MatchIsComplete(m);
    }
  }

  /** `YYYY-MM-DD` from the three parts the source joins. */
  function IsoDate(year: string, month: string, day: string): string {
    year + "-" + month + "-" + day
  }

  /**
    The month of a matched literal: `parseInt` of its digits plus one, left-padded with `0`
    to two characters. `parseInt` of a run of digits is the number they denote
    (`JsStrings.ParseIntOfDigits`).
  */
  function LiteralMonth(month: string): string {
    PadStart(NatToString(DigitsValue(month) + 1), 2, '0')
  }

  /** How a matched `Date(...)` literal is printed. */
  function LiteralIso(m: DateLiteral): string {
    IsoDate(m.year, LiteralMonth(m.month), PadStart(m.day, 2, '0'))
  }

  /** How the parts reported by the generic parser are printed. */
  function PartsIso(p: DateParts): string {
    IsoDate(IntToString(p.year), PadStart(IntToString(p.monthIndex + 1), 2, '0'),
            PadStart(IntToString(p.day), 2, '0'))
  }

  /** `formatDeadline(d)`, with the generic `new Date(s)` parser supplied as `parse`. */
  function FormatDeadline(d: Value, parse: string -> Option<DateParts>): string {
    if !Truthy(d) then Placeholder
    else
      var s := d.s;
      match MatchDateLiteral(s)
      case Some(m) => LiteralIso(m)
      case None =>
        match parse(s)
        case Some(p) => PartsIso(p)
        case None => s
  }

  /** A falsy deadline (null or empty) becomes the placeholder. */
  lemma FormatFalsy(d: Value, parse: string -> Option<DateParts>)
    requires !Truthy(d)
    ensures FormatDeadline(d, parse) == Placeholder
  {
  }

  /** How a matched `Date(...)` text is printed. */
  lemma FormatOfMatch(s: string, m: DateLiteral, parse: string -> Option<DateParts>)
    requires s != "" && MatchDateLiteral(s) == Some(m)
    ensures FormatDeadline(Str(s), parse) == LiteralIso(m)
  {
  }

  /** How the text of a `Date(...)` literal is printed. */
  lemma FormatOfLiteral(m: DateLiteral, parse: string -> Option<DateParts>)
    requires WellFormed(m)
    ensures FormatDeadline(Str(Text(m)), parse) == LiteralIso(m)
  {
    var s := Text(m);
    assert MatchDateLiteral(s) == Some(m) by {
      MatchIsComplete(m);
    }
    assert s != [] by {
      assert |s| >= |m.head|;
    }
    FormatOfMatch(s, m, parse);
  }

  /** A month number up to 98 plus one is written with two digits; 99 plus one with three. */
  lemma PaddedSuccessor(n: nat)
    requires n <= 99
    ensures var r := PadStart(NatToString(n + 1), 2, '0');
      && (n <= 98 ==> |r| == 2 && AllDigits(r) && DigitsValue(r) == n + 1)
      && (n == 99 ==> r == "100")
  {
    var t := NatToString(n + 1);
    if n <= 98 {
      NatToStringLength(n + 1, 2);
      PadKeepsValue(t);
    } else {
      assert t == "100" by {
        assert NatToString(10) == "10";
      }
    }
  }

  /**
    The month of a literal is its number plus one: two digits while the number is at most 98,
    and `100` for 99.
  */
  lemma LiteralMonthOf(month: string)
    requires 1 <= |month| <= 2 && AllDigits(month)
    ensures var r := LiteralMonth(month);
      && (DigitsValue(month) <= 98 ==> |r| == 2 && AllDigits(r) && DigitsValue(r) == DigitsValue(month) + 1)
      && (DigitsValue(month) == 99 ==> r == "100")
  {
    MonthDigits(month);
    PaddedSuccessor(DigitsValue(month));
  }

  /** Where the three parts sit in a `YYYY-MM-DD` text. */
  lemma IsoDateParts(year: string, month: string, day: string)
    requires |year| == 4 && |month| == 2 && |day| == 2
    ensures var r := IsoDate(year, month, day);
      && |r| == 10 && r[..4] == year && r[4] == '-' && r[5..7] == month && r[7] == '-'
      && r[8..] == day
  {
  }

  /**
    A matched literal prints as `Y-MM-DD`: the four year digits verbatim, the month number
    plus one left-padded with `0` to two characters, and the day digits left-padded to two.
    While the month number is at most 98 the result is ten characters with `-` at 4 and 7.
  */
  lemma LiteralIsoShape(m: DateLiteral)
    requires WellFormed(m)
    ensures var r := LiteralIso(m);
      && r[..4] == m.year && r[4] == '-'
      && (DigitsValue(m.month) <= 98 ==>
            |r| == 10 && r[7] == '-'
            && AllDigits(r[5..7]) && DigitsValue(r[5..7]) == DigitsValue(m.month) + 1
            && r[8..] == (if |m.day| == 1 then "0" + m.day else m.day))
      && (DigitsValue(m.month) == 99 ==> r == m.year + "-100-" + PadStart(m.day, 2, '0'))
  {
    var mm := LiteralMonth(m.month);
    var dd := PadStart(m.day, 2, '0');
    PadTwo(m.day);
    LiteralMonthOf(m.month);
    if DigitsValue(m.month) <= 98 {
      IsoDateParts(m.year, mm, dd);
    } else {
      assert IsoDate(m.year, "100", dd) == m.year + "-100-" + dd;
    }
  }

  /** Left-padding to two characters with `0` prefixes a lone character with `0`. */
  lemma PadTwo(s: string)
    requires 1 <= |s| <= 2
    ensures PadStart(s, 2, '0') == if |s| == 1 then "0" + s else s
  {
    if |s| == 1 {
      assert seq(1, _ => '0') == "0";
    }
  }

  /** The text of every `Date(Y, M, D)` literal is printed as `LiteralIsoShape` describes. */
  lemma FormatDateLiteral(m: DateLiteral, parse: string -> Option<DateParts>)
    requires WellFormed(m)
    ensures var r := FormatDeadline(Str(Text(m)), parse);
      && r[..4] == m.year && r[4] == '-'
      && (DigitsValue(m.month) <= 98 ==>
            |r| == 10 && r[7] == '-'
            && AllDigits(r[5..7]) && DigitsValue(r[5..7]) == DigitsValue(m.month) + 1
            && r[8..] == (if |m.day| == 1 then "0" + m.day else m.day))
      && (DigitsValue(m.month) == 99 ==> r == m.year + "-100-" + PadStart(m.day, 2, '0'))
  {
    FormatOfLiteral(m, parse);
    LiteralIsoShape(m);
  }

  /** A one- or two-digit month number is at most 99. */
  lemma MonthDigits(month: string)
    requires 1 <= |month| <= 2 && AllDigits(month)
    ensures DigitsValue(month) <= 99
  {
    var first := month[..1];
    assert first[..0] == [];
    assert DigitsValue(first) == DigitValue(month[0]) < 10;
    if |month| == 2 {
      assert month[..|month| - 1] == first;
      assert DigitsValue(month) == DigitsValue(first) * 10 + DigitValue(month[1]);
    }
  }

  /** Left-padding a one- or two-digit number with `0` to two characters keeps its value. */
  lemma PadKeepsValue(digits: string)
    requires 1 <= |digits| <= 2 && AllDigits(digits)
    ensures AllDigits(PadStart(digits, 2, '0'))
    ensures DigitsValue(PadStart(digits, 2, '0')) == DigitsValue(digits)
  {
    var p := PadStart(digits, 2, '0');
    if |digits| == 1 {
      assert p == ['0', digits[0]];
      assert p[..1] == ['0'] && digits[..0] == [];
    }
  }

  /** The example of the month correction: the deadline `Date(2024,0,15)` is printed `2024-01-15`. */
  lemma LiteralIsoExample(parse: string -> Option<DateParts>)
    ensures FormatDeadline(Str("Date(2024,0,15)"), parse) == "2024-01-15"
  {
    var m := ExampleLiteral();
    FormatOfLiteral(m, parse);
    ExampleLiteralIso(m);
  }

  /** The pieces of `Date(2024,0,15)`. */
  function ExampleLiteral(): (m: DateLiteral)
    ensures WellFormed(m) && Text(m) == "Date(2024,0,15)"
  {
    DateLiteral("Date(", "", "2024", "", "0", "", "15", "")
  }

  /** Month index `0` of the example becomes `01`. */
  lemma ExampleLiteralIso(m: DateLiteral)
    requires m == ExampleLiteral()
    ensures LiteralIso(m) == "2024-01-15"
  {
    assert DigitsValue("0") == 0 by {
      assert "0"[..0] == [];
    }
    assert NatToString(1) == "1";
  }

  /**
    A text that is neither a `Date(...)` literal nor accepted by the generic parser comes
    back unchanged.
  */
  lemma FormatFallthrough(s: string, parse: string -> Option<DateParts>)
    requires s != ""
    requires MatchDateLiteral(s).None? && parse(s).None?
    ensures FormatDeadline(Str(s), parse) == s
  {
  }

  /** How a text the generic parser accepts is printed. */
  lemma FormatOfParsed(s: string, parse: string -> Option<DateParts>, p: DateParts)
    requires s != ""
    requires MatchDateLiteral(s).None? && parse(s) == Some(p)
    ensures FormatDeadline(Str(s), parse) == PartsIso(p)
  {
  }

  /**
    The parts the generic parser reports print as ten characters, the zero-based month plus
    one, when the year has four digits and the month and day are in range.
  */
  lemma PartsIsoShape(p: DateParts)
    requires 1000 <= p.year <= 9999 && 0 <= p.monthIndex < 12 && 1 <= p.day <= 31
    ensures var r := PartsIso(p);
      |r| == 10 && r[4] == '-' && r[7] == '-'
      && AllDigits(r[..4]) && DigitsValue(r[..4]) == p.year
      && AllDigits(r[5..7]) && DigitsValue(r[5..7]) == p.monthIndex + 1
      && AllDigits(r[8..]) && DigitsValue(r[8..]) == p.day
  {
    var y := NatToString(p.year);
    var mm := PadStart(NatToString(p.monthIndex + 1), 2, '0');
    var dd := PadStart(NatToString(p.day), 2, '0');
    NatToStringLength(p.year, 4);
    NatToStringLength(p.monthIndex + 1, 2);
    NatToStringLength(p.day, 2);
    PadKeepsValue(NatToString(p.monthIndex + 1));
    PadKeepsValue(NatToString(p.day));
    assert PartsIso(p) == IsoDate(y, mm, dd);
    IsoDateParts(y, mm, dd);
  }

  /** A text only the generic parser accepts is printed as `PartsIsoShape` describes. */
  lemma FormatParsed(s: string, parse: string -> Option<DateParts>, p: DateParts)
    requires s != ""
    requires MatchDateLiteral(s).None? && parse(s) == Some(p)
    requires 1000 <= p.year <= 9999 && 0 <= p.monthIndex < 12 && 1 <= p.day <= 31
    ensures var r := FormatDeadline(Str(s), parse);
      |r| == 10 && r[4] == '-' && r[7] == '-'
      && AllDigits(r[..4]) && DigitsValue(r[..4]) == p.year
      && AllDigits(r[5..7]) && DigitsValue(r[5..7]) == p.monthIndex + 1
      && AllDigits(r[8..]) && DigitsValue(r[8..]) == p.day
  {
    FormatOfParsed(s, parse, p);
    PartsIsoShape(p);
  }

  /** A number below `10^k` is written with at most `k` digits, and with exactly 4 from 1000. */
  lemma {:induction false} NatToStringLength(n: nat, k: nat)
    requires k >= 1 && n < Pow10(k)
    ensures |NatToString(n)| <= k
    ensures k == 4 && n >= 1000 ==> |NatToString(n)| == 4
  {
    if n >= 10 {
      NatToStringLength(n / 10, k - 1);
      if k == 4 && n >= 1000 {
        NatToStringLength(n / 10, 3);
        NatToStringLength(n / 100, 2);
      }
    }
  }

  function Pow10(k: nat): nat {
    if k == 0 then 1 else 10 * Pow10(k - 1)
  }

  /** No deadline formats to the empty string, so `formatDeadline(...) || null` is never null. */
  lemma FormatNeverEmpty(d: Value, parse: string -> Option<DateParts>)
    ensures FormatDeadline(d, parse) != ""
    ensures FormatDeadlineIntended(d, parse) != ""
  {
  }

  /** The placeholder evidently meant: one em dash, the fallback the home page's cards print. */
  const EmDash: string := "\U{2014}"

  /** `formatDeadline` with the em dash as the placeholder for a falsy deadline. */
  function FormatDeadlineIntended(d: Value, parse: string -> Option<DateParts>): string {
    if !Truthy(d) then EmDash else FormatDeadline(d, parse)
  }

  /**
    As written, a missing deadline is shown as three characters, the em dash's UTF-8 bytes
    read as Windows-1252, and not as the em dash.
  */
  lemma FormatFalsyIsMisencoded(parse: string -> Option<DateParts>)
    ensures FormatDeadline(Null, parse) == Placeholder
    ensures |Placeholder| == 3 && Placeholder != EmDash
  {
  }

  /**
    The intended formatter prints a falsy deadline as the em dash and formats every other
    deadline exactly as the source does.
  */
  lemma FormatIntended(d: Value, parse: string -> Option<DateParts>)
    ensures !Truthy(d) ==> FormatDeadlineIntended(d, parse) == EmDash
    ensures Truthy(d) ==> FormatDeadlineIntended(d, parse) == FormatDeadline(d, parse)
    ensures FormatDeadlineIntended(d, parse) != FormatDeadline(d, parse) <==> !Truthy(d)
  {
  }

  /** The deadline formatter the routes call, as written, over the date parser `parse`. */
  function SourceFormatter(parse: string -> Option<DateParts>): Value -> string {
    d => FormatDeadline(d, parse)
  }

  /** The corrected deadline formatter, over the same date parser. */
  function IntendedFormatter(parse: string -> Option<DateParts>): Value -> string {
    d => FormatDeadlineIntended(d, parse)
  }
}
