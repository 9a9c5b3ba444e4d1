/**
  The JavaScript string operations the core relies on: `toLowerCase`, `includes`,
  `padStart`, `String(n)` on integers and `parseInt(s, 10)`.
*/
module JsStrings {
  import opened Wrappers

  /**
    The characters `\s` matches in a regular expression, which are also the ones `parseInt`
    skips: ECMAScript WhiteSpace and LineTerminator.
  */
  predicate IsJsSpace(c: char) {
    c == '\t' || c == '\n' || c == '\U{B}' || c == '\U{C}' || c == '\r' || c == ' '
    || c == '\U{A0}' || c == '\U{1680}' || ('\U{2000}' <= c <= '\U{200A}')
    || c == '\U{2028}' || c == '\U{2029}' || c == '\U{202F}' || c == '\U{205F}'
    || c == '\U{3000}' || c == '\U{FEFF}'
  }

  predicate IsDigit(c: char) {
    '0' <= c <= '9'
  }

  predicate AllDigits(s: string) {
    forall k :: 0 <= k < |s| ==> IsDigit(s[k])
  }

  /** The value of a decimal digit (0 for any other character). */
  function DigitValue(c: char): (d: nat)
    ensures d < 10
  {
    if IsDigit(c) then (c as int) - ('0' as int) else 0
  }

  function DigitChar(d: nat): (c: char)
    requires d < 10
    ensures IsDigit(c) && DigitValue(c) == d
  {
    ('0' as int + d) as char
  }

  /** The number a string of decimal digits denotes (most significant digit first). */
  function DigitsValue(s: string): nat {
    if s == [] then 0 else DigitsValue(s[..|s| - 1]) * 10 + DigitValue(s[|s| - 1])
  }

  /** `String(n)` for a non-negative integer: its canonical decimal form. */
  function NatToString(n: nat): (r: string)
    ensures 1 <= |r| && AllDigits(r)
    ensures DigitsValue(r) == n
    ensures r[0] == '0' ==> r == "0"
  {
    if n < 10 then [DigitChar(n)]
    else
      var prefix := NatToString(n / 10);
      var r := prefix + [DigitChar(n % 10)];
      assert r[..|r| - 1] == prefix;
      r
  }

  /** `String(i)` for an integer. */
  function IntToString(i: int): string {
    if i < 0 then "-" + NatToString(-i) else NatToString(i)
  }

  /** `s.padStart(width, fill)` with a one-character fill. */
  function PadStart(s: string, width: nat, fill: char): (r: string)
    ensures |r| == if |s| < width then width else |s|
    ensures forall k :: 0 <= k < |r| - |s| ==> r[k] == fill
  {
    if |s| < width then seq(width - |s|, _ => fill) + s else s
  }

  /**
    Padding keeps the text itself at the end, after the fill characters, and leaves a text
    that is already `width` long or longer unchanged.
  */
  lemma PadStartKeeps(s: string, width: nat, fill: char)
    ensures var r := PadStart(s, width, fill);
      && r[|r| - |s|..] == s
      && (|s| >= width ==> r == s)
  {
    if |s| < width {
      var pad := seq(width - |s|, _ => fill);
      assert PadStart(s, width, fill) == pad + s;
      assert (pad + s)[|pad|..] == s;
    }
  }

  /** `toLowerCase` on one character, restricted to ASCII letters. */
  function LowerChar(c: char): char {
    if 'A' <= c <= 'Z' then (c as int + 32) as char else c
  }

  /** `s.toLowerCase()`, restricted to ASCII letters. */
  function Lower(s: string): (r: string)
    ensures |r| == |s|
    ensures forall k :: 0 <= k < |s| ==> r[k] == LowerChar(s[k])
  {
    seq(|s|, k requires 0 <= k < |s| => LowerChar(s[k]))
  }

  /** An ASCII upper-case letter. */
  predicate IsUpper(c: char) {
    'A' <= c <= 'Z'
  }

  /**
    Lowercasing leaves no upper-case letter, keeps every other character, and changes
    nothing the second time.
  */
  lemma LowerIsLowerCase(s: string)
    ensures forall k :: 0 <= k < |s| ==> !IsUpper(Lower(s)[k])
    ensures forall k :: 0 <= k < |s| && !IsUpper(s[k]) ==> Lower(s)[k] == s[k]
    ensures Lower(Lower(s)) == Lower(s)
  {
  }

  /** Two spellings of a name that differ only in letter case lowercase to the same text. */
  lemma LowerOfCaseVariants()
    ensures Lower("KTH") == Lower("kth") == "kth"
  {
  }

  /** `needle` occurs in `hay` starting at index `i`. */
  ghost predicate OccursAt(hay: string, needle: string, i: nat) {
    i + |needle| <= |hay| && hay[i..i + |needle|] == needle
  }

  /** `hay.includes(needle)`. */
  function Includes(hay: string, needle: string): bool {
    if needle <= hay then true
    else if hay == [] then false
    else Includes(hay[1..], needle)
  }

  /** `includes` answers whether the needle occurs somewhere in the haystack. */
  lemma {:induction false} IncludesOccurs(hay: string, needle: string)
    ensures Includes(hay, needle) <==> exists i: nat :: OccursAt(hay, needle, i)
  {
    if needle <= hay {
      assert OccursAt(hay, needle, 0);
    } else if hay == [] {
    } else {
      IncludesOccurs(hay[1..], needle);
      if Includes(hay[1..], needle) {
        var i: nat :| OccursAt(hay[1..], needle, i);
        assert hay[i + 1..i + 1 + |needle|] == hay[1..][i..i + |needle|];
        assert OccursAt(hay, needle, i + 1);
      }
      if exists i: nat :: OccursAt(hay, needle, i) {
        var i: nat :| OccursAt(hay, needle, i);
        assert i != 0;
        assert hay[1..][i - 1..i - 1 + |needle|] == hay[i..i + |needle|];
        assert OccursAt(hay[1..], needle, i - 1);
      }
    }
  }

  predicate AllSpaces(s: string) {
    forall k :: 0 <= k < |s| ==> IsJsSpace(s[k])
  }

  /** The white space at the start of `s` (what a greedy `\s*` takes). */
  function LeadingSpaces(s: string): (w: string)
    ensures AllSpaces(w)
  {
    if s != [] && IsJsSpace(s[0]) then [s[0]] + LeadingSpaces(s[1..]) else []
  }

  /** What follows the white space at the start of `s`. */
  function SkipSpaces(s: string): (t: string)
    ensures t == [] || !IsJsSpace(t[0])
  {
    if s != [] && IsJsSpace(s[0]) then SkipSpaces(s[1..]) else s
  }

  /** A text is its leading white space followed by the rest. */
  lemma {:induction false} SpacesSplit(s: string)
    ensures s == LeadingSpaces(s) + SkipSpaces(s)
  {
    if s != [] && IsJsSpace(s[0]) {
      SpacesSplit(s[1..]);
      assert s == [s[0]] + s[1..];
    }
  }

  /** The decimal digits at the start of `s` (what a greedy `\d*` takes). */
  function LeadingDigits(s: string): (ds: string)
    ensures AllDigits(ds)
  {
    if s != [] && IsDigit(s[0]) then [s[0]] + LeadingDigits(s[1..]) else []
  }

  /** What follows the decimal digits at the start of `s`. */
  function SkipDigits(s: string): (t: string)
    ensures t == [] || !IsDigit(t[0])
  {
    if s != [] && IsDigit(s[0]) then SkipDigits(s[1..]) else s
  }

  /** A text is its leading digits followed by the rest. */
  lemma {:induction false} DigitsSplit(s: string)
    ensures s == LeadingDigits(s) + SkipDigits(s)
  {
    if s != [] && IsDigit(s[0]) {
      DigitsSplit(s[1..]);
      assert s == [s[0]] + s[1..];
    }
  }

  /** A greedy `\s*` stops where the white space ends. */
  lemma {:induction false} LeadingSpacesOf(w: string, rest: string)
    requires AllSpaces(w)
    requires rest == [] || !IsJsSpace(rest[0])
    ensures LeadingSpaces(w + rest) == w && SkipSpaces(w + rest) == rest
  {
    if w != [] {
      assert (w + rest)[1..] == w[1..] + rest;
      LeadingSpacesOf(w[1..], rest);
    } else {
      assert w + rest == rest;
    }
  }

  /** A greedy `\d*` stops where the digits end. */
  lemma {:induction false} LeadingDigitsOf(ds: string, rest: string)
    requires AllDigits(ds)
    requires rest == [] || !IsDigit(rest[0])
    ensures LeadingDigits(ds + rest) == ds && SkipDigits(ds + rest) == rest
  {
    if ds != [] {
      assert (ds + rest)[1..] == ds[1..] + rest;
      LeadingDigitsOf(ds[1..], rest);
    } else {
      assert ds + rest == rest;
    }
  }

  /**
    `parseInt(s, 10)`: skip leading white space, read an optional sign and the longest run of
    decimal digits after it. `None` stands for `NaN` (no digit at all).
  */
  function ParseInt(s: string): Option<int> {
    var t := SkipSpaces(s);
    var signed := t != [] && (t[0] == '-' || t[0] == '+');
    var digits := LeadingDigits(if signed then t[1..] else t);
    var magnitude: int := DigitsValue(digits);
    if digits == [] then None
    else if signed && t[0] == '-' then Some(-magnitude)
    else Some(magnitude)
  }

  /** `parseInt` of a run of decimal digits is the number they denote. */
  lemma ParseIntOfDigits(ds: string)
    requires ds != [] && AllDigits(ds)
    ensures ParseInt(ds) == Some(DigitsValue(ds))
  {
    assert IsDigit(ds[0]);
    assert SkipSpaces(ds) == ds;
    AllDigitsAreLeading(ds);
  }

  /** A text of digits is its own leading run of digits. */
  lemma {:induction false} AllDigitsAreLeading(ds: string)
    requires AllDigits(ds)
    ensures LeadingDigits(ds) == ds
  {
    if ds != [] {
      AllDigitsAreLeading(ds[1..]);
      assert ds == [ds[0]] + ds[1..];
    }
  }

  /** `parseInt` reads back what `String` writes. */
  lemma ParseIntOfIntToString(n: int)
    ensures ParseInt(IntToString(n)) == Some(n)
  {
    if n >= 0 {
      ParseIntOfDigits(NatToString(n));
    } else {
      var digits := NatToString(-n);
      var s := "-" + digits;
      assert s[0] == '-' && !IsJsSpace(s[0]);
      assert SkipSpaces(s) == s;
      assert s[1..] == digits;
      AllDigitsAreLeading(digits);
      assert LeadingDigits(s[1..]) == digits;
    }
  }
}
