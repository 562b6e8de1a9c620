/** The JavaScript string primitives the scheduling code relies on: the relational `<` on
    strings, `String(n)` for a natural number, `split` on one character, `Number(s)` and
    `parseInt(s, 10)`. Strings are sequences of Dafny characters (Unicode scalar values), so
    `Less` orders them by code point; JavaScript compares UTF-16 code units, which agrees except
    between characters above U+FFFF and those from U+E000 to U+FFFF. */
module JsText {

  import opened Wrappers

  // ---------------------------------------------------------------------------
  // String order
  // ---------------------------------------------------------------------------

  /** `a < b` on strings: the first differing character decides, and a proper prefix is smaller. */
  predicate Less(a: string, b: string)
    decreases |a|
  {
    if a == [] then b != []
    else if b == [] then false
    else if a[0] != b[0] then a[0] < b[0]
    else Less(a[1..], b[1..])
  }

  /** One step of the comparison, for strings built by concatenation. */
  lemma LessCons(x: char, a: string, y: char, b: string)
    ensures Less([x] + a, [y] + b) == if x != y then x < y else Less(a, b)
  {
    assert ([x] + a)[1..] == a;
    assert ([y] + b)[1..] == b;
  }

  lemma {:induction false} LessIrreflexive(a: string)
    ensures !Less(a, a)
    decreases |a|
  {
    if a != [] {
      LessIrreflexive(a[1..]);
    }
  }

  lemma {:induction false} LessAsymmetric(a: string, b: string)
    requires Less(a, b)
    ensures !Less(b, a)
    decreases |a|
  {
    if a != [] && b != [] && a[0] == b[0] {
      LessAsymmetric(a[1..], b[1..]);
    }
  }

  lemma {:induction false} LessTransitive(a: string, b: string, c: string)
    requires Less(a, b) && Less(b, c)
    ensures Less(a, c)
    decreases |a|
  {
    if a != [] && a[0] == b[0] && b[0] == c[0] {
      LessTransitive(a[1..], b[1..], c[1..]);
    }
  }

  /** Any two different strings are ordered one way or the other. */
  lemma {:induction false} LessTotal(a: string, b: string)
    requires a != b
    ensures Less(a, b) || Less(b, a)
    decreases |a|
  {
    if a != [] && b != [] && a[0] == b[0] {
      assert a == [a[0]] + a[1..] && b == [b[0]] + b[1..];
      LessTotal(a[1..], b[1..]);
    }
  }

  /** `b <= a` together with `a < c` gives `b < c`. */
  lemma AtMostThenLess(b: string, a: string, c: string)
    ensures !Less(a, b) && Less(a, c) ==> Less(b, c)
  {
    if !Less(a, b) && Less(a, c) && a != b {
      LessTotal(a, b);
      LessTransitive(b, a, c);
    }
  }

  /** `a >= b` together with `b > c` gives `a > c`. */
  lemma NotLessThenLess(a: string, b: string, c: string)
    requires !Less(a, b) && Less(c, b)
    ensures Less(c, a)
  {
    if a == b {
    } else {
      LessTotal(a, b);
      LessTransitive(c, b, a);
    }
  }

  // ---------------------------------------------------------------------------
  // Decimal digits
  // ---------------------------------------------------------------------------

  predicate IsDigit(c: char) {
    '0' <= c <= '9'
  }

  predicate AllDigits(s: string) {
    forall i :: 0 <= i < |s| ==> IsDigit(s[i])
  }

  function Digit(d: nat): (c: char)
    requires d < 10
    ensures IsDigit(c)
  {
    ('0' as int + d) as char
  }

  /** `String(n)`: the decimal numeral of `n`, with no leading zero. */
  function NatText(n: nat): (s: string)
    ensures 1 <= |s| && AllDigits(s)
    ensures |s| == 1 <==> n < 10
  {
    if n < 10 then [Digit(n)] else NatText(n / 10) + [Digit(n % 10)]
  }

  /** The number a string of digits denotes. */
  function DigitsValue(s: string): nat
    requires AllDigits(s)
  {
    if s == [] then 0
    else DigitsValue(s[..|s| - 1]) * 10 + (s[|s| - 1] as int - '0' as int)
  }

  /** Reading back the numeral of `n` gives `n`. */
  lemma {:induction false} DigitsValueOfNatText(n: nat)
    ensures DigitsValue(NatText(n)) == n
  {
    if n >= 10 {
      var s := NatText(n);
      assert s[..|s| - 1] == NatText(n / 10);
      DigitsValueOfNatText(n / 10);
    }
  }

  /** A leading zero does not change the value of a numeral. */
  lemma {:induction false} DigitsValueLeadingZero(s: string)
    requires AllDigits(s)
    ensures AllDigits("0" + s) && DigitsValue("0" + s) == DigitsValue(s)
    decreases |s|
  {
    if s != [] {
      var t := "0" + s;
      assert t[..|t| - 1] == "0" + s[..|s| - 1];
      DigitsValueLeadingZero(s[..|s| - 1]);
    }
  }

  // ---------------------------------------------------------------------------
  // split, Number, parseInt
  // ---------------------------------------------------------------------------

  /** `s.split(sep)`: the fields between occurrences of `sep`; the empty string gives `[""]`. */
  function Split(s: string, sep: char): (r: seq<string>)
    ensures |r| >= 1
    decreases |s|
  {
    if s == [] then [""]
    else
      var rest := Split(s[1..], sep);
      if s[0] == sep then [""] + rest else [[s[0]] + rest[0]] + rest[1..]
  }

  /** A field followed by the separator splits off as the first field. */
  lemma {:induction false} SplitAt(a: string, sep: char, b: string)
    requires sep !in a
    ensures Split(a + [sep] + b, sep) == [a] + Split(b, sep)
    decreases |a|
  {
    if a == [] {
      assert ([sep] + b)[1..] == b;
    } else {
      assert (a + [sep] + b)[1..] == a[1..] + [sep] + b;
      SplitAt(a[1..], sep, b);
      assert [a[0]] + a[1..] == a;
    }
  }

  /** A string without the separator is a single field. */
  lemma {:induction false} SplitWhole(a: string, sep: char)
    requires sep !in a
    ensures Split(a, sep) == [a]
    decreases |a|
  {
    if a != [] {
      SplitWhole(a[1..], sep);
      assert [a[0]] + a[1..] == a;
    }
  }

  /** `Number(s)` for a field of a time string: the empty string is 0, a string of digits is
      its value, anything else is `NaN` (`None`). */
  function NumberOf(s: string): Option<nat> {
    if AllDigits(s) then Some(DigitsValue(s)) else None
  }

  /** The longest prefix of `s` made of digits. */
  function LeadingDigits(s: string): (d: string)
    ensures AllDigits(d) && |d| <= |s| && d == s[..|d|]
    ensures |d| < |s| ==> !IsDigit(s[|d|])
  {
    if s != [] && IsDigit(s[0]) then [s[0]] + LeadingDigits(s[1..]) else []
  }

  /** `parseInt(s, 10)`: the value of the leading digits, `NaN` (`None`) when there are none. */
  function ParseInt(s: string): Option<nat> {
    var d := LeadingDigits(s);
    if d == [] then None else Some(DigitsValue(d))
  }

  /** On a numeral, `parseInt` reads the whole of it. */
  lemma {:induction false} LeadingDigitsOfDigits(s: string)
    requires AllDigits(s)
    ensures LeadingDigits(s) == s
    decreases |s|
  {
    if s != [] {
      LeadingDigitsOfDigits(s[1..]);
    }
  }
}
