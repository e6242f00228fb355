/**
  `format_currency` (app.py lines 31-36): try `float(value)`; on success
  render `f"${number:,.2f}"`, on any exception give `value` back unchanged.

  Whether `float` succeeds is decided here by the grammar CPython's `float`
  accepts for a `str`. What it renders is computed exactly for strings of
  ASCII digits whose value is at most 2^53 (those integers are exact
  doubles); for every other accepted string the floating-point rendering is
  the parameter `renderFloat`.
*/
module Currency {
  import opened Text
  import opened Wrappers

  predicate IsAsciiDigit(c: char) {
    '0' <= c <= '9'
  }

  predicate AllDigits(s: string) {
    forall i :: 0 <= i < |s| ==> IsAsciiDigit(s[i])
  }

  /** First index of `c1` or `c2` in `s`, or `|s|` when neither occurs. */
  function FirstOf(s: string, c1: char, c2: char): (k: nat)
    ensures k <= |s|
    ensures k < |s| ==> s[k] == c1 || s[k] == c2
    ensures forall i :: 0 <= i < k ==> s[i] != c1 && s[i] != c2
  {
    if s == [] then 0
    else if s[0] == c1 || s[0] == c2 then 0
    else 1 + FirstOf(s[1..], c1, c2)
  }

  /** `digitpart ::= digit (["_"] digit)*`: every underscore sits between two digits. */
  predicate DigitPart(d: string) {
    |d| > 0
    && (forall i :: 0 <= i < |d| ==> IsAsciiDigit(d[i]) || d[i] == '_')
    && (forall i :: 0 <= i < |d| && d[i] == '_' ==> 0 < i < |d| - 1 && IsAsciiDigit(d[i - 1]) && IsAsciiDigit(d[i + 1]))
  }

  /** `number ::= [digitpart] "." digitpart | digitpart ["."]` */
  predicate Mantissa(m: string) {
    var k := FirstOf(m, '.', '.');
    if k == |m| then DigitPart(m)
    else (k == 0 || DigitPart(m[..k])) && (DigitPart(m[k + 1..]) || (k > 0 && k + 1 == |m|))
  }

  /** The part after `e`/`E`: `[sign] digitpart`. */
  predicate ExponentDigits(x: string) {
    if |x| > 0 && (x[0] == '+' || x[0] == '-') then DigitPart(x[1..]) else DigitPart(x)
  }

  /** `floatnumber ::= number [exponent]` */
  predicate FloatNumber(u: string) {
    var k := FirstOf(u, 'e', 'E');
    if k == |u| then Mantissa(u) else Mantissa(u[..k]) && ExponentDigits(u[k + 1..])
  }

  /** `inf`, `infinity` or `nan`, in any mix of cases. */
  predicate SpecialValue(u: string) {
    var l := AsciiLower(u);
    l == "inf" || l == "infinity" || l == "nan"
  }

  /**
    The whitespace `float` skips around a number: CPython first maps every
    non-ASCII `isspace` character to a space, then strips the ASCII
    whitespace ` \t\n\v\f\r`. The ASCII separators U+001C-U+001F count
    for `isspace` but are not skipped.
  */
  predicate FloatSpace(c: char) {
    IsSpace(c) && !('\U{1C}' <= c <= '\U{1F}')
  }

  /** `float(value)` does not raise: optional surrounding whitespace, an optional sign, then a number or a special value. */
  predicate FloatSyntax(value: string) {
    var t := StripBy(value, FloatSpace);
    var u := if |t| > 0 && (t[0] == '+' || t[0] == '-') then t[1..] else t;
    SpecialValue(u) || FloatNumber(u)
  }

  /** The largest bound up to which every integer is an exact double: 2^53. */
  const MaxExact: nat := 9007199254740992

  function DigitValue(c: char): nat
    requires IsAsciiDigit(c)
  {
    c as int - '0' as int
  }

  /** The value of a string of decimal digits, most significant first. */
  function DigitsValue(s: string): nat
    requires AllDigits(s)
  {
    if s == [] then 0 else DigitsValue(s[..|s| - 1]) * 10 + DigitValue(s[|s| - 1])
  }

  /** Inputs for which `float` gives an integer exactly and the rendering is computed here. */
  predicate ExactInteger(value: string) {
    |value| > 0 && AllDigits(value) && DigitsValue(value) <= MaxExact
  }

  function DigitChar(d: nat): (c: char)
    requires d < 10
    ensures IsAsciiDigit(c) && DigitValue(c) == d
  {
    ('0' as int + d) as char
  }

  /** The decimal numeral of `n`, without leading zeros. */
  function Decimal(n: nat): (r: string)
    ensures |r| > 0 && AllDigits(r)
  {
    if n < 10 then [DigitChar(n)] else Decimal(n / 10) + [DigitChar(n % 10)]
  }

  /** Three digits for `k < 1000`, zero-padded on the left. */
  function Pad3(k: nat): (r: string)
    requires k < 1000
    ensures |r| == 3 && AllDigits(r)
  {
    [DigitChar(k / 100), DigitChar(k / 10 % 10), DigitChar(k % 10)]
  }

  /** The `,` format specifier on a non-negative integer: groups of three digits separated by commas. */
  function GroupThousands(n: nat): string {
    if n < 1000 then Decimal(n) else GroupThousands(n / 1000) + "," + Pad3(n % 1000)
  }

  /** `format_currency(value)` for a `str` value. */
  function FormatCurrency(value: string, renderFloat: string -> string): string {
    if !FloatSyntax(value) then value
    else if ExactInteger(value) then "$" + GroupThousands(DigitsValue(value)) + ".00"
    else renderFloat(value)
  }

  /** Drops every comma. */
  function RemoveCommas(s: string): string {
    if s == [] then [] else (if s[0] == ',' then [] else [s[0]]) + RemoveCommas(s[1..])
  }

  /** Reads an amount written as `$` + grouped digits + `.00` back into its number. */
  function Unformat(r: string): Option<nat> {
    if |r| >= 4 && r[0] == '$' && r[|r| - 3..] == ".00" && AllDigits(RemoveCommas(r[1..|r| - 3]))
    then Some(DigitsValue(RemoveCommas(r[1..|r| - 3])))
    else None
  }

  // ---------------------------------------------------------------------
  // Which inputs fail to parse

  /** The characters any string `float` accepts can be made of. */
  predicate FloatChar(c: char) {
    FloatSpace(c) || IsAsciiDigit(c) || c in "_.+-eE"
    || AsciiLowerChar(c) in "inf" || AsciiLowerChar(c) in "infinity" || AsciiLowerChar(c) in "nan"
  }

  lemma DigitPartChars(d: string, c: char)
    requires DigitPart(d) && c in d
    ensures FloatChar(c)
  {
  }

  lemma MantissaChars(m: string, c: char)
    requires Mantissa(m) && c in m
    ensures FloatChar(c)
  {
    var k := FirstOf(m, '.', '.');
    var p :| 0 <= p < |m| && m[p] == c;
    if k < |m| {
      if p < k {
        assert m[..k][p] == c;
        DigitPartChars(m[..k], c);
      } else if p > k {
        assert m[k + 1..][p - k - 1] == c;
        DigitPartChars(m[k + 1..], c);
      }
    }
  }

  lemma FloatNumberChars(u: string, c: char)
    requires FloatNumber(u) && c in u
    ensures FloatChar(c)
  {
    var k := FirstOf(u, 'e', 'E');
    var p :| 0 <= p < |u| && u[p] == c;
    if k == |u| {
      MantissaChars(u, c);
    } else if p < k {
      assert u[..k][p] == c;
      MantissaChars(u[..k], c);
    } else if p > k {
      var x := u[k + 1..];
      assert x[p - k - 1] == c;
      if |x| > 0 && (x[0] == '+' || x[0] == '-') && p > k + 1 {
        assert x[1..][p - k - 2] == c;
        DigitPartChars(x[1..], c);
      } else if !(|x| > 0 && (x[0] == '+' || x[0] == '-')) {
        DigitPartChars(x, c);
      }
    }
  }

  /** Every character of a string `float` accepts is a `FloatChar`. */
  lemma FloatSyntaxChars(value: string, p: nat)
    requires FloatSyntax(value) && p < |value|
    ensures FloatChar(value[p])
  {
    var c := value[p];
    if !FloatSpace(c) {
      StripKeeps(value, p, FloatSpace);
      var t := StripBy(value, FloatSpace);
      var u := if |t| > 0 && (t[0] == '+' || t[0] == '-') then t[1..] else t;
      var q :| 0 <= q < |t| && t[q] == c;
      if u != t && q == 0 {
      } else {
        if u != t {
          assert u[q - 1] == c;
        }
        assert c in u;
        if SpecialValue(u) {
          var i :| 0 <= i < |u| && u[i] == c;
          assert AsciiLower(u)[i] == AsciiLowerChar(c);
        } else {
          FloatNumberChars(u, c);
        }
      }
    }
  }

  /** A string holding a character no float literal uses makes `float` raise. */
  lemma ForeignCharFails(value: string, c: char)
    requires c in value && !FloatChar(c)
    ensures !FloatSyntax(value)
  {
    if FloatSyntax(value) {
      var p :| 0 <= p < |value| && value[p] == c;
      FloatSyntaxChars(value, p);
    }
  }

  /** Strings of digits parse. */
  lemma DigitsParse(value: string)
    requires |value| > 0 && AllDigits(value)
    ensures FloatSyntax(value)
  {
    var i, j := StripShape(value, FloatSpace);
    assert i == 0 && j == |value|;
    assert StripBy(value, FloatSpace) == value;
    assert value[0] != '+' && value[0] != '-';
    DigitsFloatNumber(value);
  }

  lemma DigitsFloatNumber(u: string)
    requires |u| > 0 && AllDigits(u)
    ensures FloatNumber(u)
  {
    assert FirstOf(u, 'e', 'E') == |u|;
    assert FirstOf(u, '.', '.') == |u|;
    assert DigitPart(u);
  }

  // ---------------------------------------------------------------------
  // The properties of format_currency

  /**
    When `float` raises, the input comes back unchanged; an exact digit
    string never does, since its rendering starts with `$`.
  */
  lemma PassThrough(value: string, renderFloat: string -> string)
    ensures !FloatSyntax(value) ==> FormatCurrency(value, renderFloat) == value
    ensures ExactInteger(value) ==> FormatCurrency(value, renderFloat) != value
  {
    if ExactInteger(value) {
      CurrencyRoundTrip(value, renderFloat);
      assert FormatCurrency(value, renderFloat)[0] == '$';
      assert IsAsciiDigit(value[0]);
    }
  }

  /** The empty string, whitespace, and anything containing `$` or `,` come back unchanged. */
  lemma PassThroughExamples(value: string, renderFloat: string -> string)
    requires AllSpace(value) || '$' in value || ',' in value
    ensures FormatCurrency(value, renderFloat) == value
  {
    if AllSpace(value) {
      if p :| 0 <= p < |value| && !FloatSpace(value[p]) {
        ForeignCharFails(value, value[p]);
      } else {
        StripEmptyIffAll(value, FloatSpace);
        assert AsciiLower([]) == [];
        assert FirstOf([], '.', '.') == 0;
      }
    } else if '$' in value {
      ForeignCharFails(value, '$');
    } else {
      ForeignCharFails(value, ',');
    }
  }

  /** A digit padded with an ASCII separator (U+001C-U+001F) is rejected by `float` and comes back unchanged. */
  lemma SeparatorPaddingPassesThrough(digits: string, renderFloat: string -> string)
    requires |digits| > 0 && AllDigits(digits)
    ensures FormatCurrency("\U{1C}" + digits, renderFloat) == "\U{1C}" + digits
    ensures FormatCurrency(digits + "\U{1F}", renderFloat) == digits + "\U{1F}"
  {
    assert ("\U{1C}" + digits)[0] == '\U{1C}';
    ForeignCharFails("\U{1C}" + digits, '\U{1C}');
    assert (digits + "\U{1F}")[|digits|] == '\U{1F}';
    ForeignCharFails(digits + "\U{1F}", '\U{1F}');
  }

  lemma {:induction false} DigitsValueAppend(a: string, b: string)
    requires AllDigits(a) && AllDigits(b)
    ensures AllDigits(a + b)
    ensures DigitsValue(a + b) == DigitsValue(a) * Pow10(|b|) + DigitsValue(b)
    decreases |b|
  {
    assert AllDigits(a + b) by {
      forall i | 0 <= i < |a + b| ensures IsAsciiDigit((a + b)[i]) {
        if i >= |a| { assert (a + b)[i] == b[i - |a|]; }
      }
    }
    if b == [] {
      assert a + b == a;
    } else {
      var b' := b[..|b| - 1];
      assert (a + b)[..|a + b| - 1] == a + b';
      assert (a + b)[|a + b| - 1] == b[|b| - 1];
      DigitsValueAppend(a, b');
      ShiftDigit(DigitsValue(a), Pow10(|b'|), DigitsValue(b'), DigitValue(b[|b| - 1]));
    }
  }

  lemma ShiftDigit(x: nat, p: nat, y: nat, d: nat)
    ensures (x * p + y) * 10 + d == x * (10 * p) + (y * 10 + d)
  {
  }

  function Pow10(k: nat): (r: nat)
    ensures r > 0
  {
    if k == 0 then 1 else 10 * Pow10(k - 1)
  }

  lemma {:induction false} DecimalValue(n: nat)
    ensures DigitsValue(Decimal(n)) == n
  {
    if n >= 10 {
      DecimalValue(n / 10);
      var s := Decimal(n / 10) + [DigitChar(n % 10)];
      assert s[..|s| - 1] == Decimal(n / 10);
    }
  }

  lemma Pad3Value(k: nat)
    requires k < 1000
    ensures DigitsValue(Pad3(k)) == k
  {
    var s := Pad3(k);
    assert s[..2][..1] == [s[0]];
    assert [s[0]][..0] == [];
    assert DigitsValue([s[0]]) == k / 100;
    assert DigitsValue(s[..2]) == k / 100 * 10 + k / 10 % 10;
    assert DigitsValue(s) == (k / 100 * 10 + k / 10 % 10) * 10 + k % 10;
    assert k / 100 == k / 10 / 10;
  }

  lemma RemoveCommasAppend(a: string, b: string)
    ensures RemoveCommas(a + b) == RemoveCommas(a) + RemoveCommas(b)
  {
    if a != [] {
      assert (a + b)[1..] == a[1..] + b;
      RemoveCommasAppend(a[1..], b);
    } else {
      assert a + b == b;
    }
  }

  lemma RemoveCommasDigits(s: string)
    requires AllDigits(s)
    ensures RemoveCommas(s) == s
  {
    if s != [] {
      RemoveCommasDigits(s[1..]);
    }
  }

  /** Removing the commas from the grouped numeral and reading the digits gives the number back. */
  lemma {:induction false} GroupThousandsValue(n: nat)
    ensures AllDigits(RemoveCommas(GroupThousands(n)))
    ensures DigitsValue(RemoveCommas(GroupThousands(n))) == n
  {
    if n < 1000 {
      RemoveCommasDigits(Decimal(n));
      DecimalValue(n);
    } else {
      GroupThousandsValue(n / 1000);
      GroupThousandsValueStep(n);
    }
  }

  lemma GroupThousandsValueStep(n: nat)
    requires n >= 1000
    requires AllDigits(RemoveCommas(GroupThousands(n / 1000)))
    requires DigitsValue(RemoveCommas(GroupThousands(n / 1000))) == n / 1000
    ensures AllDigits(RemoveCommas(GroupThousands(n)))
    ensures DigitsValue(RemoveCommas(GroupThousands(n))) == n
  {
    var hi := GroupThousands(n / 1000);
    var lo := Pad3(n % 1000);
    assert GroupThousands(n) == (hi + ",") + lo;
    RemoveCommasAppend(hi + ",", lo);
    RemoveCommasAppend(hi, ",");
    assert RemoveCommas(",") == [];
    RemoveCommasDigits(lo);
    var digits := RemoveCommas(hi);
    assert RemoveCommas(GroupThousands(n)) == digits + lo;
    DigitsValueAppend(digits, lo);
    Pad3Value(n % 1000);
    assert Pow10(3) == 1000;
  }

  /**
    `\d{1,3}(,\d{3})*`: a comma stands exactly at the positions that are a
    multiple of four from the end, and every other character is a digit.
  */
  predicate Grouped(g: string) {
    |g| > 0 && |g| % 4 != 0
    && forall i :: 0 <= i < |g| ==> (g[i] == ',' <==> (|g| - i) % 4 == 0) && (g[i] != ',' ==> IsAsciiDigit(g[i]))
  }

  lemma GroupedAppend(hi: string, lo: string)
    requires Grouped(hi) && |lo| == 3 && AllDigits(lo)
    ensures Grouped(hi + "," + lo)
  {
    var g := hi + "," + lo;
    forall i | 0 <= i < |g|
      ensures (g[i] == ',' <==> (|g| - i) % 4 == 0) && (g[i] != ',' ==> IsAsciiDigit(g[i]))
    {
      if i < |hi| {
        assert g[i] == hi[i];
        assert |g| - i == (|hi| - i) + 4;
      } else if i > |hi| {
        assert g[i] == lo[i - |hi| - 1];
      }
    }
  }

  /** The grouped numeral has the shape `\d{1,3}(,\d{3})*`. */
  lemma {:induction false} GroupThousandsShape(n: nat)
    ensures Grouped(GroupThousands(n))
  {
    if n < 1000 {
      DecimalLength(n);
    } else {
      GroupThousandsShape(n / 1000);
      GroupedAppend(GroupThousands(n / 1000), Pad3(n % 1000));
    }
  }

  lemma {:induction false} DecimalLength(n: nat)
    ensures n < 10 ==> |Decimal(n)| == 1
    ensures n < 100 ==> |Decimal(n)| <= 2
    ensures n < 1000 ==> |Decimal(n)| <= 3
  {
    if n >= 10 {
      DecimalLength(n / 10);
    }
  }

  /**
    A digit string is rendered as `$`, its value grouped in threes with `,`,
    and `.00`; reading that rendering back yields the value.
  */
  lemma CurrencyRoundTrip(value: string, renderFloat: string -> string)
    requires ExactInteger(value)
    ensures var r := FormatCurrency(value, renderFloat);
      r == "$" + GroupThousands(DigitsValue(value)) + ".00"
      && Unformat(r) == Some(DigitsValue(value))
  {
    DigitsParse(value);
    var n := DigitsValue(value);
    var r := FormatCurrency(value, renderFloat);
    assert r[1..|r| - 3] == GroupThousands(n);
    assert r[|r| - 3..] == ".00";
    GroupThousandsValue(n);
  }
}
