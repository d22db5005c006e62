/**
 * The value normaliser `clean_currency` (automator.py:18-30): a spreadsheet
 * cell becomes an exact amount.  A missing or blank cell is 0; otherwise every
 * character except digits, ',' and '-' is dropped, every ',' becomes '.', and
 * the text is read as a decimal literal, with 0 when it is not one.
 */
module Currency {
  import opened Wrappers
  import opened Strings

  /** A cell as pandas hands it over: missing (NaN) or the text `str()` gives it. */
  datatype Cell = Empty | Text(text: string)

  /** `str(cell)`: a missing cell prints as "nan". */
  function Printed(c: Cell): string {
    match c
    case Empty => "nan"
    case Text(s) => s
  }

  /** The characters `re.sub(r'[^\d,-]', '', s)` keeps. */
  predicate IsKept(c: char) {
    IsDigit(c) || c == ',' || c == '-'
  }

  /** `re.sub(r'[^\d,-]', '', s)`: the kept characters, in order. */
  function KeepCurrencyChars(s: string): (r: string)
    ensures |r| <= |s|
    ensures forall i | 0 <= i < |r| :: IsKept(r[i])
  {
    if s == [] then []
    else (if IsKept(s[0]) then [s[0]] else []) + KeepCurrencyChars(s[1..])
  }

  /** `s.replace(',', '.')`. */
  function CommasToDots(s: string): (r: string)
    ensures |r| == |s|
    ensures forall i | 0 <= i < |s| :: r[i] == if s[i] == ',' then '.' else s[i]
  {
    seq(|s|, i requires 0 <= i < |s| => if s[i] == ',' then '.' else s[i])
  }

  /** `s.replace(',', '.')` is Python's `str.replace` with ',' and '.'. */
  lemma {:induction false} CommasToDotsIsReplace(s: string)
    ensures CommasToDots(s) == Replace(s, ",", ".")
  {
    if s != [] {
      CommasToDotsIsReplace(s[1..]);
      assert CommasToDots(s) == CommasToDots([s[0]]) + CommasToDots(s[1..]);
      if s[0] == ',' {
        assert s[..1] == ",";
      } else {
        assert s[..1] != ",";
      }
    }
  }

  /** The text `clean_currency` hands to `float()`. */
  function Normalised(s: string): string {
    CommasToDots(KeepCurrencyChars(s))
  }

  predicate AllDigits(s: string) {
    forall i | 0 <= i < |s| :: IsDigit(s[i])
  }

  function Pow10(n: nat): (r: nat)
    ensures r >= 1
  {
    if n == 0 then 1 else 10 * Pow10(n - 1)
  }

  /** The value of one decimal digit. */
  function DigitValue(c: char): nat {
    if IsDigit(c) then c as int - '0' as int else 0
  }

  /** The number a run of decimal digits denotes. */
  function DigitsValue(s: string): nat {
    if s == [] then 0 else DigitsValue(s[..|s| - 1]) * 10 + DigitValue(s[|s| - 1])
  }

  /**
   * Python's `float()` on text without whitespace, sign '+', exponent,
   * underscore or letters: an optional leading '-', then digits with at most
   * one '.', and at least one digit.  Any other text raises, modelled as None.
   */
  function ParseDecimal(s: string): (r: Option<real>)
    ensures r.Some? ==> |s| > 0
    ensures r.Some? && r.value < 0.0 ==> s[0] == '-'
  {
    if |s| > 0 && s[0] == '-' then
      match ParseUnsigned(s[1..])
      case Some(v) => Some(-v)
      case None => None
    else ParseUnsigned(s)
  }

  /** The unsigned part: `digits`, `digits.`, `.digits` or `digits.digits`. */
  function ParseUnsigned(s: string): Option<real> {
    match FindFrom(s, ".", 0)
    case None =>
      if |s| > 0 && AllDigits(s) then Some(DigitsValue(s) as real) else None
    case Some(k) =>
      var whole, frac := s[..k], s[k + 1..];
      if |whole| + |frac| > 0 && AllDigits(whole) && AllDigits(frac)
      then Some(DigitsValue(whole + frac) as real / Pow10(|frac|) as real)
      else None
  }

  /** `try: return float(s)` / `except: return 0.0`. */
  function FloatOrZero(t: string): (r: real)
    ensures ParseDecimal(t).None? ==> r == 0.0
    ensures r < 0.0 ==> |t| > 0 && t[0] == '-'
  {
    match ParseDecimal(t)
    case Some(v) => v
    case None => 0.0
  }

  /** `clean_currency(value)`. */
  function CleanCurrency(c: Cell): (r: real)
    ensures c.Empty? ==> r == 0.0
    ensures c.Text? && IsBlank(c.text) ==> r == 0.0
    ensures r < 0.0 ==> c.Text? && |Normalised(c.text)| > 0 && Normalised(c.text)[0] == '-'
  {
    match c
    case Empty => 0.0
    case Text(s) => if IsBlank(s) then 0.0 else FloatOrZero(Normalised(s))
  }

  // ---------------------------------------------------------------------------
  // What float() accepts, stated without reference to the parser
  // ---------------------------------------------------------------------------

  /**
   * A decimal literal over digits, '.' and '-': a '-' only in front, at most
   * one '.', at least one digit.
   */
  predicate IsDecimalLiteral(t: string) {
    && (forall i | 0 <= i < |t| :: IsDigit(t[i]) || t[i] == '.' || (i == 0 && t[i] == '-'))
    && (forall i, j | 0 <= i < j < |t| :: !(t[i] == '.' && t[j] == '.'))
    && (exists i | 0 <= i < |t| :: IsDigit(t[i]))
  }

  /** Digits and at most one '.', with at least one digit: the unsigned part. */
  predicate IsUnsignedLiteral(u: string) {
    && (forall i | 0 <= i < |u| :: IsDigit(u[i]) || u[i] == '.')
    && (forall i, j | 0 <= i < j < |u| :: !(u[i] == '.' && u[j] == '.'))
    && (exists i | 0 <= i < |u| :: IsDigit(u[i]))
  }

  lemma UnsignedAcceptsIff(u: string)
    ensures ParseUnsigned(u).Some? <==>
      && (forall i | 0 <= i < |u| :: IsDigit(u[i]) || u[i] == '.')
      && (forall i, j | 0 <= i < j < |u| :: !(u[i] == '.' && u[j] == '.'))
      && (exists i | 0 <= i < |u| :: IsDigit(u[i]))
  {
    match FindFrom(u, ".", 0)
    case None =>
      forall i | 0 <= i < |u| ensures u[i] != '.' {
        assert !OccursAt(u, ".", i);
        assert u[i..i + 1] == [u[i]];
      }
      if |u| > 0 && AllDigits(u) {
        assert IsDigit(u[0]);
      }
    case Some(k) =>
      assert u[k..k + 1] == ".";
      forall i | 0 <= i < k ensures u[i] != '.' {
        assert !OccursAt(u, ".", i);
        assert u[i..i + 1] == [u[i]];
      }
      if k + |u[k + 1..]| > 0 && AllDigits(u[..k]) && AllDigits(u[k + 1..]) {
        DottedAccepted(u, k);
      }
      if IsUnsignedLiteral(u) {
        DottedRejected(u, k);
      }
  }

  /** With the first '.' at k, well-formed halves make an unsigned literal. */
  lemma DottedAccepted(u: string, k: nat)
    requires k < |u| && u[k] == '.'
    requires forall i | 0 <= i < k :: u[i] != '.'
    requires k + |u[k + 1..]| > 0 && AllDigits(u[..k]) && AllDigits(u[k + 1..])
    ensures IsUnsignedLiteral(u)
  {
    var whole, frac := u[..k], u[k + 1..];
    if k > 0 {
      assert u[0] == whole[0];
    } else {
      assert u[k + 1] == frac[0];
    }
    forall i, j | 0 <= i < j < |u| ensures !(u[i] == '.' && u[j] == '.') {
      if i < k {
        assert u[i] == whole[i];
      } else if i > k {
        assert u[i] == frac[i - k - 1];
      } else {
        assert u[j] == frac[j - k - 1];
      }
    }
    forall i | 0 <= i < |u| ensures IsDigit(u[i]) || u[i] == '.' {
      if i < k {
        assert u[i] == whole[i];
      } else if i > k {
        assert u[i] == frac[i - k - 1];
      }
    }
  }

  /** With the first '.' at k, an unsigned literal has well-formed halves. */
  lemma DottedRejected(u: string, k: nat)
    requires k < |u| && u[k] == '.'
    requires IsUnsignedLiteral(u)
    ensures k + |u[k + 1..]| > 0 && AllDigits(u[..k]) && AllDigits(u[k + 1..])
  {
    var whole, frac := u[..k], u[k + 1..];
    var d :| 0 <= d < |u| && IsDigit(u[d]);
    assert d != k;
    var dot := u[k];
    forall i | 0 <= i < |whole| ensures IsDigit(whole[i]) {
      assert whole[i] == u[i];
      assert !(u[i] == '.' && dot == '.');
    }
    forall i | 0 <= i < |frac| ensures IsDigit(frac[i]) {
      var c := u[k + 1 + i];
      assert frac[i] == c;
      assert !(dot == '.' && c == '.');
    }
  }

  /** float() succeeds on exactly the decimal literals. */
  lemma {:induction false} ParseDecimalAcceptsIff(t: string)
    ensures ParseDecimal(t).Some? <==> IsDecimalLiteral(t)
  {
    if |t| > 0 && t[0] == '-' {
      var u := t[1..];
      UnsignedAcceptsIff(u);
      if IsDecimalLiteral(t) {
        forall i | 0 <= i < |u| ensures IsDigit(u[i]) || u[i] == '.' {
          assert u[i] == t[i + 1];
        }
        forall i, j | 0 <= i < j < |u| ensures !(u[i] == '.' && u[j] == '.') {
          assert u[i] == t[i + 1] && u[j] == t[j + 1];
        }
        var i :| 0 <= i < |t| && IsDigit(t[i]);
        assert u[i - 1] == t[i];
      }
      if ParseUnsigned(u).Some? {
        var i :| 0 <= i < |u| && IsDigit(u[i]);
        assert t[i + 1] == u[i];
        forall i | 0 <= i < |t| ensures IsDigit(t[i]) || t[i] == '.' || (i == 0 && t[i] == '-') {
          if i > 0 {
            assert t[i] == u[i - 1];
          }
        }
        forall i, j | 0 <= i < j < |t| ensures !(t[i] == '.' && t[j] == '.') {
          if i > 0 {
            assert t[i] == u[i - 1] && t[j] == u[j - 1];
          }
        }
      }
    } else {
      UnsignedAcceptsIff(t);
    }
  }

  // ---------------------------------------------------------------------------
  // The character filter
  // ---------------------------------------------------------------------------

  lemma {:induction false} KeepConcat(a: string, b: string)
    ensures KeepCurrencyChars(a + b) == KeepCurrencyChars(a) + KeepCurrencyChars(b)
  {
    if a != [] {
      assert (a + b)[1..] == a[1..] + b;
      KeepConcat(a[1..], b);
    } else {
      assert a + b == b;
    }
  }

  lemma {:induction false} KeepAllKept(s: string)
    requires forall i | 0 <= i < |s| :: IsKept(s[i])
    ensures KeepCurrencyChars(s) == s
  {
    if s != [] {
      KeepAllKept(s[1..]);
    }
  }

  lemma {:induction false} KeepNoneKept(s: string)
    requires forall i | 0 <= i < |s| :: !IsKept(s[i])
    ensures KeepCurrencyChars(s) == []
  {
    if s != [] {
      KeepNoneKept(s[1..]);
    }
  }

  /**
   * The blank test at automator.py:23 never changes the outcome: blank text
   * filters to nothing, which float() rejects.
   */
  lemma BlankReadsAsFailedParse(s: string)
    requires IsBlank(s)
    ensures KeepCurrencyChars(s) == [] && ParseDecimal(Normalised(s)) == None
  {
    KeepNoneKept(s);
  }

  lemma TextIsFloatOfNormalised(s: string)
    ensures CleanCurrency(Text(s)) == FloatOrZero(Normalised(s))
  {
    if IsBlank(s) {
      BlankReadsAsFailedParse(s);
    }
  }

  /**
   * Text holding no digit, ',' or '-' can be inserted anywhere without
   * changing the amount: currency symbols, spaces, dots and parentheses are
   * all ignored.
   */
  lemma IgnoresDroppedText(a: string, x: string, b: string)
    requires forall i | 0 <= i < |x| :: !IsKept(x[i])
    ensures CleanCurrency(Text(a + x + b)) == CleanCurrency(Text(a + b))
  {
    KeepConcat(a + x, b);
    KeepConcat(a, x);
    KeepConcat(a, b);
    KeepNoneKept(x);
    assert KeepCurrencyChars(a) + [] == KeepCurrencyChars(a);
    assert KeepCurrencyChars(a + x + b) == KeepCurrencyChars(a + b);
    TextIsFloatOfNormalised(a + x + b);
    TextIsFloatOfNormalised(a + b);
  }

  /** Parentheses carry no sign: "(1.000,00)" reads like "1.000,00". */
  lemma ParenthesesCarryNoSign(s: string)
    ensures CleanCurrency(Text("(" + s + ")")) == CleanCurrency(Text(s))
  {
    var open, close, empty: string := "(", ")", [];
    IgnoresDroppedText(empty, open, s + close);
    assert empty + open + (s + close) == open + s + close;
    assert empty + (s + close) == s + close;
    IgnoresDroppedText(s, close, empty);
    assert s + close + empty == s + close;
    assert s + empty == s;
    assert open + s + close == "(" + s + ")";
  }

  // ---------------------------------------------------------------------------
  // Digit strings
  // ---------------------------------------------------------------------------

  function DigitChar(d: nat): (c: char)
    requires d < 10
    ensures IsDigit(c) && c as int - '0' as int == d
  {
    ('0' as int + d) as char
  }

  /** `str(n)` for a natural number. */
  function Digits(n: nat): (r: string)
    ensures |r| > 0 && AllDigits(r)
  {
    if n < 10 then [DigitChar(n)] else Digits(n / 10) + [DigitChar(n % 10)]
  }

  lemma {:induction false} DigitsValueConcat(a: string, b: string)
    requires AllDigits(a) && AllDigits(b)
    ensures AllDigits(a + b)
    ensures DigitsValue(a + b) == DigitsValue(a) * Pow10(|b|) + DigitsValue(b)
    decreases |b|
  {
    AllDigitsConcat(a, b);
    if b == [] {
      assert a + b == a;
    } else {
      var b' := b[..|b| - 1];
      var d := DigitValue(b[|b| - 1]);
      LastDigitSplits(a, b);
      DigitsValueConcat(a, b');
      ShiftDigit(DigitsValue(a), Pow10(|b'|), DigitsValue(b'), d);
    }
  }

  lemma AllDigitsConcat(a: string, b: string)
    requires AllDigits(a) && AllDigits(b)
    ensures AllDigits(a + b)
  {
    forall i | 0 <= i < |a + b| ensures IsDigit((a + b)[i]) {
      if i >= |a| {
        assert (a + b)[i] == b[i - |a|];
      }
    }
  }

  /** Taking the last digit off a + b takes it off b. */
  lemma LastDigitSplits(a: string, b: string)
    requires b != []
    ensures var b', d := b[..|b| - 1], DigitValue(b[|b| - 1]);
      && DigitsValue(a + b) == DigitsValue(a + b') * 10 + d
      && DigitsValue(b) == DigitsValue(b') * 10 + d
      && Pow10(|b|) == Pow10(|b'|) * 10
  {
    var b' := b[..|b| - 1];
    assert (a + b)[..|a + b| - 1] == a + b';
    assert (a + b)[|a + b| - 1] == b[|b| - 1];
  }

  lemma ShiftDigit(x: int, p: int, y: int, d: int)
    ensures (x * p + y) * 10 + d == x * (p * 10) + (y * 10 + d)
  {
  }

  lemma {:induction false} DigitsDenote(n: nat)
    ensures DigitsValue(Digits(n)) == n
  {
    if n >= 10 {
      DigitsDenote(n / 10);
      DigitsValueConcat(Digits(n / 10), [DigitChar(n % 10)]);
      assert DigitsValue([DigitChar(n % 10)]) == n % 10 by {
        assert [DigitChar(n % 10)][..0] == [];
      }
    } else {
      assert [DigitChar(n)][..0] == [];
    }
  }

  lemma NoDotNotFound(s: string)
    requires forall i | 0 <= i < |s| :: s[i] != '.'
    ensures FindFrom(s, ".", 0) == None
  {
    match FindFrom(s, ".", 0)
    case None =>
    case Some(k) =>
      CharAt(s, ".", k, 0);
      assert false;
  }

  /** A plainly printed whole number reads as itself. */
  lemma PlainNumberReadsAsItself(n: nat)
    ensures CleanCurrency(Text(Digits(n))) == n as real
  {
    var d := Digits(n);
    KeepAllKept(d);
    assert CommasToDots(d) == d;
    NoDotNotFound(d);
    DigitsDenote(n);
    TextIsFloatOfNormalised(d);
  }

  // ---------------------------------------------------------------------------
  // Round trip: amounts written the Brazilian way are read back exactly
  // ---------------------------------------------------------------------------

  /** Three digits with leading zeros, one group of "1.200.000". */
  function Pad3(m: nat): (r: string)
    requires m < 1000
    ensures |r| == 3 && AllDigits(r)
  {
    [DigitChar(m / 100)] + TwoDigits(m % 100)
  }

  /** The two cents digits after the decimal comma. */
  function TwoDigits(m: nat): (r: string)
    requires m < 100
    ensures |r| == 2 && AllDigits(r)
  {
    [DigitChar(m / 10), DigitChar(m % 10)]
  }

  /** A whole number with a '.' between groups of three digits. */
  function Grouped(n: nat): string
  {
    if n < 1000 then Digits(n) else Grouped(n / 1000) + "." + Pad3(n % 1000)
  }

  /**
   * An amount given in cents as Brazilian Portuguese writes it, after a
   * currency symbol: "R$ 1.200,50", "-R$ 35,00".
   */
  function FormatAmount(symbol: string, cents: int): string
  {
    var a := if cents < 0 then -cents else cents;
    (if cents < 0 then "-" else "") + symbol + Grouped(a / 100) + "," + TwoDigits(a % 100)
  }

  lemma Pad3Denotes(m: nat)
    requires m < 1000
    ensures DigitsValue(Pad3(m)) == m
  {
    var c: string := [DigitChar(m / 100)];
    assert c[..0] == [];
    TwoDigitsDenote(m % 100);
    DigitsValueConcat(c, TwoDigits(m % 100));
    assert Pow10(2) == 100;
  }

  lemma TwoDigitsDenote(m: nat)
    requires m < 100
    ensures DigitsValue(TwoDigits(m)) == m
  {
    var p := TwoDigits(m);
    assert p[..1][..0] == [];
    assert DigitsValue(p[..1]) == m / 10;
    assert DigitsValue(p) == m / 10 * 10 + m % 10;
  }

  /** Dropping the group dots of `Grouped(n)` leaves the digits of n. */
  lemma {:induction false} GroupedDenotes(n: nat)
    ensures var k := KeepCurrencyChars(Grouped(n));
      |k| > 0 && AllDigits(k) && DigitsValue(k) == n
  {
    if n < 1000 {
      KeepAllKept(Digits(n));
      DigitsDenote(n);
    } else {
      var g, p := Grouped(n / 1000), Pad3(n % 1000);
      GroupedDenotes(n / 1000);
      KeepConcat(g + ".", p);
      KeepConcat(g, ".");
      KeepAllKept(p);
      KeepNoneKept(".");
      var kg := KeepCurrencyChars(g);
      assert KeepCurrencyChars(Grouped(n)) == kg + p;
      DigitsValueConcat(kg, p);
      Pad3Denotes(n % 1000);
      assert Pow10(3) == 1000;
    }
  }

  lemma DotFoundAfterDigits(d: string, f: string)
    requires AllDigits(d)
    ensures FindFrom(d + "." + f, ".", 0) == Some(|d|)
  {
    var u := d + "." + f;
    assert u[|d|..|d| + 1] == ".";
    assert OccursAt(u, ".", |d|);
    match FindFrom(u, ".", 0)
    case None =>
    case Some(k) =>
      if k < |d| {
        CharAt(u, ".", k, 0);
        assert false;
      }
  }

  /** "D.F" with digits on both sides reads as D + F / 10^|F|. */
  lemma UnsignedDecimal(d: string, f: string)
    requires |d| > 0 && AllDigits(d) && AllDigits(f)
    ensures AllDigits(d + f)
    ensures ParseUnsigned(d + "." + f) == Some(DigitsValue(d + f) as real / Pow10(|f|) as real)
  {
    var u := d + "." + f;
    DotFoundAfterDigits(d, f);
    assert u[..|d|] == d;
    assert u[|d| + 1..] == f;
    DigitsValueConcat(d, f);
  }

  lemma KeepFour(w: string, x: string, y: string, z: string)
    ensures KeepCurrencyChars(w + x + y + z)
      == KeepCurrencyChars(w) + KeepCurrencyChars(x) + KeepCurrencyChars(y) + KeepCurrencyChars(z)
  {
    KeepConcat(w + x + y, z);
    KeepConcat(w + x, y);
    KeepConcat(w, x);
  }

  /** The filter turns "-R$ 1.200,50" into "-1200,50". */
  lemma KeptAmount(symbol: string, cents: int)
    requires forall i | 0 <= i < |symbol| :: !IsKept(symbol[i])
    ensures var a := if cents < 0 then -cents else cents;
      KeepCurrencyChars(FormatAmount(symbol, cents))
        == (if cents < 0 then "-" else "") + KeepCurrencyChars(Grouped(a / 100)) + "," + TwoDigits(a % 100)
  {
    var a := if cents < 0 then -cents else cents;
    var sign: string := if cents < 0 then "-" else "";
    var g, f := Grouped(a / 100), TwoDigits(a % 100);
    assert FormatAmount(symbol, cents) == (sign + symbol) + g + "," + f;
    KeepFour(sign + symbol, g, ",", f);
    KeepConcat(sign, symbol);
    KeepNoneKept(symbol);
    KeepAllKept(sign);
    KeepAllKept(",");
    KeepAllKept(f);
    assert sign + [] == sign;
  }

  /** The comma swap turns "-1200,50" into "-1200.50". */
  lemma CommaBecomesPoint(sign: string, d: string, f: string)
    requires sign == "" || sign == "-"
    requires AllDigits(d) && AllDigits(f)
    ensures CommasToDots(sign + d + "," + f) == sign + d + "." + f
  {
    var kept := sign + d + "," + f;
    var want := sign + d + "." + f;
    forall i | 0 <= i < |kept| ensures CommasToDots(kept)[i] == want[i] {
      if i < |sign| {
        assert kept[i] == '-' == want[i];
      } else if i < |sign| + |d| {
        assert kept[i] == d[i - |sign|] == want[i];
      } else if i > |sign| + |d| {
        assert kept[i] == f[i - |sign| - |d| - 1] == want[i];
      }
    }
  }

  /** A '-' in front negates what follows it. */
  lemma MinusNegates(u: string, v: real)
    requires ParseUnsigned(u) == Some(v)
    ensures ParseDecimal("-" + u) == Some(-v)
  {
    assert ("-" + u)[1..] == u;
  }

  /** Without a '-' in front, the text is read unsigned. */
  lemma NoMinusUnsigned(u: string)
    requires |u| > 0 && u[0] != '-'
    ensures ParseDecimal(u) == ParseUnsigned(u)
  {
  }

  /** "1200.50" reads as 120050 / 10^2 and "-1200.50" as its negation. */
  lemma SignedDecimal(negative: bool, d: string, f: string, v: real)
    requires |d| > 0 && AllDigits(d) && AllDigits(f)
    requires ParseUnsigned(d + "." + f) == Some(v)
    ensures ParseDecimal((if negative then "-" else "") + d + "." + f) == Some(if negative then -v else v)
  {
    var u := d + "." + f;
    if negative {
      assert "-" + d + "." + f == "-" + u;
      MinusNegates(u, v);
    } else {
      assert [] + d + "." + f == u;
      assert u[0] == d[0];
      NoMinusUnsigned(u);
    }
  }

  lemma HundredthsOf(n: int, p: int)
    requires p == 100
    ensures n as real / p as real == n as real / 100.0
  {
  }

  /** The digits that survive the filter spell out the amount in cents. */
  lemma CentsDigits(a: nat)
    ensures var d, f := KeepCurrencyChars(Grouped(a / 100)), TwoDigits(a % 100);
      |d| > 0 && AllDigits(d) && AllDigits(d + f) && DigitsValue(d + f) == a
  {
    var d, f := KeepCurrencyChars(Grouped(a / 100)), TwoDigits(a % 100);
    GroupedDenotes(a / 100);
    TwoDigitsDenote(a % 100);
    DigitsValueConcat(d, f);
    assert Pow10(|f|) == 100;
  }

  /** The normalised form of "-R$ 1.200,50" is "-1200.50". */
  lemma FormattedNormalises(symbol: string, cents: int)
    requires forall i | 0 <= i < |symbol| :: !IsKept(symbol[i])
    ensures var a := if cents < 0 then -cents else cents;
      Normalised(FormatAmount(symbol, cents))
        == (if cents < 0 then "-" else "") + KeepCurrencyChars(Grouped(a / 100)) + "." + TwoDigits(a % 100)
  {
    var a := if cents < 0 then -cents else cents;
    CentsDigits(a);
    KeptAmount(symbol, cents);
    CommaBecomesPoint(if cents < 0 then "-" else "", KeepCurrencyChars(Grouped(a / 100)), TwoDigits(a % 100));
  }

  /** "-1200.50" reads as the amount in cents over 100. */
  lemma CentsParse(cents: int)
    ensures var a := if cents < 0 then -cents else cents;
      ParseDecimal((if cents < 0 then "-" else "") + KeepCurrencyChars(Grouped(a / 100)) + "." + TwoDigits(a % 100))
        == Some(cents as real / 100.0)
  {
    var a := if cents < 0 then -cents else cents;
    var d, f := KeepCurrencyChars(Grouped(a / 100)), TwoDigits(a % 100);
    CentsDigits(a);
    UnsignedCents(a);
    SignedCents(cents, d, f);
  }

  /** The sign goes in front of digits that read as the size of the amount. */
  lemma SignedCents(cents: int, d: string, f: string)
    requires |d| > 0 && AllDigits(d) && AllDigits(f)
    requires ParseUnsigned(d + "." + f) == Some((if cents < 0 then -cents else cents) as real / 100.0)
    ensures ParseDecimal((if cents < 0 then "-" else "") + d + "." + f) == Some(cents as real / 100.0)
  {
    var v := (if cents < 0 then -cents else cents) as real / 100.0;
    SignedDecimal(cents < 0, d, f, v);
    SignedHundredths(cents);
  }

  /** "1200.50" reads as the amount in cents over 100. */
  lemma UnsignedCents(a: nat)
    ensures ParseUnsigned(KeepCurrencyChars(Grouped(a / 100)) + "." + TwoDigits(a % 100)) == Some(a as real / 100.0)
  {
    var d, f := KeepCurrencyChars(Grouped(a / 100)), TwoDigits(a % 100);
    CentsDigits(a);
    UnsignedDecimal(d, f);
    var n, p := DigitsValue(d + f), Pow10(|f|);
    assert p == 100 && n == a;
    HundredthsOf(n, p);
  }

  lemma SignedHundredths(cents: int)
    ensures var a := if cents < 0 then -cents else cents;
      (if cents < 0 then -(a as real / 100.0) else a as real / 100.0) == cents as real / 100.0
  {
  }

  /**
   * Round trip: an amount written the Brazilian way, after any currency
   * symbol without digits, commas or hyphens, is read back exactly; this is
   * the "R$ 1.200,50" -> 1200.50 behaviour the normaliser is written for.
   */
  lemma ReadsFormattedAmount(symbol: string, cents: int)
    requires forall i | 0 <= i < |symbol| :: !IsKept(symbol[i])
    ensures CleanCurrency(Text(FormatAmount(symbol, cents))) == cents as real / 100.0
  {
    FormattedNormalises(symbol, cents);
    CentsParse(cents);
    TextIsFloatOfNormalised(FormatAmount(symbol, cents));
  }

  // ---------------------------------------------------------------------------
  // When the result is 0, and where its sign comes from
  // ---------------------------------------------------------------------------

  /**
   * The filtered text float() accepts, stated on the characters kept from the
   * cell: a '-' only in front, at most one ',', at least one digit.
   */
  predicate IsAmountText(k: string) {
    && (forall i | 0 <= i < |k| :: k[i] == '-' ==> i == 0)
    && (forall i, j | 0 <= i < j < |k| :: !(k[i] == ',' && k[j] == ','))
    && (exists i | 0 <= i < |k| :: IsDigit(k[i]))
  }

  lemma KeptTextAcceptedIff(s: string)
    ensures ParseDecimal(Normalised(s)).Some? <==> IsAmountText(KeepCurrencyChars(s))
  {
    var k := KeepCurrencyChars(s);
    ParseDecimalAcceptsIff(CommasToDots(k));
    AmountTextIsLiteral(k);
  }

  /** On kept characters, the swap of ',' for '.' gives a literal exactly when the text is an amount. */
  lemma AmountTextIsLiteral(k: string)
    requires forall i | 0 <= i < |k| :: IsKept(k[i])
    ensures IsDecimalLiteral(CommasToDots(k)) <==> IsAmountText(k)
  {
    var t := CommasToDots(k);
    if IsAmountText(k) {
      var i :| 0 <= i < |k| && IsDigit(k[i]);
      assert IsDigit(t[i]);
    }
    if IsDecimalLiteral(t) {
      var i :| 0 <= i < |t| && IsDigit(t[i]);
      assert IsDigit(k[i]);
      forall i | 0 <= i < |k| ensures k[i] == '-' ==> i == 0 {
        assert t[i] == k[i] || k[i] == ',';
      }
    }
  }

  /**
   * `clean_currency` never fails: whatever is not a number after filtering
   * (no digit, two commas, a hyphen after the first kept character) is 0,
   * and so is a missing or blank cell.
   */
  lemma ZeroUnlessAmountText(c: Cell)
    ensures c.Empty? ==> CleanCurrency(c) == 0.0
    ensures c.Text? && IsBlank(c.text) ==> CleanCurrency(c) == 0.0
    ensures c.Text? && !IsAmountText(KeepCurrencyChars(c.text)) ==> CleanCurrency(c) == 0.0
    ensures CleanCurrency(c) != 0.0 ==> c.Text? && IsAmountText(KeepCurrencyChars(c.text))
  {
    if c.Text? {
      KeptTextAcceptedIff(c.text);
    }
  }

  lemma UnsignedIsNonNegative(u: string)
    ensures ParseUnsigned(u).Some? ==> ParseUnsigned(u).value >= 0.0
  {
  }

  /** A negative amount needs a '-' as the first character kept from the cell. */
  lemma NegativeNeedsLeadingHyphen(c: Cell)
    ensures CleanCurrency(c) < 0.0 ==>
      c.Text? && |KeepCurrencyChars(c.text)| > 0 && KeepCurrencyChars(c.text)[0] == '-'
  {
    if c.Text? {
      var k := KeepCurrencyChars(c.text);
      var t := Normalised(c.text);
      TextIsFloatOfNormalised(c.text);
      if |t| > 0 && t[0] == '-' {
        assert k[0] == '-';
      } else {
        UnsignedIsNonNegative(t);
      }
    }
  }

  // ---------------------------------------------------------------------------
  // The documented examples
  // ---------------------------------------------------------------------------

  lemma SmallNumerals()
    ensures DigitChar(0) == '0' && DigitChar(1) == '1' && DigitChar(2) == '2'
    ensures DigitChar(5) == '5' && TwoDigits(0) == "00" && TwoDigits(50) == "50"
  {
  }

  /** "R$ 1.200,50" reads as 1200.50. */
  lemma ReadsDocstringExample()
    ensures CleanCurrency(Text("R$ 1.200,50")) == 1200.5
  {
    SmallNumerals();
    assert Pad3(200) == "200";
    assert Grouped(1200) == "1.200";
    assert FormatAmount("R$ ", 120050) == "R$ 1.200,50";
    ReadsFormattedAmount("R$ ", 120050);
  }

  /** "1.200,50" reads as 1200.50 without the symbol too. */
  lemma ReadsWithoutSymbol()
    ensures CleanCurrency(Text("1.200,50")) == 1200.5
  {
    SmallNumerals();
    assert Pad3(200) == "200";
    assert Grouped(1200) == "1.200";
    assert FormatAmount("", 120050) == "1.200,50";
    ReadsFormattedAmount("", 120050);
  }

  /** "-500,00" reads as -500: a leading hyphen gives the sign. */
  lemma ReadsLeadingHyphen()
    ensures CleanCurrency(Text("-500,00")) == -500.0
  {
    SmallNumerals();
    assert Grouped(500) == "500";
    assert FormatAmount("", -50000) == "-500,00";
    ReadsFormattedAmount("", -50000);
  }

  lemma ReadsThousand()
    ensures CleanCurrency(Text("1.000,00")) == 1000.0
  {
    SmallNumerals();
    assert Pad3(0) == "000";
    assert Grouped(1000) == "1.000";
    assert FormatAmount("", 100000) == "1.000,00";
    ReadsFormattedAmount("", 100000);
  }

  /** "(1.000,00)" reads as +1000: the accounting parentheses are dropped, not negated. */
  lemma ParenthesisedReadsPositive()
    ensures CleanCurrency(Text("(" + "1.000,00" + ")")) == 1000.0
  {
    ReadsThousand();
    ParenthesesCarryNoSign("1.000,00");
  }

  /**
   * "1200.5", the text of a numeric cell holding 1200.5, reads as 12005: the
   * '.' is dropped before the comma swap.
   */
  lemma NumericCellLosesPoint()
    ensures CleanCurrency(Text("1200.5")) == 12005.0
  {
    IgnoresDroppedText("1200", ".", "5");
    assert "1200" + "." + "5" == "1200.5";
    DigitsOfTwelveThousandFive();
    assert "1200" + "5" == "12005";
    PlainNumberReadsAsItself(12005);
  }

  lemma DigitsOfTwelveThousandFive()
    ensures Digits(12005) == "12005"
  {
    var d1 := Digits(1);
    var d12 := Digits(12);
    var d120 := Digits(120);
    var d1200 := Digits(1200);
    assert d1 == "1";
    assert d12 == d1 + ['2'];
    assert d120 == d12 + ['0'];
    assert d1200 == d120 + ['0'];
    assert Digits(12005) == d1200 + ['5'];
  }

  /** Text with no digits reads as 0. */
  lemma LettersReadZero()
    ensures CleanCurrency(Text("abc")) == 0.0
  {
    KeepNoneKept("abc");
    ZeroUnlessAmountText(Text("abc"));
  }

  /** Two commas are not one number: 0. */
  lemma TwoCommasReadZero()
    ensures CleanCurrency(Text("1,2,3")) == 0.0
  {
    KeepAllKept("1,2,3");
    ZeroUnlessAmountText(Text("1,2,3"));
    assert "1,2,3"[1] == ',' && "1,2,3"[3] == ',';
  }

  /** A hyphen after the first kept character is not a sign: 0. */
  lemma InnerHyphenReadsZero()
    ensures CleanCurrency(Text("10-5")) == 0.0
  {
    KeepAllKept("10-5");
    ZeroUnlessAmountText(Text("10-5"));
    assert "10-5"[2] == '-';
  }
}
