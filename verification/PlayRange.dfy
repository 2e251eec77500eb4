/** src/util/NPT.cpp: the Range header's npt times (section 3.6 of RFC 2326),
    over integer ticks; times are printed with two decimals at most, and in
    scientific form where that is shorter. */
module PlayRange {
  import opened Text
  import opened RequestScanner

  /** Ticks of a ten-thousandth of a second. */
  const TICKS: nat := 10000
  const HUNDREDTH: nat := 100

  /** The decimals printed for `h` hundredths. */
  function Decimals(h: nat): string {
    if h % 10 != 0 then [DigitChar(h % 100 / 10), DigitChar(h % 10)]
    else if h % 100 != 0 then [DigitChar(h % 100 / 10)]
    else ""
  }

  function Point(fraction: string): string { if fraction == "" then "" else "." + fraction }

  function Fixed(h: nat): string { Decimal(h / 100) + Point(Decimals(h)) }

  function Zeros(n: nat): nat
    requires n > 0
  {
    if n % 10 == 0 then 1 + Zeros(n / 10) else 0
  }

  function Significant(n: nat): nat
    requires n > 0
  {
    if n % 10 == 0 then Significant(n / 10) else n
  }

  function ExponentText(x: nat): string { "e+" + ((if x < 10 then "0" else "") + Decimal(x)) }

  /** d[.ddd]e+xx, from the significant digits and the zeros behind them. */
  function ScientificText(first: string, others: string, zeros: nat): string {
    first + (Point(others) + ExponentText(zeros + |others|))
  }

  function Scientific(n: nat): string
    requires n > 0
  {
    DecimalValue(Significant(n));
    ScientificText(Decimal(Significant(n))[..1], Decimal(Significant(n))[1..], Zeros(n))
  }

  /** `std::to_chars` on a float that is a whole number of hundredths: the shorter
      of the two forms, the plain one at a tie.  With decimals it is the plain one. */
  function PrintHundredths(h: nat): string {
    if h > 0 && h % 100 == 0 && |Scientific(h / 100)| < |Fixed(h)| then Scientific(h / 100) else Fixed(h)
  }

  /** `sec`: cut to hundredths; more than 15 characters throw. */
  function PrintTime(t: nat): Option<string> {
    var s := PrintHundredths(t / HUNDREDTH);
    if |s| > 15 then None else Some(s)
  }

  function PrintRange(begin: nat, end: nat): Option<string> {
    var b, e := PrintTime(begin), PrintTime(end);
    if b.None? || e.None? then None else Some(b.value + "-" + e.value)
  }

  function Pow10(k: nat): (p: nat)
    ensures p > 0
  {
    if k == 0 then 1 else 10 * Pow10(k - 1)
  }

  function Over(n: nat, d: nat): nat
    requires d > 0
  {
    n / d
  }

  function Scaled(n: nat, k: int): nat { if k >= 0 then n * Pow10(k) else Over(n, Pow10(-k)) }

  /** The digits behind the point, if the digits before it end at `k`. */
  function Fraction(s: string, k: nat): string {
    if k < |s| && s[k] == '.' then s[k + 1..][..DigitCount(s[k + 1..])] else ""
  }

  /** What stands behind the mantissa. */
  function Rest(s: string, k: nat): string {
    if k < |s| && s[k] == '.' then s[k + 1..][DigitCount(s[k + 1..])..] else if k <= |s| then s[k..] else ""
  }

  function Digits(s: string): nat { DigitsValue(s[..DigitCount(s)]) }

  /** An exponent, or 0 where there is none. */
  function Exponent(rest: string): int {
    if |rest| < 2 || (rest[0] != 'e' && rest[0] != 'E') then 0
    else if rest[1] == '-' then 0 - (Digits(rest[2..]) as int)
    else if rest[1] == '+' then Digits(rest[2..])
    else Digits(rest[1..])
  }

  /** The value of a mantissa and what follows it. */
  function TimeOf(whole: string, fraction: string, rest: string): nat {
    Scaled(Digits(whole + fraction), 4 + Exponent(rest) - |fraction|)
  }

  /** `std::from_chars` into a float: digits[.digits][exponent], in whole ticks. */
  function ReadTime(s: string): Option<nat> {
    var k := DigitCount(s);
    var fraction := Fraction(s, k);
    if k == 0 && fraction == "" then None
    else Some(TimeOf(s[..k], fraction, Rest(s, k)))
  }

  /** What stands behind "npt=". */
  function ReadEnds(text: string): Option<(nat, nat)> {
    var parts := Split(text, '-');
    if parts == [] then Some((0, 0))
    else
      var begin := ReadTime(parts[0]);
      var end := if |parts| > 1 then ReadTime(parts[1]) else Some(0);
      if begin.None? || end.None? then None else Some((begin.value, end.value))
  }

  /** `parse_range_header`; `None` is an exception, (0, 0) an absent range. */
  function ReadRange(header: string): Option<(nat, nat)> {
    var i := FindString(header, "npt=", 0);
    if i.None? || i.value + 4 > |header| then Some((0, 0)) else ReadEnds(header[i.value + 4..])
  }

  // ---- printing and reading back -------------------------------------------------------

  function Truncated(t: nat): nat { t / HUNDREDTH * HUNDREDTH }

  lemma AllOfIt(d: string)
    requires AllDigits(d)
    ensures DigitCount(d) == |d|
  {
    DigitCountIs(d, "");
    assert d + "" == d;
  }

  lemma AppendDigit(s: string, c: char)
    requires AllDigits(s) && IsDigit(c)
    ensures AllDigits(s + [c]) && DigitsValue(s + [c]) == DigitsValue(s) * 10 + (c as int - '0' as int)
  {
    assert (s + [c])[..|s|] == s;
  }

  lemma AllDigitsValue(d: string)
    requires AllDigits(d)
    ensures Digits(d) == DigitsValue(d)
  {
    AllOfIt(d);
    assert d[..|d|] == d;
  }

  lemma FractionBack(whole: string, fraction: string, rest: string)
    requires AllDigits(fraction) && fraction != "" && (rest == "" || !IsDigit(rest[0]))
    ensures Fraction(whole + ("." + fraction + rest), |whole|) == fraction
    ensures Rest(whole + ("." + fraction + rest), |whole|) == rest
  {
    var s := whole + ("." + fraction + rest);
    DigitCountIs(fraction, rest);
    assert s[|whole| + 1..] == fraction + rest;
    assert (fraction + rest)[..|fraction|] == fraction && (fraction + rest)[|fraction|..] == rest;
  }

  lemma NoFraction(whole: string, rest: string)
    requires rest == "" || rest[0] != '.'
    ensures Fraction(whole + rest, |whole|) == "" && Rest(whole + rest, |whole|) == rest
  {
    assert (whole + rest)[|whole|..] == rest;
  }

  lemma ReadParts(s: string, whole: string, fraction: string, rest: string)
    requires DigitCount(s) == |whole| && whole <= s && (whole != "" || fraction != "")
    requires Fraction(s, |whole|) == fraction && Rest(s, |whole|) == rest
    ensures ReadTime(s) == Some(TimeOf(whole, fraction, rest))
  {
    assert s[..|whole|] == whole;
  }

  /** Its value: all digits, times a power of ten by the exponent and the point, in ticks. */
  lemma TimeOfDigits(whole: string, fraction: string, rest: string, k: int)
    requires AllDigits(whole) && AllDigits(fraction) && k == 4 + Exponent(rest) - |fraction|
    ensures AllDigits(whole + fraction)
    ensures TimeOf(whole, fraction, rest) == Scaled(DigitsValue(whole + fraction), k)
  {
    AllDigitsValue(whole + fraction);
  }

  /** A mantissa, and behind it nothing or a character that ends it. */
  lemma ReadMantissa(whole: string, fraction: string, rest: string)
    requires AllDigits(whole) && AllDigits(fraction) && (whole != "" || fraction != "")
    requires rest == "" || (!IsDigit(rest[0]) && rest[0] != '.')
    ensures ReadTime(whole + (Point(fraction) + rest)) == Some(TimeOf(whole, fraction, rest))
  {
    var s := whole + (Point(fraction) + rest);
    DigitCountIs(whole, Point(fraction) + rest);
    if fraction == "" {
      assert Point(fraction) + rest == rest;
      NoFraction(whole, rest);
    } else {
      FractionBack(whole, fraction, rest);
    }
    ReadParts(s, whole, fraction, rest);
  }

  lemma Powers()
    ensures Pow10(2) == 100 && Pow10(3) == 1000 && Pow10(4) == 10000
  {
    assert Pow10(1) == 10 && Pow10(2) == 10 * Pow10(1) && Pow10(3) == 10 * Pow10(2) && Pow10(4) == 10 * Pow10(3);
  }

  lemma TwoDigits(whole: string, a: char, b: char)
    requires AllDigits(whole) && IsDigit(a) && IsDigit(b)
    ensures AllDigits(whole + [a, b])
    ensures DigitsValue(whole + [a, b])
         == (DigitsValue(whole) * 10 + (a as int - '0' as int)) * 10 + (b as int - '0' as int)
  {
    AppendDigit(whole, a);
    AppendDigit(whole + [a], b);
    assert whole + [a] + [b] == whole + [a, b];
  }

  lemma LastDigit(q: nat, r: nat)
    ensures (q * 100 + r) % 10 == r % 10
  {
  }

  lemma Places(h: nat)
    ensures h == h / 100 * 100 + h % 100 && h % 100 == h % 100 / 10 * 10 + h % 10
  {
    LastDigit(h / 100, h % 100);
  }

  lemma FixedValue(h: nat)
    ensures AllDigits(Decimal(h / 100)) && AllDigits(Decimal(h / 100) + Decimals(h)) && |Decimals(h)| <= 2
    ensures Scaled(DigitsValue(Decimal(h / 100) + Decimals(h)), 4 - |Decimals(h)|) == h * HUNDREDTH
  {
    var whole := Decimal(h / 100);
    DecimalValue(h / 100);
    Powers();
    Places(h);
    if h % 10 != 0 {
      TwoDigits(whole, DigitChar(h % 100 / 10), DigitChar(h % 10));
    } else if h % 100 != 0 {
      AppendDigit(whole, DigitChar(h % 100 / 10));
    } else {
      assert whole + "" == whole;
    }
  }

  lemma ReadFixed(h: nat)
    ensures ReadTime(Fixed(h)) == Some(h * HUNDREDTH)
  {
    var d := Decimals(h);
    FixedValue(h);
    DecimalValue(h / 100);
    ReadMantissa(Decimal(h / 100), d, "");
    TimeOfDigits(Decimal(h / 100), d, "", 4 - |d|);
    assert Point(d) + "" == Point(d);
  }

  lemma {:induction false} SignificantIs(n: nat)
    requires n > 0
    ensures Significant(n) > 0 && n == Significant(n) * Pow10(Zeros(n))
    decreases n
  {
    if n % 10 == 0 {
      SignificantIs(n / 10);
      TimesTen(Significant(n / 10), Pow10(Zeros(n / 10)));
    }
  }

  lemma TimesTen(a: nat, b: nat)
    ensures a * (10 * b) == 10 * (a * b)
  {
  }

  lemma {:induction false} PowSum(a: nat, b: nat)
    ensures Pow10(a + b) == Pow10(a) * Pow10(b)
    decreases a
  {
    if a > 0 {
      PowSum(a - 1, b);
      TimesTen(Pow10(b), Pow10(a - 1));
    }
  }

  /** The exponent reads back. */
  lemma ExponentBack(x: nat)
    ensures Exponent(ExponentText(x)) == x
  {
    var d := (if x < 10 then "0" else "") + Decimal(x);
    DecimalValue(x);
    assert ("e+" + d)[2..] == d;
    AllDigitsValue(d);
    if x < 10 {
      assert d == ['0', DigitChar(x)] && d[..1] == "0" && "0"[..0] == "";
    } else {
      assert d == Decimal(x);
    }
  }

  lemma ReadScientificText(first: string, others: string, zeros: nat)
    requires AllDigits(first) && AllDigits(others) && first != ""
    ensures AllDigits(first + others)
    ensures ReadTime(ScientificText(first, others, zeros)) == Some(Scaled(DigitsValue(first + others), 4 + zeros))
  {
    var x := zeros + |others|;
    ExponentBack(x);
    ReadMantissa(first, others, ExponentText(x));
    TimeOfDigits(first, others, ExponentText(x), 4 + zeros);
  }

  lemma ReadScientific(n: nat)
    requires n > 0
    ensures ReadTime(Scientific(n)) == Some(n * TICKS)
  {
    var digits := Decimal(Significant(n));
    SignificantIs(n);
    DecimalValue(Significant(n));
    assert digits[..1] + digits[1..] == digits;
    ReadScientificText(digits[..1], digits[1..], Zeros(n));
    ScaledIs(n, Significant(n), Zeros(n));
  }

  lemma ScaledIs(n: nat, d: nat, z: nat)
    requires n == d * Pow10(z)
    ensures Scaled(d, 4 + z) == n * TICKS
  {
    Powers();
    PowSum(4, z);
    assert d * (TICKS * Pow10(z)) == d * Pow10(z) * TICKS;
  }

  lemma EitherForm(h: nat)
    ensures PrintHundredths(h) == Fixed(h) || (h > 0 && h % 100 == 0 && PrintHundredths(h) == Scientific(h / 100))
  {
  }

  lemma ReadHundredths(h: nat)
    ensures ReadTime(PrintHundredths(h)) == Some(h * HUNDREDTH)
  {
    EitherForm(h);
    ReadFixed(h);
    if h > 0 && h % 100 == 0 {
      ReadScientific(h / 100);
      assert h / 100 * TICKS == h * HUNDREDTH;
    }
  }

  lemma CutTwice(t: nat)
    ensures Truncated(t) / HUNDREDTH == t / HUNDREDTH
  {
  }

  lemma CutPrintsSame(t: nat)
    ensures PrintTime(Truncated(t)) == PrintTime(t)
  {
    CutTwice(t);
  }

  /** A printed time reads back cut to hundredths, and prints the same again. */
  lemma TimeRoundTrip(t: nat)
    requires PrintTime(t).Some?
    ensures ReadTime(PrintTime(t).value) == Some(Truncated(t))
    ensures PrintTime(Truncated(t)) == PrintTime(t)
  {
    ReadHundredths(t / HUNDREDTH);
    CutPrintsSame(t);
  }

  lemma TimeWithoutDash(h: nat)
    ensures Without(PrintHundredths(h), '-') && PrintHundredths(h) != ""
  {
    EitherForm(h);
    FixedWithoutDash(h);
    if h > 0 && h % 100 == 0 { ScientificWithoutDash(h / 100); }
  }

  lemma FixedWithoutDash(h: nat)
    ensures Without(Fixed(h), '-') && Fixed(h) != ""
  {
    DecimalValue(h / 100);
    assert forall i :: 0 <= i < |Decimal(h / 100)| ==> IsDigit(Decimal(h / 100)[i]);
  }

  lemma ScientificWithoutDash(n: nat)
    requires n > 0
    ensures Without(Scientific(n), '-') && Scientific(n) != ""
  {
    DecimalValue(Significant(n));
    TextWithoutDash(Decimal(Significant(n))[..1], Decimal(Significant(n))[1..], Zeros(n));
  }

  lemma TextWithoutDash(first: string, others: string, zeros: nat)
    requires AllDigits(first) && AllDigits(others)
    ensures Without(ScientificText(first, others, zeros), '-') && ScientificText(first, others, zeros) != ""
  {
    ExponentWithoutDash(zeros + |others|);
    assert forall i :: 0 <= i < |first| ==> IsDigit(first[i]);
    assert forall i :: 0 <= i < |others| ==> IsDigit(others[i]);
    WithoutConcat(Point(others), ExponentText(zeros + |others|));
    WithoutConcat(first, Point(others) + ExponentText(zeros + |others|));
  }

  lemma ExponentWithoutDash(x: nat)
    ensures Without(ExponentText(x), '-')
  {
    DecimalValue(x);
    assert forall i :: 0 <= i < |Decimal(x)| ==> IsDigit(Decimal(x)[i]);
    WithoutConcat(if x < 10 then "0" else "", Decimal(x));
    WithoutConcat("e+", (if x < 10 then "0" else "") + Decimal(x));
  }

  lemma WithoutConcat(a: string, b: string)
    requires Without(a, '-') && Without(b, '-')
    ensures Without(a + b, '-')
  {
  }

  lemma SplitPair(b: string, e: string)
    requires Without(b, '-') && Without(e, '-') && e != ""
    ensures Split(b + "-" + e, '-') == [b, e]
  {
    JoinCons(e, [], "-");
    JoinCons(b, [e], "-");
    assert [b, e] == [b] + ([e] + []) && Join([b, e], "-") == b + "-" + e;
    SplitJoin([b, e], '-');
  }

  lemma ReadPair(b: string, e: string)
    requires Without(b, '-') && Without(e, '-') && e != ""
    ensures ReadRange("npt=" + (b + "-" + e)) ==
            if ReadTime(b).None? || ReadTime(e).None? then None else Some((ReadTime(b).value, ReadTime(e).value))
  {
    SplitPair(b, e);
    RangeText(b + "-" + e);
  }

  lemma PrintedDash(t: nat)
    requires PrintTime(t).Some?
    ensures Without(PrintTime(t).value, '-') && PrintTime(t).value != ""
  {
    TimeWithoutDash(t / HUNDREDTH);
  }

  lemma ReadTwo(b: string, e: string, begin: nat, end: nat)
    requires Without(b, '-') && Without(e, '-') && e != ""
    requires ReadTime(b) == Some(begin) && ReadTime(e) == Some(end)
    ensures ReadRange("npt=" + (b + "-" + e)) == Some((begin, end))
  {
    ReadPair(b, e);
  }

  /** A printed range, sent as a header, reads back with each end cut to
      hundredths. */
  lemma RangeRoundTrip(begin: nat, end: nat)
    requires PrintRange(begin, end).Some?
    ensures ReadRange("npt=" + PrintRange(begin, end).value) == Some((Truncated(begin), Truncated(end)))
  {
    TimeRoundTrip(begin);
    TimeRoundTrip(end);
    PrintedDash(begin);
    PrintedDash(end);
    ReadTwo(PrintTime(begin).value, PrintTime(end).value, Truncated(begin), Truncated(end));
  }

  lemma WholeHundredths(t: nat)
    ensures Truncated(t) == t <==> t % HUNDREDTH == 0
  {
  }

  /** It is unchanged exactly when both ends are whole hundredths. */
  lemma RangeUnchangedExactly(begin: nat, end: nat)
    requires PrintRange(begin, end).Some?
    ensures ReadRange("npt=" + PrintRange(begin, end).value) == Some((begin, end))
       <==> begin % HUNDREDTH == 0 && end % HUNDREDTH == 0
  {
    RangeRoundTrip(begin, end);
    WholeHundredths(begin);
    WholeHundredths(end);
  }

  lemma HeaderValue(range: string)
    ensures FindString("npt=" + range, "npt=", 0) == Some(0) && ("npt=" + range)[4..] == range
  {
    assert ("npt=" + range)[0..4] == "npt=";
    assert StartsAt("npt=" + range, 0, "npt=");
  }

  /** The form "-" npt-time of the grammar is refused: the piece before the dash
      is empty. */
  lemma OpenBeginRefused(t: nat)
    ensures ReadRange("npt=-" + PrintHundredths(t)) == None
  {
    TimeWithoutDash(t);
    ReadPair("", PrintHundredths(t));
    assert "npt=-" + PrintHundredths(t) == "npt=" + ("" + "-" + PrintHundredths(t));
  }

  // ---- other headers -------------------------------------------------------------------------

  /** Without "npt=" there is no range. */
  lemma NoRange(header: string)
    requires FindString(header, "npt=", 0).None?
    ensures ReadRange(header) == Some((0, 0))
  {
  }

  /** What stands in front of the first "npt=" does not matter. */
  lemma RangeBehind(header: string, i: nat)
    requires FindString(header, "npt=", 0) == Some(i)
    ensures i + 4 <= |header| && ReadRange(header) == ReadRange("npt=" + header[i + 4..])
  {
    RangeText(header[i + 4..]);
  }

  lemma RangeText(text: string)
    ensures ReadRange("npt=" + text) == ReadEnds(text)
  {
    HeaderValue(text);
  }

  lemma SplitOpen(b: string)
    requires Without(b, '-') && b != ""
    ensures Split(b + "-", '-') == [b] && Split(b, '-') == [b]
  {
    assert AllWithout([b], '-') && Join([b], "-") == b;
    SplitJoin([b], '-');
    JoinCons(b, [""], "-");
    assert [b, ""] == [b] + [""];
    assert "" + Join([b, ""], "-") == b + "-";
    SplitJoinFrom("", [b, ""], '-');
  }

  /** A range without an end, with its dash or without, ends at 0; so do both ends
      of an empty one. */
  lemma OpenEnd(b: string)
    requires Without(b, '-')
    ensures var begin := ReadTime(b);
            b != "" ==> ReadRange("npt=" + (b + "-")) == ReadRange("npt=" + b)
                     == if begin.None? then None else Some((begin.value, 0))
    ensures ReadRange("npt=") == Some((0, 0))
  {
    RangeText(b + "-");
    RangeText(b);
    RangeText("");
    assert "npt=" + "" == "npt=";
    if b != "" { SplitOpen(b); }
  }

  /** The same of a printed time. */
  lemma OpenEndOfTime(t: nat)
    requires PrintTime(t).Some?
    ensures ReadRange("npt=" + (PrintTime(t).value + "-")) == Some((Truncated(t), 0))
  {
    TimeRoundTrip(t);
    PrintedDash(t);
    OpenEnd(PrintTime(t).value);
  }

  /** The exponents that are read, and how; a rest without one leaves the mantissa
      as it is. */
  lemma ExponentForms(c: char, d: string)
    requires (c == 'e' || c == 'E') && AllDigits(d) && d != ""
    ensures Exponent([c] + d) == Exponent([c] + "+" + d) == DigitsValue(d)
    ensures Exponent([c] + "-" + d) == 0 - (DigitsValue(d) as int)
    ensures Exponent("") == Exponent([c]) == 0
  {
    AllDigitsValue(d);
    assert ([c] + d)[1..] == d && ([c] + "+" + d)[2..] == d && ([c] + "-" + d)[2..] == d;
    assert ([c] + d)[1] == d[0];
  }

  // ---- which form is printed ------------------------------------------------------------------

  lemma {:induction false} DecimalLength(n: nat, k: nat)
    requires 0 < k && n < Pow10(k)
    ensures |Decimal(n)| <= k
    decreases k
  {
    if n >= 10 {
      assert Pow10(k) == 10 * Pow10(k - 1);
      DecimalLength(n / 10, k - 1);
    }
  }

  /** The plain form has no zero to spare behind the point. */
  lemma FixedIsShort(h: nat)
    ensures |Decimals(h)| == if h % 100 == 0 then 0 else if h % 10 == 0 then 1 else 2
    ensures |Fixed(h)| == |Decimal(h / 100)| + if h % 100 == 0 then 0 else if h % 10 == 0 then 2 else 3
  {
    LastDigit(h / 100, h % 100);
    assert h / 100 * 100 + h % 100 == h;
  }

  /** Of the two forms the shorter one is printed, and the plain one at a tie. */
  lemma ShorterForm(h: nat)
    ensures |PrintHundredths(h)| <= |Fixed(h)|
    ensures |PrintHundredths(h)| == |Fixed(h)| ==> PrintHundredths(h) == Fixed(h)
    ensures h > 0 && h % 100 == 0 ==> |PrintHundredths(h)| <= |Scientific(h / 100)|
  {
  }

  /** Every time for which the cast to `int` is defined is printed. */
  lemma TimePrints(t: nat)
    requires t / 100 < 0x8000_0000
    ensures PrintTime(t).Some? && |PrintTime(t).value| <= 11
  {
    ShorterForm(t / 100);
    FixedIsShort(t / 100);
    Powers();
    assert Pow10(8) == 10 * Pow10(7) && Pow10(7) == 10 * Pow10(6) && Pow10(6) == 10 * Pow10(5);
    assert Pow10(5) == 10 * Pow10(4);
    DecimalLength(t / 100 / 100, 8);
  }

  /** So every range of such times comes back, cut to hundredths. */
  lemma RangeComesBack(begin: nat, end: nat)
    requires begin / 100 < 0x8000_0000 && end / 100 < 0x8000_0000
    ensures PrintRange(begin, end).Some?
    ensures ReadRange("npt=" + PrintRange(begin, end).value) == Some((begin / 100 * 100, end / 100 * 100))
  {
    TimePrints(begin);
    TimePrints(end);
    RangeRoundTrip(begin, end);
  }

  /** The shortest number of seconds in scientific form. */
  lemma HundredThousand()
    ensures PrintTime(1_000_000_000) == Some("1e+05")
  {
    assert Zeros(1) == 0 && Zeros(10) == 1 && Zeros(100) == 2 && Zeros(1000) == 3 && Zeros(10000) == 4;
    assert Zeros(100000) == 5;
    assert Significant(1) == 1 && Significant(10) == 1 && Significant(100) == 1 && Significant(1000) == 1;
    assert Significant(10000) == 1 && Significant(100000) == 1;
    assert Decimal(1) == "1" && Decimal(5) == "5";
    assert ExponentText(5) == "e+05";
    assert Scientific(100000) == "1e+05";
    assert |Decimal(1)| == 1 && |Decimal(10)| == 2 && |Decimal(100)| == 3 && |Decimal(1000)| == 4;
    assert |Decimal(10000)| == 5 && |Decimal(100000)| == 6;
  }
}
