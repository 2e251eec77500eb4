/** Byte strings as the server's parsers see them: searching, splitting,
    case mapping and decimal numbers.  A C++ `char` is a Dafny `char`. */
module Text {

  datatype Option<+T> = None | Some(value: T)

  predicate Without(s: string, c: char) { forall i :: 0 <= i < |s| ==> s[i] != c }

  /** `std::string::find(c, from)`; `None` stands for `npos`. */
  function FindChar(s: string, c: char, from: nat): (r: Option<nat>)
    ensures r.Some? ==> from <= r.value < |s| && s[r.value] == c
    ensures r.Some? ==> Without(s[from..r.value], c)
    ensures r.None? && from <= |s| ==> Without(s[from..], c)
    decreases |s| - from
  {
    if from >= |s| then None
    else if s[from] == c then Some(from)
    else
      assert s[from..] == [s[from]] + s[from + 1..];
      assert forall j :: from < j <= |s| ==> s[from..j] == [s[from]] + s[from + 1..j];
      FindChar(s, c, from + 1)
  }

  /** The index found is the only one with no earlier occurrence. */
  lemma FindCharIs(s: string, c: char, from: nat, i: nat)
    requires from <= i < |s| && s[i] == c
    requires Without(s[from..i], c)
    ensures FindChar(s, c, from) == Some(i)
    decreases i - from
  {
    if from < i {
      assert s[from..i] == [s[from]] + s[from + 1..i];
      FindCharIs(s, c, from + 1, i);
    }
  }

  lemma FindCharNone(s: string, c: char, from: nat)
    requires from <= |s| && Without(s[from..], c)
    ensures FindChar(s, c, from) == None
    decreases |s| - from
  {
    if from < |s| {
      assert s[from..] == [s[from]] + s[from + 1..];
      FindCharNone(s, c, from + 1);
    }
  }

  // ---- case -------------------------------------------------------------

  function LowerChar(c: char): char {
    if 'A' <= c <= 'Z' then (c as int + 32) as char else c
  }

  function UpperChar(c: char): char {
    if 'a' <= c <= 'z' then (c as int - 32) as char else c
  }

  function Lower(s: string): (r: string)
    ensures |r| == |s| && forall i :: 0 <= i < |s| ==> r[i] == LowerChar(s[i])
  {
    seq(|s|, i requires 0 <= i < |s| => LowerChar(s[i]))
  }

  function Upper(s: string): (r: string)
    ensures |r| == |s| && forall i :: 0 <= i < |s| ==> r[i] == UpperChar(s[i])
  {
    seq(|s|, i requires 0 <= i < |s| => UpperChar(s[i]))
  }

  lemma LowerConcat(a: string, b: string)
    ensures Lower(a + b) == Lower(a) + Lower(b)
  {
  }

  // ---- decimal numbers ----------------------------------------------------

  predicate IsDigit(c: char) { '0' <= c <= '9' }

  predicate AllDigits(s: string) { forall i :: 0 <= i < |s| ==> IsDigit(s[i]) }

  function DigitChar(d: nat): (c: char)
    requires d < 10
    ensures IsDigit(c) && c as int - '0' as int == d
  {
    ('0' as int + d) as char
  }

  /** `std::to_chars` on an unsigned integer. */
  function Decimal(n: nat): string {
    if n < 10 then [DigitChar(n)] else Decimal(n / 10) + [DigitChar(n % 10)]
  }

  function DigitsValue(s: string): nat
    requires AllDigits(s)
  {
    if s == "" then 0
    else DigitsValue(s[..|s| - 1]) * 10 + (s[|s| - 1] as int - '0' as int)
  }

  function DigitCount(s: string): (k: nat)
    ensures k <= |s| && AllDigits(s[..k]) && (k < |s| ==> !IsDigit(s[k]))
  {
    if s == "" || !IsDigit(s[0]) then 0
    else
      var k := DigitCount(s[1..]);
      assert s[..1 + k] == [s[0]] + s[1..][..k];
      1 + k
  }

  /** `std::from_chars` into an unsigned type holding the values below `limit`:
      the longest digit prefix, an error when it is empty or out of range, and
      whatever follows the digits is ignored. */
  function FromChars(s: string, limit: nat): Option<nat> {
    var k := DigitCount(s);
    if k == 0 || DigitsValue(s[..k]) >= limit then None else Some(DigitsValue(s[..k]))
  }

  lemma {:induction false} DecimalValue(n: nat)
    ensures |Decimal(n)| > 0 && AllDigits(Decimal(n)) && DigitsValue(Decimal(n)) == n
  {
    if n < 10 {
      assert Decimal(n)[..0] == "";
    } else {
      DecimalValue(n / 10);
      assert Decimal(n)[..|Decimal(n)| - 1] == Decimal(n / 10);
    }
  }

  /** No zero in front. */
  lemma {:induction false} DecimalIsShort(n: nat)
    ensures n == 0 ==> Decimal(n) == "0"
    ensures n > 0 ==> Decimal(n)[0] != '0'
    decreases n
  {
    DecimalValue(n);
    if n >= 10 {
      DecimalValue(n / 10);
      DecimalIsShort(n / 10);
    }
  }

  lemma DigitCountIs(d: string, rest: string)
    requires AllDigits(d) && (rest != "" ==> !IsDigit(rest[0]))
    ensures DigitCount(d + rest) == |d|
  {
    var s, k := d + rest, DigitCount(d + rest);
    assert forall i :: 0 <= i < |d| ==> s[i] == d[i];
    assert forall i :: 0 <= i < k ==> s[..k][i] == s[i];
    assert rest != "" ==> s[|d|] == rest[0];
  }

  /** Any digits, leading zeros included, and whatever follows them. */
  lemma FromCharsIs(d: string, rest: string, limit: nat)
    requires AllDigits(d) && (rest != "" ==> !IsDigit(rest[0]))
    ensures FromChars(d + rest, limit) == if d == "" || DigitsValue(d) >= limit then None else Some(DigitsValue(d))
  {
    DigitCountIs(d, rest);
    assert (d + rest)[..|d|] == d;
  }

  /** Reading back what was printed gives the number, whatever follows it. */
  lemma FromCharsDecimal(n: nat, rest: string, limit: nat)
    requires rest != "" ==> !IsDigit(rest[0])
    ensures FromChars(Decimal(n) + rest, limit) == if n < limit then Some(n) else None
  {
    DecimalValue(n);
    DigitCountIs(Decimal(n), rest);
    assert (Decimal(n) + rest)[..|Decimal(n)|] == Decimal(n);
  }

  // ---- split and join -------------------------------------------------------

  /** The pieces of `s` from index `i` on. */
  function SplitFrom(s: string, c: char, i: nat): seq<string>
    decreases |s| - i
  {
    if i >= |s| then []
    else match FindChar(s, c, i)
      case None => [s[i..]]
      case Some(j) => [s[i..j]] + SplitFrom(s, c, j + 1)
  }

  /** What `util::split` returns: a trailing separator opens no piece. */
  function Split(s: string, c: char): seq<string> { SplitFrom(s, c, 0) }

  function Join(parts: seq<string>, sep: string): string {
    if |parts| == 0 then ""
    else if |parts| == 1 then parts[0]
    else parts[0] + sep + Join(parts[1..], sep)
  }

  predicate AllWithout(parts: seq<string>, c: char) {
    forall i :: 0 <= i < |parts| ==> Without(parts[i], c)
  }

  lemma SplitStep(s: string, c: char, i: nat)
    requires i < |s|
    ensures var found := FindChar(s, c, i);
            var j := if found.Some? then found.value else |s|;
            SplitFrom(s, c, i) == [s[i..j]] + SplitFrom(s, c, j + 1)
  {
    if FindChar(s, c, i).None? {
      assert SplitFrom(s, c, |s| + 1) == [] && s[i..|s|] == s[i..];
    }
  }

  /** `done` are the pieces found before index `i`. */
  ghost predicate SplitUpTo(s: string, c: char, done: seq<string>, i: nat) {
    done + SplitFrom(s, c, i) == Split(s, c)
  }

  lemma SplitMore(s: string, c: char, done: seq<string>, i: nat, j: nat)
    requires SplitUpTo(s, c, done, i) && i <= j <= |s|
    requires SplitFrom(s, c, i) == [s[i..j]] + SplitFrom(s, c, j + 1)
    ensures SplitUpTo(s, c, done + [s[i..j]], j + 1)
  {
  }

  /** src/util/misc.cpp, `split`: the index loop. */
  method SplitLoop(str: string, c: char) returns (output: seq<string>)
    ensures output == Split(str, c)
  {
    output := [];
    var i := 0;
    while i < |str|
      invariant 0 <= i <= |str| + 1 && SplitUpTo(str, c, output, i)
    {
      var found := FindChar(str, c, i);
      var j := if found.Some? then found.value else |str|;
      SplitStep(str, c, i);
      SplitMore(str, c, output, i, j);
      output := output + [str[i..j]];
      i := j + 1;
    }
  }

  lemma {:induction false} SplitHasNoSeparator(s: string, c: char, i: nat)
    ensures AllWithout(SplitFrom(s, c, i), c)
    decreases |s| - i
  {
    if i < |s| {
      match FindChar(s, c, i)
      case None =>
      case Some(j) => SplitHasNoSeparator(s, c, j + 1);
    }
  }

  /** The input less one trailing separator. */
  function Trimmed(s: string, c: char): string {
    if s != "" && s[|s| - 1] == c then s[..|s| - 1] else s
  }

  lemma JoinCons(a: string, rest: seq<string>, sep: string)
    ensures Join([a] + rest, sep) == if rest == [] then a else a + sep + Join(rest, sep)
  {
    assert ([a] + rest)[1..] == rest;
  }

  /** Joining the pieces gives the input back, less one trailing separator. */
  lemma {:induction false} JoinSplit(s: string, c: char, i: nat)
    requires i <= |s|
    ensures Join(SplitFrom(s, c, i), [c]) == Trimmed(s[i..], c)
    decreases |s| - i
  {
    if i < |s| {
      match FindChar(s, c, i)
      case None => JoinLast(s, c, i);
      case Some(j) =>
        JoinSplit(s, c, j + 1);
        JoinOneMore(s, c, i, j);
    }
  }

  lemma JoinLast(s: string, c: char, i: nat)
    requires i < |s| && FindChar(s, c, i) == None
    ensures Join(SplitFrom(s, c, i), [c]) == Trimmed(s[i..], c)
  {
    assert s[i..][|s[i..]| - 1] != c;
  }

  lemma JoinOneMore(s: string, c: char, i: nat, j: nat)
    requires i <= j < |s| && FindChar(s, c, i) == Some(j)
    requires Join(SplitFrom(s, c, j + 1), [c]) == Trimmed(s[j + 1..], c)
    ensures Join(SplitFrom(s, c, i), [c]) == Trimmed(s[i..], c)
  {
    JoinSplitStep(s, c, i, j);
    JoinCons(s[i..j], SplitFrom(s, c, j + 1), [c]);
  }

  lemma JoinSplitStep(s: string, c: char, i: nat, j: nat)
    requires i <= j < |s| && s[j] == c
    ensures j + 1 == |s| ==> Trimmed(s[i..], c) == s[i..j]
    ensures j + 1 < |s| ==> Trimmed(s[i..], c) == s[i..j] + [c] + Trimmed(s[j + 1..], c)
    ensures SplitFrom(s, c, j + 1) == [] <==> j + 1 == |s|
  {
    assert s[i..] == s[i..j] + [c] + s[j + 1..];
  }

  /** Splitting undoes joining exactly for pieces that hold no separator and
      whose last one is not empty. */
  lemma SplitJoin(parts: seq<string>, c: char)
    ensures Split(Join(parts, [c]), c) == parts
       <==> AllWithout(parts, c) && (parts != [] ==> parts[|parts| - 1] != "")
  {
    SplitHasNoSeparator(Join(parts, [c]), c, 0);
    if AllWithout(parts, c) && parts != [] {
      SplitJoinFrom("", parts, c);
      assert "" + Join(parts, [c]) == Join(parts, [c]);
    }
  }

  /** The pieces less one empty piece at the end. */
  function Kept(parts: seq<string>): seq<string>
    requires parts != []
  {
    if parts[|parts| - 1] == "" then parts[..|parts| - 1] else parts
  }

  lemma KeptCons(parts: seq<string>)
    requires |parts| > 1
    ensures Kept(parts) == [parts[0]] + Kept(parts[1..])
  {
  }

  /** Splitting a joined list that sits behind any prefix. */
  lemma {:induction false} SplitJoinFrom(pre: string, parts: seq<string>, c: char)
    requires parts != [] && AllWithout(parts, c)
    ensures SplitFrom(pre + Join(parts, [c]), c, |pre|) == Kept(parts)
    decreases |parts|
  {
    var p := parts[0];
    if |parts| == 1 {
      LastPiece(pre, p, c);
    } else {
      SplitJoinFrom(pre + p + [c], parts[1..], c);
      FirstPiece(pre, p, c, Join(parts[1..], [c]));
      KeptCons(parts);
      JoinBehind(pre, p, c, Join(parts[1..], [c]));
    }
  }

  lemma JoinBehind(pre: string, p: string, c: char, rest: string)
    ensures pre + (p + [c] + rest) == pre + p + [c] + rest
  {
  }

  lemma LastPiece(pre: string, p: string, c: char)
    requires Without(p, c)
    ensures SplitFrom(pre + p, c, |pre|) == if p == "" then [] else [p]
  {
    assert (pre + p)[|pre|..] == p;
    FindCharNone(pre + p, c, |pre|);
  }

  lemma FirstPiece(pre: string, p: string, c: char, rest: string)
    requires Without(p, c)
    ensures SplitFrom(pre + p + [c] + rest, c, |pre|) ==
            [p] + SplitFrom(pre + p + [c] + rest, c, |pre + p + [c]|)
  {
    var s := pre + p + [c] + rest;
    assert s[|pre|..|pre| + |p|] == p && s[|pre| + |p|] == c;
    FindCharIs(s, c, |pre|, |pre| + |p|);
  }
}
