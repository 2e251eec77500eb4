/** The scanner over a growing buffer: src/Server/Connection.cpp:87-92 hands the
    parser the whole message so far after every read, and the cursor makes each
    call go on where the last one stopped. */
module RequestChunks {
  import opened Text
  import opened RequestScanner

  /** The lines of successive calls, one after the other, up to the blank line. */
  function ScanRun(bufs: seq<string>, c: nat): ScanResult {
    if bufs == [] then ScanResult([], c, None)
    else
      var r := Scan(bufs[0], c);
      if r.headerEnd.Some? then r else Prepend(r.lines, ScanRun(bufs[1..], r.cursor))
  }

  /** Every buffer properly extends the one before it. */
  predicate Growing(bufs: seq<string>) {
    |bufs| > 1 ==> bufs[0] < bufs[1] && Growing(bufs[1..])
  }

  function Last(bufs: seq<string>): string
    requires bufs != []
  {
    bufs[|bufs| - 1]
  }

  /** A read that ends after a CR whose LF is still to come. */
  predicate SplitsCrLf(m: string, cut: nat) {
    0 < cut < |m| && m[cut - 1] == '\r' && m[cut] == '\n'
  }

  /** The cut separates a CRLF of the header section. */
  predicate Harmful(m: string, end: Option<nat>, cut: nat) {
    SplitsCrLf(m, cut) && (end.Some? ==> cut < end.value)
  }

  lemma LastExtends(bufs: seq<string>)
    requires bufs != [] && Growing(bufs)
    ensures bufs[0] <= Last(bufs)
    ensures |bufs| > 1 ==> bufs[0] < Last(bufs) && Last(bufs[1..]) == Last(bufs)
  {
    if |bufs| > 1 { LastExtends(bufs[1..]); }
  }

  // ---- one cut -----------------------------------------------------------------

  lemma PrefixBreak(m1: string, m: string, c: nat)
    requires m1 <= m && c <= |m1| && NextBreak(m1, c) < |m1|
    ensures NextBreak(m, c) == NextBreak(m1, c)
  {
    var p := NextBreak(m1, c);
    assert m[c..p] == m1[c..p];
    FirstBreak(m, c, p);
  }

  lemma PrefixTerm(m1: string, m: string, p: nat)
    requires m1 <= m && p < |m1| && IsBreak(m1[p])
    ensures TermLen(m, p) == if p == |m1| - 1 && SplitsCrLf(m, |m1|) then 2 else TermLen(m1, p)
  {
  }

  lemma {:induction false} HeaderEndIsLater(m: string, c: nat)
    ensures Scan(m, c).headerEnd.Some? ==> c < Scan(m, c).headerEnd.value <= |m|
    decreases |m| - c
  {
    var p := NextBreak(m, c);
    if p < |m| && p != c { HeaderEndIsLater(m, p + TermLen(m, p)); }
  }

  /** What the call on a prefix leaves for the calls after it. */
  ghost predicate Resumes(m1: string, m: string, c: nat) {
    var r1, r := Scan(m1, c), Scan(m, c);
    r == if r1.headerEnd.Some? then r1 else Prepend(r1.lines, Scan(m, r1.cursor))
  }

  /** After a harmful cut the next call sees the LF alone, as a blank line. */
  ghost predicate Misreads(m1: string, m: string, c: nat) {
    var r1, r := Scan(m1, c), Scan(m, c);
    if r1.headerEnd.Some? then r.headerEnd != r1.headerEnd
    else r1.cursor == |m1| && r.headerEnd != Some(|m1| + 1)
  }

  lemma {:induction false} ScanCut(m1: string, m: string, c: nat)
    requires m1 < m && c < |m1|
    ensures if Harmful(m, Scan(m, c).headerEnd, |m1|) then Misreads(m1, m, c) else Resumes(m1, m, c)
    decreases |m1| - c
  {
    var p := NextBreak(m1, c);
    if p >= |m1| {
      NoLineYet(m1, m, c);
    } else {
      PrefixBreak(m1, m, c);
      PrefixTerm(m1, m, p);
      if p == |m1| - 1 && SplitsCrLf(m, |m1|) {
        CutHere(m1, m, c);
      } else if p != c {
        var next := p + TermLen(m, p);
        assert m[c..p] == m1[c..p];
        if next < |m1| { ScanCut(m1, m, next); }
        CutLater(m1, m, c);
      }
    }
  }

  lemma NoLineYet(m1: string, m: string, c: nat)
    requires m1 < m && c < |m1| <= NextBreak(m1, c)
    ensures !SplitsCrLf(m, |m1|) && Resumes(m1, m, c)
  {
    assert m1[c..|m1|][|m1| - 1 - c] == m1[|m1| - 1];
    assert Prepend([], Scan(m, c)) == Scan(m, c);
  }

  lemma CutHere(m1: string, m: string, c: nat)
    requires m1 < m && c < |m1| && NextBreak(m1, c) == NextBreak(m, c) == |m1| - 1
    requires SplitsCrLf(m, |m1|) && TermLen(m, |m1| - 1) == 2
    ensures Misreads(m1, m, c) && Harmful(m, Scan(m, c).headerEnd, |m1|)
  {
    assert TermLen(m1, |m1| - 1) == 1;
    if c < |m1| - 1 {
      ScanLine(m, c);
      ScanLine(m1, c);
      assert Scan(m1, |m1|) == ScanResult([], |m1|, None);
      HeaderEndIsLater(m, |m1| + 1);
    } else {
      assert Scan(m, c).headerEnd == Some(|m1| + 1) && Scan(m1, c).headerEnd == Some(|m1|);
    }
  }

  /** The first line is the same in both buffers; the rest follows from the rest. */
  lemma CutLater(m1: string, m: string, c: nat)
    requires m1 < m && SameLine(m1, m, c)
    requires var next := NextBreak(m, c) + TermLen(m, NextBreak(m, c));
             if next == |m1| then !SplitsCrLf(m, |m1|)
             else if Harmful(m, Scan(m, next).headerEnd, |m1|) then Misreads(m1, m, next)
             else Resumes(m1, m, next)
    ensures if Harmful(m, Scan(m, c).headerEnd, |m1|) then Misreads(m1, m, c) else Resumes(m1, m, c)
  {
    var next := NextBreak(m, c) + TermLen(m, NextBreak(m, c));
    ScanLine(m, c);
    ScanLine(m1, c);
    if next == |m1| {
      assert Scan(m1, next) == ScanResult([], next, None);
      assert Prepend([], Scan(m, next)) == Scan(m, next);
    }
    if Resumes(m1, m, next) { ResumesLater(m1, m, c); }
  }

  lemma ResumesLater(m1: string, m: string, c: nat)
    requires m1 < m && SameLine(m1, m, c)
    requires Resumes(m1, m, NextBreak(m, c) + TermLen(m, NextBreak(m, c)))
    ensures Resumes(m1, m, c)
  {
    var p := NextBreak(m, c);
    var n1 := Scan(m1, p + TermLen(m, p));
    ScanLine(m, c);
    ScanLine(m1, c);
    if n1.headerEnd.None? { PrependTwice([m[c..p]], n1.lines, Scan(m, n1.cursor)); }
  }

  ghost predicate SameLine(m1: string, m: string, c: nat) {
    && c < |m1| <= |m|
    && c < NextBreak(m1, c) == NextBreak(m, c) < |m1|
    && TermLen(m, NextBreak(m, c)) == TermLen(m1, NextBreak(m, c))
    && NextBreak(m, c) + TermLen(m, NextBreak(m, c)) <= |m1|
    && m[c..NextBreak(m, c)] == m1[c..NextBreak(m, c)]
  }

  lemma PrependTwice(a: seq<string>, b: seq<string>, r: ScanResult)
    ensures Prepend(a, Prepend(b, r)) == Prepend(a + b, r)
  {
    assert a + (b + r.lines) == a + b + r.lines;
  }

  // ---- any number of reads -----------------------------------------------------

  /** None of the cuts between the buffers separates a CRLF of the header section. */
  predicate Harmless(bufs: seq<string>, m: string, end: Option<nat>) {
    |bufs| > 1 ==> !Harmful(m, end, |bufs[0]|) && Harmless(bufs[1..], m, end)
  }

  /** Reading a message in pieces gives the lines, and the end of the header
      section, of reading it at once exactly when no read ends between the CR
      and the LF of one terminator of the header section. */
  lemma {:induction false} ScanRunExact(bufs: seq<string>, c: nat)
    requires bufs != [] && Growing(bufs) && c < |bufs[0]|
    ensures var m := Last(bufs);
            ScanRun(bufs, c) == Scan(m, c) <==> Harmless(bufs, m, Scan(m, c).headerEnd)
    decreases |bufs|
  {
    var m, m1, r1 := Last(bufs), bufs[0], Scan(bufs[0], c);
    if |bufs| == 1 {
      assert Prepend(r1.lines, ScanResult([], r1.cursor, None)).lines == r1.lines;
    } else {
      LastExtends(bufs);
      ScanCut(m1, m, c);
      ScanStops(m1, c);
      if Harmful(m, Scan(m, c).headerEnd, |m1|) {
        LastExtends(bufs[1..]);
        LoneLf(bufs[1], |m1|);
      } else if r1.headerEnd.Some? {
        HeaderEndIsLater(m1, c);
        PastHeader(bufs, m, r1.headerEnd.value);
      } else {
        ScanRunExact(bufs[1..], r1.cursor);
        PrependCancels(r1.lines, ScanRun(bufs[1..], r1.cursor), Scan(m, r1.cursor));
      }
    }
  }

  lemma LoneLf(m: string, c: nat)
    requires c < |m| && m[c] == '\n'
    ensures Scan(m, c) == ScanResult([], c, Some(c + 1))
  {
  }

  lemma PastHeader(bufs: seq<string>, m: string, end: nat)
    requires bufs != [] && Growing(bufs) && end <= |bufs[0]|
    ensures Harmless(bufs, m, Some(end))
  {
    if |bufs| > 1 { PastHeader(bufs[1..], m, end); }
  }

  lemma PrependCancels(lines: seq<string>, a: ScanResult, b: ScanResult)
    ensures Prepend(lines, a) == Prepend(lines, b) <==> a == b
  {
    if Prepend(lines, a) == Prepend(lines, b) {
      assert (lines + a.lines)[|lines|..] == a.lines;
      assert (lines + b.lines)[|lines|..] == b.lines;
    }
  }
}
