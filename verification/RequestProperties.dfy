/** Whole-message properties of the parser: what later bytes and what the way a
    message is cut into reads can and cannot change. */
module RequestProperties {
  import opened Text
  import opened RequestScanner
  import opened RequestChunks
  import opened RequestParser
  import opened RequestHeaders

  /** `parse_request` on each buffer in turn, until one call throws. */
  function ParseRun(request: Request, bufs: seq<string>): Outcome
    decreases |bufs|
  {
    if bufs == [] then Accepted(request)
    else
      var o := Parse(request, bufs[0]);
      if o.Rejected? then o else ParseRun(o.request, bufs[1..])
  }

  lemma {:induction false} RunSnoc(q: Request, bufs: seq<string>, b: string)
    ensures var o := ParseRun(q, bufs);
            ParseRun(q, bufs + [b]) == if o.Rejected? then o else Parse(o.request, b)
    decreases |bufs|
  {
    if bufs == [] {
      assert [b][1..] == [];
    } else {
      assert (bufs + [b])[1..] == bufs[1..] + [b];
      var o := Parse(q, bufs[0]);
      if o.Accepted? { RunSnoc(o.request, bufs[1..], b); }
    }
  }

  lemma {:induction false} RunConcat(q: Request, a: seq<string>, b: seq<string>)
    ensures var o := ParseRun(q, a); ParseRun(q, a + b) == if o.Rejected? then o else ParseRun(o.request, b)
    decreases |a|
  {
    if a == [] {
      assert a + b == b;
    } else {
      assert (a + b)[1..] == a[1..] + b;
      var o := Parse(q, a[0]);
      if o.Accepted? { RunConcat(o.request, a[1..], b); }
    }
  }

  predicate Finished(o: Outcome) { o.Rejected? || o.request.cursor == Complete }

  // ---- later bytes ----------------------------------------------------------------

  ghost predicate Extends(m1: string, m: string, c: nat) {
    var r1, r := Scan(m1, c), Scan(m, c);
    && r1.headerEnd.Some? && r.lines == r1.lines && r.cursor == r1.cursor && r1.headerEnd.value <= |m1|
    && var h1 := r1.headerEnd.value;
       r.headerEnd == Some(if h1 == |m1| && SplitsCrLf(m, |m1|) then h1 + 1 else h1)
  }

  lemma {:induction false} ScanExtends(m1: string, m: string, c: nat)
    requires m1 <= m && c <= |m1| && Scan(m1, c).headerEnd.Some?
    ensures Extends(m1, m, c)
    decreases |m1| - c
  {
    var p := NextBreak(m1, c);
    PrefixBreak(m1, m, c);
    PrefixTerm(m1, m, p);
    if p != c {
      var next := p + TermLen(m1, p);
      HeaderEndIsLater(m1, next);
      assert m1[c..p] == m[c..p];
      ScanExtends(m1, m, next);
      ExtendsLine(m1, m, c);
    }
  }

  lemma ExtendsLine(m1: string, m: string, c: nat)
    requires SameLine(m1, m, c) && Extends(m1, m, NextBreak(m, c) + TermLen(m, NextBreak(m, c)))
    ensures Extends(m1, m, c)
  {
    ScanLine(m1, c);
    ScanLine(m, c);
  }

  lemma {:induction false} CursorKept(q: Request, lines: seq<string>)
    ensures AddHeaders(q, lines).request.cursor == AddLines(q, lines).request.cursor == q.cursor
    decreases |lines|
  {
    if lines != [] {
      if IsHeader(lines[0]) {
        CursorKept(q.(headers := AddHeader(q.headers, lines[0])), lines[1..]);
      }
      CursorKept(SetRequestLine(q, lines[0]).request, lines[1..]);
    }
  }

  lemma FinishExtends(q: Request, m1: string, m: string, h: nat)
    requires m1 <= m && h <= |m1| && |m| < SIZE_LIMIT && Finished(Finish(q, m1, h))
    ensures Finish(q, m, h) == Finish(q, m1, h)
    ensures h == |m1| < |m| ==> Finish(q, m, h + 1) == Finish(q, m1, h)
  {
    if "content-length" in q.headers {
      var length := FromChars(q.headers["content-length"], SIZE_LIMIT);
      if length.Some? && h + length.value <= |m1| {
        assert m1[h..h + length.value] == m[h..h + length.value];
        if h == |m1| < |m| {
          assert m1[h..h] == m[h + 1..h + 1];
        }
      }
    }
  }

  /** Bytes after a complete message change nothing that was read from it, even
      when it ends in CR and an LF follows. */
  lemma PrefixDeterminism(m: string, t: string)
    requires ParseOnce(m).Accepted? && ParseOnce(m).request.cursor == Complete
    requires |m + t| < SIZE_LIMIT
    ensures ParseOnce(m + t) == ParseOnce(m)
  {
    var r := Scan(m, 0);
    CursorKept(FRESH.(cursor := At(r.cursor)), r.lines);
    FinishedByBlank(m, m + t);
  }

  /** The same for a header section that ends in an exception. */
  lemma FinishedByBlank(b: string, m: string)
    requires b <= m && |m| < SIZE_LIMIT && Scan(b, 0).headerEnd.Some? && Finished(ParseOnce(b))
    ensures ParseOnce(m) == ParseOnce(b)
  {
    var r := Scan(b, 0);
    ScanExtends(b, m, 0);
    var read := AddLines(FRESH.(cursor := At(r.cursor)), r.lines);
    if read.Accepted? {
      FinishExtends(read.request, b, m, r.headerEnd.value);
    }
  }

  /** The end of a call after its lines are stored. */
  function AfterLines(read: Outcome, m: string, headerEnd: Option<nat>): Outcome {
    if read.Rejected? || headerEnd.None? then read else Finish(read.request, m, headerEnd.value)
  }

  // ---- what the lines decide --------------------------------------------------------

  function Tail(lines: seq<string>): seq<string> { if lines == [] then [] else lines[1..] }

  predicate IsRequestLine(line: string) {
    var i := FindChar(line, ' ', 0);
    i.Some? && FindChar(line, ' ', i.value + 1).Some?
  }

  predicate IsHead(lines: seq<string>) {
    lines == [] || (IsRequestLine(lines[0]) && AllHeaders(lines[1..]))
  }

  /** Line 109: the Content-Length stored first is readable and asks for more. */
  predicate Waits(kept: seq<string>, size: nat, end: nat)
    requires AllHeaders(kept)
  {
    var lengths := Values(kept, "content-length");
    && lengths != []
    && var length := FromChars(lengths[0], SIZE_LIMIT);
       length.Some? && (end + length.value) % SIZE_LIMIT > size
  }

  /** There is no Content-Length, or all of the body it announces is there. */
  predicate BodyThere(kept: seq<string>, size: nat, end: nat)
    requires AllHeaders(kept)
  {
    var lengths := Values(kept, "content-length");
    || lengths == []
    || var length := FromChars(lengths[0], SIZE_LIMIT);
       length.Some? && end + length.value <= size
  }

  /** The body's length. */
  function BodyLength(kept: seq<string>): nat
    requires AllHeaders(kept)
  {
    var lengths := Values(kept, "content-length");
    if lengths == [] || FromChars(lengths[0], SIZE_LIMIT).None? then 0 else FromChars(lengths[0], SIZE_LIMIT).value
  }

  function Slice(b: string, start: nat, length: nat): string {
    if start + length <= |b| then b[start..start + length] else ""
  }

  lemma GoodLine(q: Request, line: string)
    ensures SetRequestLine(q, line).Accepted? <==> IsRequestLine(line)
    ensures var r, f := SetRequestLine(q, line).request, SetRequestLine(FRESH, line).request;
            IsRequestLine(line) ==> r == q.(verb := f.verb, url := f.url, version := f.version)
  {
  }

  lemma HeadOnly(line: string)
    ensures var r := SetRequestLine(FRESH, line).request; r.body == "" && r.headers == map[] && r.cursor == At(0)
  {
  }

  /** The object that the lines of a whole head leave. */
  function HeadOf(lines: seq<string>, c: nat): Request
    requires lines != [] && AllHeaders(lines[1..])
  {
    SetRequestLine(FRESH, lines[0]).request.(headers := Fold(map[], lines[1..]), cursor := At(c))
  }

  lemma ReadHead(lines: seq<string>, c: nat)
    requires lines != []
    ensures var o := AddLines(FRESH.(cursor := At(c)), lines);
            && (o.Accepted? <==> IsRequestLine(lines[0]) && AllHeaders(lines[1..]))
            && (o.Accepted? ==> o.request == HeadOf(lines, c) && o.request.body == "")
  {
    var q := FRESH.(cursor := At(c));
    GoodLine(q, lines[0]);
    HeadOnly(lines[0]);
    AddHeadersIs(SetRequestLine(q, lines[0]).request, lines[1..]);
  }

  /** The body, once the lines are stored. */
  lemma FinishStored(q: Request, kept: seq<string>, b: string, end: nat)
    requires AllHeaders(kept) && q.headers == Fold(map[], kept) && q.cursor.At? && end <= |b| && q.body == ""
    ensures var o := Finish(q, b, end);
            && (Waits(kept, |b|, end) ==> o == Accepted(q.(cursor := At(end))))
            && (BodyThere(kept, |b|, end) ==>
                  o == Accepted(q.(body := Slice(b, end, BodyLength(kept)), cursor := Complete)))
            && (o.Accepted? ==> Waits(kept, |b|, end) || BodyThere(kept, |b|, end))
  {
    FoldIsAt(kept, "content-length");
    var lengths := Values(kept, "content-length");
    if lengths != [] && FromChars(lengths[0], SIZE_LIMIT).Some? {
      SumIsWhole(end, FromChars(lengths[0], SIZE_LIMIT).value, |b|);
    }
  }

  lemma SumIsWhole(end: nat, length: nat, size: nat)
    ensures end + length <= size ==> (end + length) % SIZE_LIMIT <= size
  {
    assert (end + length) % SIZE_LIMIT <= end + length;
  }

  /** A call that sees the blank line ends there, unless its lines ask for more
      than the buffer holds. */
  predicate AsksForMore(lines: seq<string>, size: nat, end: nat) {
    IsHead(lines) && Waits(Tail(lines), size, end)
  }

  lemma ParseOnceIs(b: string, lines: seq<string>, c: nat, headerEnd: Option<nat>)
    requires Scan(b, 0) == ScanResult(lines, c, headerEnd)
    ensures ParseOnce(b) == AfterLines(AddLines(FRESH.(cursor := At(c)), lines), b, headerEnd)
  {
  }

  lemma FinishedExactly(b: string, lines: seq<string>, c: nat, end: nat)
    requires Scan(b, 0) == ScanResult(lines, c, Some(end))
    ensures Finished(ParseOnce(b)) <==> !AsksForMore(lines, |b|, end)
  {
    HeaderEndIsLater(b, 0);
    ParseOnceIs(b, lines, c, Some(end));
    EndsOrWaits(lines, c, b, end);
  }

  lemma EndsOrWaits(lines: seq<string>, c: nat, b: string, end: nat)
    requires end <= |b|
    ensures Finished(AfterLines(AddLines(FRESH.(cursor := At(c)), lines), b, Some(end)))
       <==> !AsksForMore(lines, |b|, end)
  {
    if lines == [] {
      FinishStored(FRESH.(cursor := At(c)), [], b, end);
    } else {
      ReadHead(lines, c);
      if IsHead(lines) { FinishStored(HeadOf(lines, c), lines[1..], b, end); }
    }
  }

  // ---- any cutting that is safe -------------------------------------------------------

  /** The buffer `b` of an earlier call leaves the rest of `m` readable: it holds
      no complete line, or all header lines and no blank line yet, or everything. */
  predicate SafeCut(m: string, b: string) {
    var r := Scan(b, 0);
    if r.headerEnd.Some? then !AsksForMore(r.lines, |b|, r.headerEnd.value)
    else !SplitsCrLf(m, |b|) && (r.lines == [] || r.lines == Scan(m, 0).lines)
  }

  predicate SafeCuts(bufs: seq<string>, m: string) {
    |bufs| > 1 ==> SafeCut(m, bufs[0]) && SafeCuts(bufs[1..], m)
  }

  lemma {:induction false} LinesExtend(m1: string, m: string, c: nat)
    requires m1 <= m && c <= |m1|
    ensures Scan(m1, c).lines <= Scan(m, c).lines
    decreases |m1| - c
  {
    var p := NextBreak(m1, c);
    if p < |m1| && p != c {
      PrefixBreak(m1, m, c);
      PrefixTerm(m1, m, p);
      var next := p + TermLen(m1, p);
      assert m1[c..p] == m[c..p];
      ScanLine(m1, c);
      ScanLine(m, c);
      if next < |m1| { LinesExtend(m1, m, next); }
    }
  }

  lemma QuietScan(m: string, c: nat)
    requires Scan(m, c).lines == []
    ensures Scan(m, c).cursor == c
  {
  }

  /** Where a safe call that wants more input stops, the next call goes on as if
      the message had been read at once. */
  lemma StepSafe(b0: string, b: string, m: string)
    requires b0 < b <= m && b0 != "" && SafeCut(m, b0) && !Finished(ParseOnce(b0))
    ensures Parse(ParseOnce(b0).request, b) == ParseOnce(b)
  {
    SameScan(b0, b, m);
    if Scan(b0, 0).lines == [] { QuietScan(b0, 0); } else { ResumeAfterLines(b0, b); }
  }

  lemma SameScan(b0: string, b: string, m: string)
    requires b0 < b <= m && b0 != "" && SafeCut(m, b0) && !Finished(ParseOnce(b0))
    ensures var r0 := Scan(b0, 0);
            && r0.headerEnd.None?
            && (r0.lines != [] ==> Scan(b, 0) == Prepend(r0.lines, Scan(b, r0.cursor))
                                   && Scan(b, r0.cursor).lines == [] && Scan(b, r0.cursor).cursor == r0.cursor)
  {
    var r0 := Scan(b0, 0);
    if r0.headerEnd.Some? { FinishedExactly(b0, r0.lines, r0.cursor, r0.headerEnd.value); }
    if r0.headerEnd.None? && r0.lines != [] {
      assert !SplitsCrLf(b, |b0|);
      ScanCut(b0, b, 0);
      NoLinesLeft(b0, b, m);
      QuietScan(b, r0.cursor);
    }
  }

  lemma NoLinesLeft(b0: string, b: string, m: string)
    requires b0 < b <= m && b0 != "" && !SplitsCrLf(m, |b0|)
    requires Scan(b0, 0).headerEnd.None? && Scan(b0, 0).lines == Scan(m, 0).lines
    ensures Scan(b, Scan(b0, 0).cursor).lines == []
  {
    var r0 := Scan(b0, 0);
    ScanStops(b0, 0);
    ScanCut(b0, m, 0);
    RestIsEmpty(r0.lines, Scan(m, r0.cursor));
    LinesExtend(b, m, r0.cursor);
  }

  lemma RestIsEmpty(lines: seq<string>, r: ScanResult)
    requires Prepend(lines, r).lines == lines
    ensures r.lines == []
  {
    assert |lines + r.lines| == |lines| + |r.lines|;
  }

  lemma ResumeAfterLines(b0: string, b: string)
    requires var r0 := Scan(b0, 0);
             && r0.headerEnd.None? && r0.lines != []
             && Scan(b, 0) == Prepend(r0.lines, Scan(b, r0.cursor))
             && Scan(b, r0.cursor).lines == [] && Scan(b, r0.cursor).cursor == r0.cursor
    requires ParseOnce(b0).Accepted?
    ensures Parse(ParseOnce(b0).request, b) == ParseOnce(b)
  {
    var r0 := Scan(b0, 0);
    CursorKept(FRESH.(cursor := At(r0.cursor)), r0.lines);
    assert Scan(b, 0).lines == r0.lines;
  }

  lemma FinishedSafe(b: string, m: string)
    requires b < m && b != "" && |m| < SIZE_LIMIT && SafeCut(m, b) && Finished(ParseOnce(b))
    ensures ParseOnce(m) == ParseOnce(b)
  {
    var r := Scan(b, 0);
    if r.headerEnd.Some? {
      FinishedByBlank(b, m);
    } else {
      CursorKept(FRESH.(cursor := At(r.cursor)), r.lines);
      ScanCut(b, m, 0);
      RestIsEmpty(r.lines, Scan(m, r.cursor));
      QuietScan(m, r.cursor);
    }
  }

  lemma {:induction false} CompleteStays(q: Request, bufs: seq<string>)
    requires q.cursor == Complete
    ensures ParseRun(q, bufs) == Accepted(q)
    decreases |bufs|
  {
    if bufs != [] { CompleteStays(q, bufs[1..]); }
  }

  /** From the buffer `b0` on, `q` reads as a fresh object does. */
  ghost predicate GoesOn(q: Request, b0: string, m: string) {
    forall b | b0 <= b <= m :: Parse(q, b) == ParseOnce(b)
  }

  lemma GoesOnNext(q: Request, b0: string, b1: string, m: string)
    requires b0 < b1 <= m && b0 != "" && SafeCut(m, b0) && Parse(q, b0) == ParseOnce(b0) && !Finished(ParseOnce(b0))
    ensures GoesOn(Parse(q, b0).request, b1, m)
  {
    forall b | b1 <= b <= m ensures Parse(Parse(q, b0).request, b) == ParseOnce(b) {
      StepSafe(b0, b, m);
    }
  }

  /** `bufs` are what is left of the reads of `m`. */
  ghost predicate Reads(bufs: seq<string>, m: string) {
    && bufs != [] && bufs[0] != "" && Growing(bufs) && Last(bufs) == m
    && |m| < SIZE_LIMIT && SafeCuts(bufs, m)
  }

  lemma ReadsLater(bufs: seq<string>, m: string)
    requires Reads(bufs, m) && |bufs| > 1
    ensures Reads(bufs[1..], m) && bufs[0] < bufs[1] <= m && bufs[1..][0] == bufs[1] && SafeCut(m, bufs[0])
  {
    LastExtends(bufs);
    LastExtends(bufs[1..]);
  }

  lemma {:induction false} RunSafe(q: Request, bufs: seq<string>, m: string)
    requires Reads(bufs, m) && GoesOn(q, bufs[0], m)
    ensures ParseRun(q, bufs) == ParseOnce(m)
    decreases |bufs|
  {
    GoesOnHere(q, bufs, m);
    if |bufs| == 1 {
      LastCall(q, bufs);
    } else if Finished(ParseOnce(bufs[0])) {
      RunFinished(q, bufs, m);
    } else {
      ReadsLater(bufs, m);
      GoesOnNext(q, bufs[0], bufs[1], m);
      RunMore(q, bufs);
      RunSafe(Parse(q, bufs[0]).request, bufs[1..], m);
    }
  }

  lemma GoesOnHere(q: Request, bufs: seq<string>, m: string)
    requires Reads(bufs, m) && GoesOn(q, bufs[0], m)
    ensures Parse(q, bufs[0]) == ParseOnce(bufs[0])
    ensures |bufs| == 1 ==> m == bufs[0]
  {
    LastExtends(bufs);
  }

  lemma RunFinished(q: Request, bufs: seq<string>, m: string)
    requires Reads(bufs, m) && |bufs| > 1
    requires Parse(q, bufs[0]) == ParseOnce(bufs[0]) && Finished(ParseOnce(bufs[0]))
    ensures ParseRun(q, bufs) == ParseOnce(m)
  {
    ReadsLater(bufs, m);
    FinishedSafe(bufs[0], m);
    CompleteRun(q, bufs);
  }

  lemma RunMore(q: Request, bufs: seq<string>)
    requires bufs != [] && Parse(q, bufs[0]).Accepted?
    ensures ParseRun(q, bufs) == ParseRun(Parse(q, bufs[0]).request, bufs[1..])
  {
  }

  lemma LastCall(q: Request, bufs: seq<string>)
    requires |bufs| == 1
    ensures ParseRun(q, bufs) == Parse(q, bufs[0])
  {
    assert bufs[1..] == [];
  }

  lemma CompleteRun(q: Request, bufs: seq<string>)
    requires bufs != [] && Finished(Parse(q, bufs[0]))
    ensures ParseRun(q, bufs) == Parse(q, bufs[0])
  {
    var o := Parse(q, bufs[0]);
    if o.Accepted? { CompleteStays(o.request, bufs[1..]); }
  }

  /** A message read in pieces with safe cuts only is parsed as in one piece:
      the same object, and the same exception if there is one. */
  lemma ChunkInvariance(bufs: seq<string>)
    requires bufs != [] && bufs[0] != "" && Growing(bufs)
    requires |Last(bufs)| < SIZE_LIMIT && SafeCuts(bufs, Last(bufs))
    ensures ParseRun(FRESH, bufs) == ParseOnce(Last(bufs))
  {
    RunSafe(FRESH, bufs, Last(bufs));
  }

  // ---- two calls -------------------------------------------------------------------------

  lemma RequestLineText(q: Request, line: string)
    requires SetRequestLine(q, line).Accepted?
    ensures var r := SetRequestLine(q, line).request; line == r.verb + " " + r.url + " " + r.version
  {
  }

  lemma FinishKeeps(q: Request, m: string, h: nat)
    ensures var r := Finish(q, m, h).request;
            r.verb == q.verb && r.url == q.url && r.version == q.version && r.headers == q.headers
  {
  }

  lemma HeadersSplit(a: seq<string>, b: seq<string>)
    requires AllHeaders(a + b)
    ensures AllHeaders(a) && AllHeaders(b)
  {
    assert forall i :: 0 <= i < |a| ==> (a + b)[i] == a[i];
    assert forall i :: 0 <= i < |b| ==> (a + b)[|a| + i] == b[i];
  }

  lemma TwoCalls(b: string, m: string)
    requires Parse(FRESH, b).Accepted?
    ensures ParseRun(FRESH, [b, m]) == Parse(Parse(FRESH, b).request, m)
  {
    var o := Parse(FRESH, b);
    assert [b, m][1..] == [m];
    assert ParseRun(o.request, [m]) == Parse(o.request, m) by {
      assert [m][1..] == [];
    }
  }

  // ---- cuts that are not safe -------------------------------------------------------------

  /** Calls complete a request only if one of them sees a blank line after the
      cursor it starts with. */
  lemma {:induction false} ReadyNeedsBlankLine(q: Request, bufs: seq<string>)
    requires q.cursor.At? && ParseRun(q, bufs).Accepted? && ParseRun(q, bufs).request.cursor == Complete
    ensures ScanRun(bufs, q.cursor.pos).headerEnd.Some?
    decreases |bufs|
  {
    if bufs != [] {
      var r := Scan(bufs[0], q.cursor.pos);
      CursorKept(q.(cursor := At(r.cursor)), r.lines);
      if r.headerEnd.None? {
        ReadyNeedsBlankLine(Parse(q, bufs[0]).request, bufs[1..]);
      }
    }
  }

  lemma {:induction false} QuietRun(q: Request, bufs: seq<string>, h: nat)
    requires bufs != [] && Growing(bufs) && q.cursor == At(h) && h <= |bufs[0]|
    requires h <= |Last(bufs)| && NoBreaks(Last(bufs)[h..])
    ensures ParseRun(q, bufs) == Accepted(q)
    decreases |bufs|
  {
    LastExtends(bufs);
    assert forall i :: 0 <= i < |bufs[0][h..]| ==> bufs[0][h..][i] == Last(bufs)[h..][i];
    NoBreakAhead(bufs[0], h);
    assert Parse(q, bufs[0]) == Accepted(q);
    if |bufs| > 1 { QuietRun(q, bufs[1..], h); }
  }

  /** A call that has the header section but not the whole body goes wrong: the
      later calls look for lines in the body.  Without CR or LF in it the
      request never becomes ready, however often the parser is called, while
      one call on the same bytes goes on to take the body. */
  lemma CutBodyStarves(b: string, bufs: seq<string>)
    requires bufs != [] && Growing([b] + bufs) && !Finished(ParseOnce(b))
    requires Scan(b, 0).headerEnd.Some?
    requires Scan(b, 0).headerEnd.value <= |Last(bufs)| && NoBreaks(Last(bufs)[Scan(b, 0).headerEnd.value..])
    ensures var h, q := Scan(b, 0).headerEnd.value, ParseOnce(b).request;
            && ParseRun(FRESH, [b] + bufs) == Accepted(q) && q.cursor == At(h)
            && ParseOnce(Last(bufs)) == Finish(q.(cursor := At(Scan(b, 0).cursor)), Last(bufs), h)
  {
    var h, q, m := Scan(b, 0).headerEnd.value, ParseOnce(b).request, Last(bufs);
    assert ([b] + bufs)[1..] == bufs && b < bufs[0];
    LastExtends([b] + bufs);
    HeaderEndIsLater(b, 0);
    QuietRun(q, bufs, h);
    ScanExtends(b, m, 0);
    assert h < |m| ==> m[h..][0] == m[h];
    CursorKept(FRESH.(cursor := At(Scan(b, 0).cursor)), Scan(b, 0).lines);
  }

  // ---- the smallest messages that show it -------------------------------------------------

  const LINE: string := "A b c"
  const HEADER: string := "K: v"

  lemma ShortMessage(m: string)
    requires Scan(m, 0).lines == [LINE, HEADER]
    ensures ParseOnce(m).Accepted?
  {
    assert FindChar(LINE, ' ', 0) == Some(1) by { FindCharIs(LINE, ' ', 0, 1); }
    assert FindChar(LINE, ' ', 2) == Some(3) by { FindCharIs(LINE, ' ', 2, 3); }
    assert StartsAt(HEADER, 1, ": ");
    assert IsHeader(HEADER) && Colon(HEADER).value <= 1 && |Key(HEADER)| <= 1;
    var lines := [LINE, HEADER];
    assert lines[1..] == [HEADER] && [HEADER][1..] == [];
    var q := SetRequestLine(FRESH.(cursor := At(Scan(m, 0).cursor)), LINE).request;
    AddHeadersIs(q, [HEADER]);
    FoldValue(q.headers, [HEADER], "content-length");
    assert Values([HEADER], "content-length") == [] + Values([], "content-length");
  }
}
