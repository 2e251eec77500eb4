/** Where a message may be cut: exactly when reads that end inside the header
    section, inside the body, or between CR and LF do no harm. */
module RequestCuts {
  import opened Text
  import opened RequestScanner
  import opened RequestChunks
  import opened RequestParser
  import opened RequestHeaders
  import opened RequestProperties
  import opened RequestRuns

  // ---- cuts in the header section -------------------------------------------------------

  /** All lines of the calls. */
  function AllLines(calls: seq<ScanResult>): seq<string> {
    if calls == [] then [] else AllLines(calls[..|calls| - 1]) + calls[|calls| - 1].lines
  }

  /** The header lines that later calls took for request lines. */
  function Dropped(calls: seq<ScanResult>): seq<string> {
    if calls == [] then []
    else
      var before, r := calls[..|calls| - 1], calls[|calls| - 1];
      Dropped(before) + FirstDropped(AllLines(before), r.lines)
  }

  function FirstDropped(before: seq<string>, lines: seq<string>): seq<string> {
    if before == [] || lines == [] then [] else [lines[0]]
  }

  /** The read that ends at `b` cuts `m` in the header section, not between CR and LF. */
  predicate InHeader(b: string, m: string) {
    b != "" && b < m && Scan(b, 0).headerEnd.None? && !SplitsCrLf(m, |b|)
  }

  predicate InHeaders(bufs: seq<string>, m: string) {
    && (forall i :: 0 <= i < |bufs| ==> InHeader(bufs[i], m))
    && (forall i, j :: 0 <= i < j < |bufs| ==> bufs[i] < bufs[j])
  }

  /** What calls on `bufs` leave for a call on `m`. */
  ghost predicate Covered(bufs: seq<string>, m: string) {
    var calls := Calls(bufs);
    && Start(calls) < |m|
    && (bufs != [] ==> calls[|calls| - 1].headerEnd.None? && Start(calls) <= |Last(bufs)|)
    && Scan(m, 0) == Prepend(AllLines(calls), Scan(m, Start(calls)))
  }

  lemma InsideEachOther(bufs: seq<string>, m: string)
    requires InHeaders(bufs, m) && bufs != []
    ensures InHeaders(bufs[..|bufs| - 1], m) && InHeaders(bufs[..|bufs| - 1], Last(bufs))
    ensures bufs[..|bufs| - 1] != [] ==> Last(bufs[..|bufs| - 1]) < Last(bufs)
  {
    var b := Last(bufs);
    forall i | 0 <= i < |bufs| - 1 ensures InHeader(bufs[i], b) {
      assert InHeader(bufs[i], m) && bufs[i] < b < m by { assert InHeader(b, m); }
    }
  }

  lemma {:induction false} CoveredAlways(bufs: seq<string>, m: string)
    requires InHeaders(bufs, m) && m != ""
    ensures Covered(bufs, m)
    decreases |bufs|
  {
    if bufs == [] {
      assert Prepend([], Scan(m, 0)) == Scan(m, 0);
    } else {
      InsideEachOther(bufs, m);
      assert InHeader(Last(bufs), m);
      CoveredAlways(bufs[..|bufs| - 1], m);
      CoveredAlways(bufs[..|bufs| - 1], Last(bufs));
      CoverMore(bufs, m);
    }
  }

  lemma AllLinesMore(before: seq<ScanResult>, r: ScanResult)
    ensures AllLines(before + [r]) == AllLines(before) + r.lines && Start(before + [r]) == NextStart(r)
  {
    assert (before + [r])[..|before|] == before;
  }

  lemma CoverMore(bufs: seq<string>, m: string)
    requires bufs != [] && InHeader(Last(bufs), m)
    requires Covered(bufs[..|bufs| - 1], m) && Covered(bufs[..|bufs| - 1], Last(bufs))
    ensures Covered(bufs, m)
  {
    var before, b := Calls(bufs[..|bufs| - 1]), Last(bufs);
    var c := Start(before);
    var r := Scan(b, c);
    assert r.headerEnd == Scan(b, 0).headerEnd == None;
    ScanCut(b, m, c);
    ScanStops(b, c);
    NotHarmful(b, m, c);
    AllLinesMore(before, r);
    PrependTwice(AllLines(before), r.lines, Scan(m, r.cursor));
    assert Calls(bufs) == before + [r];
  }

  lemma NotHarmful(b: string, m: string, c: nat)
    requires !SplitsCrLf(m, |b|) && Scan(b, c).headerEnd.None?
    requires if Harmful(m, Scan(m, c).headerEnd, |b|) then Misreads(b, m, c) else Resumes(b, m, c)
    ensures Scan(m, c) == Prepend(Scan(b, c).lines, Scan(m, Scan(b, c).cursor))
  {
  }

  /** The reads of `m`, all but the last one inside its header section. */
  predicate HeaderReads(bufs: seq<string>, m: string) {
    bufs != [] && m != "" && Last(bufs) == m && InHeaders(bufs[..|bufs| - 1], m)
  }

  function FinalCall(bufs: seq<string>): ScanResult
    requires bufs != []
  {
    Calls(bufs)[|bufs| - 1]
  }

  /** None of the first `n` calls sees a blank line. */
  predicate NoBlanks(bufs: seq<string>, n: nat)
    requires n <= |bufs|
  {
    forall k :: 0 < k <= n ==> FinalCall(bufs[..k]).headerEnd.None?
  }

  lemma HeaderBlanks(bufs: seq<string>, m: string)
    requires HeaderReads(bufs, m)
    ensures NoBlanks(bufs, |bufs| - 1)
  {
    forall k | 0 < k <= |bufs| - 1 ensures FinalCall(bufs[..k]).headerEnd.None? {
      PrefixTwice(bufs, |bufs| - 1, k);
      CoveredAlways(bufs[..k], m);
    }
  }

  /** Together the calls see what one call sees. */
  lemma HeaderCalls(bufs: seq<string>, m: string)
    requires HeaderReads(bufs, m)
    ensures AllLines(Calls(bufs)) == Scan(m, 0).lines && Start(Calls(bufs)) == NextStart(Scan(m, 0))
    ensures FinalCall(bufs).headerEnd == Scan(m, 0).headerEnd
  {
    var n := |bufs| - 1;
    CoveredAlways(bufs[..n], m);
    var before := Calls(bufs[..n]);
    assert Calls(bufs) == before + [Scan(m, Start(before))];
    assert (before + [Scan(m, Start(before))])[..n] == before;
  }

  lemma SameLength(a: seq<string>, b: seq<string>, size: nat, end: nat)
    requires AllHeaders(a) && AllHeaders(b) && SameValues(a, b)
    ensures Waits(a, size, end) == Waits(b, size, end) && BodyThere(a, size, end) == BodyThere(b, size, end)
    ensures BodyLength(a) == BodyLength(b)
  {
    assert SameValue(a, b, "content-length");
  }

  lemma CallsOfOne(m: string)
    ensures Calls([m]) == [Scan(m, 0)]
    ensures KeptLines(Calls([m])) == Tail(Scan(m, 0).lines)
    ensures RequestLine(Calls([m])) == if Scan(m, 0).lines == [] then NO_LINE else Scan(m, 0).lines[0]
  {
    assert [m][..0] == [] && [Scan(m, 0)][..0] == [];
    assert [] + Tail(Scan(m, 0).lines) == Tail(Scan(m, 0).lines);
  }

  /** Calls without a blank line run on as long as their lines are good. */
  lemma {:induction false} GoodRunsOn(bufs: seq<string>, n: nat)
    requires n <= |bufs| && NoBlanks(bufs, n)
    ensures RunsOn(bufs[..n]) <==> AllGood(Calls(bufs[..n]))
    decreases n
  {
    if n > 0 {
      GoodRunsOn(bufs, n - 1);
      PrefixTwice(bufs, n, n - 1);
      OneMoreOn(bufs[..n]);
    }
  }

  lemma OneMoreOn(bufs: seq<string>)
    requires bufs != [] && FinalCall(bufs).headerEnd.None?
    requires RunsOn(bufs[..|bufs| - 1]) <==> AllGood(Calls(bufs[..|bufs| - 1]))
    ensures RunsOn(bufs) <==> AllGood(Calls(bufs))
  {
    if AllGood(Calls(bufs)) {
      GoodBefore(bufs);
      NoBlankWaits(Calls(bufs), Last(bufs));
    }
  }

  lemma GoodBefore(bufs: seq<string>)
    requires bufs != [] && AllGood(Calls(bufs))
    ensures AllGood(Calls(bufs[..|bufs| - 1]))
  {
    var calls := Calls(bufs);
    assert AllGood(calls[..|calls| - 1]);
  }

  lemma NoBlankWaits(calls: seq<ScanResult>, b: string)
    requires calls != [] && AllGood(calls) && calls[|calls| - 1].headerEnd.None?
    ensures WaitsOn(calls, b)
  {
  }

  /** The reads of an accepted message inside its header section do no harm
      exactly when no line makes a call throw and the head is the same. */
  lemma HeaderRun(bufs: seq<string>, m: string)
    requires HeaderReads(bufs, m) && ParseOnce(m).Accepted?
    ensures AllGood(Calls([m]))
    ensures ParseRun(FRESH, bufs) == ParseOnce(m) <==> AllGood(Calls(bufs)) && SameHead(Calls(bufs), Calls([m]))
  {
    OneCallRun(m);
    CallsOfOne(m);
    HeaderCalls(bufs, m);
    HeaderBlanks(bufs, m);
    GoodRunsOn(bufs, |bufs| - 1);
    if ParseOnce(m).request.cursor == Complete {
      RunExact(bufs, m);
      CompletesAtLast(bufs, m);
    } else {
      UnfinishedExact(bufs, m);
      if AllGood(Calls(bufs)) && SameHead(Calls(bufs), Calls([m])) { RunsOnLike(bufs, m); }
    }
  }

  /** The facts about the calls that the next two lemmas need. */
  ghost predicate EndAlike(bufs: seq<string>, m: string) {
    && bufs != [] && Last(bufs) == m
    && Start(Calls(bufs)) == Start(Calls([m]))
    && FinalCall(bufs).headerEnd == Calls([m])[0].headerEnd
    && (RunsOn(bufs[..|bufs| - 1]) <==> AllGood(Calls(bufs[..|bufs| - 1])))
  }

  lemma RunsOnLike(bufs: seq<string>, m: string)
    requires EndAlike(bufs, m) && RunsOn([m]) && AllGood(Calls(bufs)) && SameHead(Calls(bufs), Calls([m]))
    ensures RunsOn(bufs)
  {
    SameLength(KeptLines(Calls(bufs)), KeptLines(Calls([m])), |m|, Start(Calls(bufs)));
  }

  lemma CompletesAtLast(bufs: seq<string>, m: string)
    requires EndAlike(bufs, m) && Completes([m])
    requires NoBlanks(bufs, |bufs| - 1)
    ensures (exists k :: CompletesAlike(bufs, k, m)) <==> AllGood(Calls(bufs)) && SameHead(Calls(bufs), Calls([m]))
  {
    assert bufs[..|bufs|] == bufs;
    if AllGood(Calls(bufs)) && SameHead(Calls(bufs), Calls([m])) {
      CompletesLike(bufs, m);
      assert CompletesAlike(bufs, |bufs|, m);
    }
    if k :| CompletesAlike(bufs, k, m) {
      OnlyAtLast(bufs, k, m);
      HeadsAtLast(bufs, m);
    }
  }

  lemma OnlyAtLast(bufs: seq<string>, k: int, m: string)
    requires bufs != [] && NoBlanks(bufs, |bufs| - 1) && CompletesAlike(bufs, k, m)
    ensures k == |bufs|
  {
    BehindBlank(bufs[..k]);
  }

  lemma HeadsAtLast(bufs: seq<string>, m: string)
    requires CompletesAlike(bufs, |bufs|, m)
    ensures AllGood(Calls([m])) && AllGood(Calls(bufs)) && SameHead(Calls(bufs), Calls([m]))
  {
    assert bufs[..|bufs|] == bufs;
    AlikeHeads(bufs, [m]);
  }

  lemma AlikeHeads(a: seq<string>, b: seq<string>)
    requires Completes(a) && Completes(b) && Alike(a, b)
    ensures AllGood(Calls(a)) && SameHead(Calls(a), Calls(b))
  {
  }

  lemma CompletesLike(bufs: seq<string>, m: string)
    requires EndAlike(bufs, m) && Completes([m]) && AllGood(Calls(bufs)) && SameHead(Calls(bufs), Calls([m]))
    ensures SameCompletion(bufs, m)
  {
    SameLength(KeptLines(Calls(bufs)), KeptLines(Calls([m])), |m|, Start(Calls(bufs)));
  }

  lemma BehindBlank(bufs: seq<string>)
    requires Completes(bufs)
    ensures bufs != [] && FinalCall(bufs).headerEnd.Some?
  {
  }

  // ---- the lines that later calls took for request lines ----------------------------------

  /** `all` is `kept` with `dropped` lines between: what `key` gets from each. */
  ghost predicate Shares(kept: seq<string>, dropped: seq<string>, all: seq<string>, key: string) {
    && AllHeaders(kept) && AllHeaders(dropped) && AllHeaders(all)
    && Weight(Values(all, key)) == Weight(Values(kept, key)) + Weight(Values(dropped, key))
    && (Values(dropped, key) == [] ==> Values(all, key) == Values(kept, key))
  }

  lemma SharesMore(kept: seq<string>, dropped: seq<string>, all: seq<string>, first: seq<string>, tail: seq<string>,
                   key: string)
    requires Shares(kept, dropped, all, key) && AllHeaders(first) && AllHeaders(tail)
    ensures Shares(kept + tail, dropped + first, all + (first + tail), key)
  {
    ValuesConcat(first, tail, key);
    ValuesConcat(kept, tail, key);
    ValuesConcat(dropped, first, key);
    ValuesConcat(all, first + tail, key);
    var f, t := Values(first, key), Values(tail, key);
    WeightConcat(f, t);
    WeightConcat(Values(kept, key), t);
    WeightConcat(Values(dropped, key), f);
    WeightConcat(Values(all, key), f + t);
    if Values(dropped, key) + f == [] { assert f + t == t; }
  }

  lemma TailConcat(a: seq<string>, b: seq<string>)
    ensures Tail(a + b) == Tail(a) + (FirstDropped(a, b) + Tail(b))
  {
    if a == [] {
      assert a + b == b;
    } else if b == [] {
      assert a + b == a;
    }
  }

  lemma TailOfBoth(a: seq<string>, b: seq<string>)
    requires AllHeaders(Tail(a + b))
    ensures AllHeaders(Tail(a)) && AllHeaders(FirstDropped(a, b)) && AllHeaders(Tail(b))
    ensures Tail(a + b) == Tail(a) + (FirstDropped(a, b) + Tail(b))
  {
    TailConcat(a, b);
    HeadersSplit(Tail(a), FirstDropped(a, b) + Tail(b));
    HeadersSplit(FirstDropped(a, b), Tail(b));
  }

  lemma {:induction false} CallsShare(calls: seq<ScanResult>, key: string)
    requires AllHeaders(Tail(AllLines(calls)))
    ensures Shares(KeptLines(calls), Dropped(calls), Tail(AllLines(calls)), key)
    decreases |calls|
  {
    if calls != [] {
      var before, lines := calls[..|calls| - 1], calls[|calls| - 1].lines;
      TailOfBoth(AllLines(before), lines);
      CallsShare(before, key);
      SharesMore(KeptLines(before), Dropped(before), Tail(AllLines(before)),
                 FirstDropped(AllLines(before), lines), Tail(lines), key);
    }
  }

  /** The line's key is unique, and its first value was not dropped. */
  predicate StillFirst(line: string, kept: seq<string>, all: seq<string>)
    requires IsHeader(line) && AllHeaders(kept) && AllHeaders(all)
  {
    var x, y := Values(kept, Key(line)), Values(all, Key(line));
    Key(line) in UNIQUE_HEADERS && x != [] && y != [] && x[0] == y[0]
  }

  lemma ShareSame(kept: seq<string>, dropped: seq<string>, all: seq<string>, key: string)
    requires Shares(kept, dropped, all, key)
    ensures SameValue(kept, all, key) <==>
            Values(dropped, key) == [] ||
            (key in UNIQUE_HEADERS && Values(kept, key) != [] && Values(all, key) != []
             && Values(kept, key)[0] == Values(all, key)[0])
  {
    var x, d, y := Values(kept, key), Values(dropped, key), Values(all, key);
    if d != [] {
      assert Weight(y) >= 2;
      if x != [] && y != [] {
        JoinWeight(x);
        JoinWeight(y);
      }
    }
  }

  /** Leaving the dropped lines out changes no value exactly when each repeats a
      unique header whose first value was kept. */
  lemma DroppedExactly(kept: seq<string>, dropped: seq<string>, all: seq<string>)
    requires AllHeaders(kept) && AllHeaders(dropped) && AllHeaders(all)
    requires forall key: string :: Shares(kept, dropped, all, key)
    ensures SameValues(kept, all) <==> forall line <- dropped :: StillFirst(line, kept, all)
  {
    if SameValues(kept, all) {
      forall line | line in dropped ensures StillFirst(line, kept, all) {
        var i :| 0 <= i < |dropped| && dropped[i] == line;
        GivenValues(dropped, i);
        assert Shares(kept, dropped, all, Key(line)) && SameValue(kept, all, Key(line));
        ShareSame(kept, dropped, all, Key(line));
      }
    }
    if forall line <- dropped :: StillFirst(line, kept, all) {
      forall key: string ensures SameValue(kept, all, key) {
        assert Shares(kept, dropped, all, key);
        ShareSame(kept, dropped, all, key);
        if Values(dropped, key) != [] {
          var i := ValuesGiven(dropped, key);
          assert StillFirst(dropped[i], kept, all);
        }
      }
    }
  }

  lemma {:induction false} GoodExactly(calls: seq<ScanResult>)
    requires AllHeaders(Tail(AllLines(calls)))
    ensures AllGood(calls) <==> forall r <- calls :: r.lines == [] || IsRequestLine(r.lines[0])
    decreases |calls|
  {
    if calls != [] {
      var before, r := calls[..|calls| - 1], calls[|calls| - 1];
      TailOfBoth(AllLines(before), r.lines);
      GoodExactly(before);
      assert calls == before + [r];
    }
  }

  lemma {:induction false} NoLines(calls: seq<ScanResult>)
    requires AllLines(calls) == []
    ensures RequestLine(calls) == NO_LINE
    decreases |calls|
  {
    if calls != [] {
      var before, r := calls[..|calls| - 1], calls[|calls| - 1];
      assert AllLines(before) == [] && r.lines == [] by { assert |AllLines(calls)| == |AllLines(before)| + |r.lines|; }
      NoLines(before);
    }
  }

  /** Of the calls that see lines, each starts with a request line and the last
      with the message's own, and no header that was taken for a request line
      is missed. */
  predicate HeadsRepeat(calls: seq<ScanResult>, lines: seq<string>)
    requires AllHeaders(KeptLines(calls)) && AllHeaders(Dropped(calls)) && AllHeaders(Tail(lines))
  {
    && (forall r <- calls :: r.lines == [] || IsRequestLine(r.lines[0]))
    && (lines == [] || RequestLine(calls) == lines[0])
    && forall line <- Dropped(calls) :: StillFirst(line, KeptLines(calls), Tail(lines))
  }

  /** Any number of reads that end in the header section, none between CR and
      LF, give what one call gives on an accepted message exactly when every
      call that sees lines sees the request line again, and its headers do not
      depend on the lines lost to that. */
  lemma HeaderCutExact(bufs: seq<string>, m: string)
    requires HeaderReads(bufs, m) && ParseOnce(m).Accepted?
    ensures AllHeaders(KeptLines(Calls(bufs))) && AllHeaders(Dropped(Calls(bufs))) && AllHeaders(Tail(Scan(m, 0).lines))
    ensures ParseRun(FRESH, bufs) == ParseOnce(m) <==> HeadsRepeat(Calls(bufs), Scan(m, 0).lines)
  {
    var calls, lines := Calls(bufs), Scan(m, 0).lines;
    HeaderRun(bufs, m);
    HeaderCalls(bufs, m);
    CallsOfOne(m);
    forall key: string ensures Shares(KeptLines(calls), Dropped(calls), Tail(lines), key) { CallsShare(calls, key); }
    assert Shares(KeptLines(calls), Dropped(calls), Tail(lines), "");
    GoodExactly(calls);
    DroppedExactly(KeptLines(calls), Dropped(calls), Tail(lines));
    if lines == [] { NoLines(calls); }
  }

  // ---- cuts in the body ---------------------------------------------------------------------

  /** The header lines of all calls but the first. */
  function LaterLines(calls: seq<ScanResult>): seq<string> {
    if |calls| <= 1 then [] else LaterLines(calls[..|calls| - 1]) + Tail(calls[|calls| - 1].lines)
  }

  lemma {:induction false} KeptInTwo(calls: seq<ScanResult>)
    requires calls != []
    ensures KeptLines(calls) == Tail(calls[0].lines) + LaterLines(calls)
    decreases |calls|
  {
    if |calls| == 1 {
      assert KeptLines(calls) == KeptLines([]) + Tail(calls[0].lines);
    } else {
      KeptInTwo(calls[..|calls| - 1]);
    }
  }

  /** The header lines announce a body of `length` bytes. */
  predicate Announces(kept: seq<string>, length: nat) {
    && AllHeaders(kept) && Values(kept, "content-length") != []
    && FromChars(Values(kept, "content-length")[0], SIZE_LIMIT) == Some(length)
  }

  /** Lines in the body that can be read as a head that is known already. */
  predicate KnownLines(lines: seq<string>, headers: map<string, string>) {
    IsHead(lines) && (lines == [] || NothingNew(headers, lines[1..]))
  }

  /** The calls behind the first see such lines only, and still wait. */
  predicate WaitsInBody(bufs: seq<string>, headers: map<string, string>, length: nat) {
    |bufs| <= 1 ||
    (&& WaitsInBody(bufs[..|bufs| - 1], headers, length)
     && KnownLines(FinalCall(bufs).lines, headers)
     && (FinalCall(bufs).headerEnd.Some? ==>
           (FinalCall(bufs).headerEnd.value + length) % SIZE_LIMIT > |Last(bufs)|))
  }

  predicate BodyAt(b: string, start: nat, body: string) {
    start + |body| <= |b| && b[start..start + |body|] == body
  }

  /** The last call sees a blank line with the body behind it once more. */
  predicate BodyAgain(bufs: seq<string>, headers: map<string, string>, first: string, body: string) {
    && |bufs| > 1
    && WaitsInBody(bufs[..|bufs| - 1], headers, |body|)
    && KnownLines(FinalCall(bufs).lines, headers)
    && RequestLine(Calls(bufs)) == first
    && FinalCall(bufs).headerEnd.Some? && BodyAt(Last(bufs), FinalCall(bufs).headerEnd.value, body)
  }

  /** Header lines with nothing new in them. */
  predicate Known(lines: seq<string>, headers: map<string, string>) { AllHeaders(lines) && NothingNew(headers, lines) }

  /** The later calls see good lines with nothing new in them. */
  predicate NothingLater(calls: seq<ScanResult>, headers: map<string, string>) {
    AllGood(calls) && Known(LaterLines(calls), headers)
  }

  lemma NothingLaterStep(before: seq<ScanResult>, calls: seq<ScanResult>, headers: map<string, string>)
    requires |calls| > 1 && calls[..|calls| - 1] == before && NothingLater(before, headers)
    ensures NothingLater(calls, headers) <==> KnownLines(calls[|calls| - 1].lines, headers)
  {
    KnownBehind(LaterLines(before), calls[|calls| - 1].lines, LaterLines(calls), headers);
  }

  lemma KnownBehind(before: seq<string>, lines: seq<string>, later: seq<string>, headers: map<string, string>)
    requires Known(before, headers) && later == before + Tail(lines)
    ensures KnownLines(lines, headers) <==> IsHead(lines) && Known(later, headers)
  {
    if lines != [] && AllHeaders(lines[1..]) {
      HeadersConcat(before, lines[1..]);
      NothingNewConcat(headers, before, lines[1..]);
    }
    if lines == [] { assert before + [] == before; }
  }

  lemma NothingNewConcat(headers: map<string, string>, a: seq<string>, b: seq<string>)
    requires AllHeaders(a) && AllHeaders(b) && AllHeaders(a + b)
    ensures NothingNew(headers, a + b) <==> NothingNew(headers, a) && NothingNew(headers, b)
  {
    if NothingNew(headers, a + b) {
      assert forall i :: 0 <= i < |a| ==> (a + b)[i] == a[i];
      assert forall i :: 0 <= i < |b| ==> (a + b)[|a| + i] == b[i];
    }
  }

  lemma FirstStays(kept: seq<string>, later: seq<string>, length: nat)
    requires Announces(kept, length) && AllHeaders(later)
    ensures Announces(kept + later, length)
  {
    ValuesConcat(kept, later, "content-length");
  }

  /** The announced length decides. */
  lemma ByLength(kept: seq<string>, length: nat, size: nat, end: nat)
    requires Announces(kept, length)
    ensures Waits(kept, size, end) <==> (end + length) % SIZE_LIMIT > size
    ensures BodyThere(kept, size, end) <==> end + length <= size
    ensures BodyLength(kept) == length
  {
  }

  /** The first call stored `kept`, and waits for `length` bytes of body. */
  ghost predicate FirstCall(bufs: seq<string>, kept: seq<string>, length: nat) {
    bufs != [] && Announces(kept, length) && kept == Tail(Calls(bufs)[0].lines)
  }

  lemma {:induction false} FirstOfAll(bufs: seq<string>)
    requires bufs != []
    ensures Calls(bufs)[0] == Scan(bufs[0], 0)
    decreases |bufs|
  {
    CallsBefore(bufs);
    if |bufs| > 1 { FirstOfAll(bufs[..|bufs| - 1]); }
  }

  lemma StillAnnounced(bufs: seq<string>, kept: seq<string>, length: nat)
    requires FirstCall(bufs, kept, length) && AllHeaders(LaterLines(Calls(bufs)))
    ensures Announces(KeptLines(Calls(bufs)), length)
  {
    KeptInTwo(Calls(bufs));
    FirstStays(kept, LaterLines(Calls(bufs)), length);
  }

  /** What a call behind the first waits for. */
  lemma LaterCall(bufs: seq<string>, kept: seq<string>, length: nat, end: nat)
    requires FirstCall(bufs, kept, length) && NothingLater(Calls(bufs), Fold(map[], kept))
    requires FinalCall(bufs).headerEnd == Some(end)
    ensures Start(Calls(bufs)) == end
    ensures WaitsOn(Calls(bufs), Last(bufs)) <==> (end + length) % SIZE_LIMIT > |Last(bufs)|
    ensures Completing(Calls(bufs), Last(bufs)) <==> end + length <= |Last(bufs)|
    ensures BodyLength(KeptLines(Calls(bufs))) == length
  {
    StillAnnounced(bufs, kept, length);
    CallByLength(Calls(bufs), Last(bufs), length, end);
  }

  lemma WaitsBehind(calls: seq<ScanResult>, b: string, end: nat)
    requires calls != [] && AllGood(calls) && calls[|calls| - 1].headerEnd == Some(end)
    ensures WaitsOn(calls, b) == Waits(KeptLines(calls), |b|, end)
  {
  }

  lemma CompletesBehind(calls: seq<ScanResult>, b: string, end: nat)
    requires calls != [] && AllGood(calls) && calls[|calls| - 1].headerEnd == Some(end)
    ensures Completing(calls, b) == BodyThere(KeptLines(calls), |b|, end)
  {
  }

  lemma CallByLength(calls: seq<ScanResult>, b: string, length: nat, end: nat)
    requires calls != [] && AllGood(calls) && Announces(KeptLines(calls), length)
    requires calls[|calls| - 1].headerEnd == Some(end)
    ensures WaitsOn(calls, b) <==> (end + length) % SIZE_LIMIT > |b|
    ensures Completing(calls, b) <==> end + length <= |b|
    ensures BodyLength(KeptLines(calls)) == length
  {
    WaitsBehind(calls, b, end);
    CompletesBehind(calls, b, end);
    ByLength(KeptLines(calls), length, |b|, end);
  }

  lemma {:induction false} WaitsInBodyIs(bufs: seq<string>, kept: seq<string>, length: nat)
    requires FirstCall(bufs, kept, length) && RunsOn([bufs[0]])
    ensures WaitsInBody(bufs, Fold(map[], kept), length)
       <==> RunsOn(bufs) && NothingLater(Calls(bufs), Fold(map[], kept))
    decreases |bufs|
  {
    if |bufs| == 1 {
      assert bufs == [bufs[0]];
      assert LaterLines(Calls(bufs)) == [];
    } else {
      SameFirst(bufs);
      WaitsInBodyIs(bufs[..|bufs| - 1], kept, length);
      WaitsInBodyStep(bufs, kept, length);
    }
  }

  lemma SameFirst(bufs: seq<string>)
    requires |bufs| > 1
    ensures Calls(bufs[..|bufs| - 1])[0] == Calls(bufs)[0]
  {
    FirstOfAll(bufs);
    FirstOfAll(bufs[..|bufs| - 1]);
  }

  lemma WaitsInBodyStep(bufs: seq<string>, kept: seq<string>, length: nat)
    requires FirstCall(bufs, kept, length) && |bufs| > 1
    requires var init := bufs[..|bufs| - 1];
             WaitsInBody(init, Fold(map[], kept), length)
             <==> RunsOn(init) && NothingLater(Calls(init), Fold(map[], kept))
    ensures WaitsInBody(bufs, Fold(map[], kept), length)
       <==> RunsOn(bufs) && NothingLater(Calls(bufs), Fold(map[], kept))
  {
    var init, headers := bufs[..|bufs| - 1], Fold(map[], kept);
    if NothingLater(Calls(bufs), headers) { NothingBefore(bufs, headers); }
    if NothingLater(Calls(init), headers) {
      CallsBefore(bufs);
      NothingLaterStep(Calls(init), Calls(bufs), headers);
    }
    match FinalCall(bufs).headerEnd
    case None => WaitsWithoutBlank(bufs, headers, length);
    case Some(end) =>
      WaitsBehindBlank(bufs, headers, length, end);
      if NothingLater(Calls(bufs), headers) && RunsOn(init) { RunsBehindBlank(bufs, kept, length, end); }
  }

  lemma WaitsWithoutBlank(bufs: seq<string>, headers: map<string, string>, length: nat)
    requires |bufs| > 1 && FinalCall(bufs).headerEnd == None
    ensures WaitsInBody(bufs, headers, length)
       <==> WaitsInBody(bufs[..|bufs| - 1], headers, length) && KnownLines(FinalCall(bufs).lines, headers)
    ensures AllGood(Calls(bufs)) && RunsOn(bufs[..|bufs| - 1]) ==> RunsOn(bufs)
  {
    if AllGood(Calls(bufs)) { NoBlankWaits(Calls(bufs), Last(bufs)); }
  }

  lemma WaitsBehindBlank(bufs: seq<string>, headers: map<string, string>, length: nat, end: nat)
    requires |bufs| > 1 && FinalCall(bufs).headerEnd == Some(end)
    ensures WaitsInBody(bufs, headers, length)
       <==> WaitsInBody(bufs[..|bufs| - 1], headers, length)
            && KnownLines(FinalCall(bufs).lines, headers) && (end + length) % SIZE_LIMIT > |Last(bufs)|
  {
  }

  lemma RunsBehindBlank(bufs: seq<string>, kept: seq<string>, length: nat, end: nat)
    requires FirstCall(bufs, kept, length) && |bufs| > 1 && FinalCall(bufs).headerEnd == Some(end)
    requires NothingLater(Calls(bufs), Fold(map[], kept)) && RunsOn(bufs[..|bufs| - 1])
    ensures RunsOn(bufs) <==> (end + length) % SIZE_LIMIT > |Last(bufs)|
  {
    LaterCall(bufs, kept, length, end);
  }

  lemma NothingBefore(bufs: seq<string>, headers: map<string, string>)
    requires |bufs| > 1 && NothingLater(Calls(bufs), headers)
    ensures NothingLater(Calls(bufs[..|bufs| - 1]), headers)
  {
    CallsBefore(bufs);
    NothingInFront(Calls(bufs), headers);
  }

  lemma NothingInFront(calls: seq<ScanResult>, headers: map<string, string>)
    requires |calls| > 1 && NothingLater(calls, headers)
    ensures NothingLater(calls[..|calls| - 1], headers)
  {
    var before, tail := LaterLines(calls[..|calls| - 1]), Tail(calls[|calls| - 1].lines);
    HeadersSplit(before, tail);
    NothingNewConcat(headers, before, tail);
  }

  lemma SameOrNew(kept: seq<string>, later: seq<string>)
    requires AllHeaders(kept) && AllHeaders(later) && AllHeaders(kept + later)
    ensures SameValues(kept + later, kept) <==> NothingNew(Fold(map[], kept), later)
  {
    FoldSameExactly(kept + later, kept);
    FoldConcat(map[], kept, later);
    FoldUnchangedExactly(Fold(map[], kept), later);
  }

  lemma SameOrLater(calls: seq<ScanResult>, kept: seq<string>)
    requires calls != [] && kept == Tail(calls[0].lines) && AllGood(calls) && AllHeaders(kept)
    ensures SameValues(KeptLines(calls), kept) <==> NothingLater(calls, Fold(map[], kept))
  {
    KeptInTwo(calls);
    HeadersSplit(kept, LaterLines(calls));
    SameOrNew(kept, LaterLines(calls));
  }

  /** What one call makes of the whole message. */
  ghost predicate WholeIs(m: string, kept: seq<string>, first: string, body: string) {
    && Completes([m]) && AllHeaders(kept) && Fold(map[], KeptLines(Calls([m]))) == Fold(map[], kept)
    && RequestLine(Calls([m])) == first && Body([m]) == body
  }

  /** The calls behind the first complete with the same head. */
  lemma SameHeadBehind(bufs: seq<string>, m: string, kept: seq<string>, first: string, body: string)
    requires |bufs| > 1 && FirstCall(bufs, kept, |body|) && WholeIs(m, kept, first, body) && AllGood(Calls(bufs))
    ensures SameHead(Calls(bufs), Calls([m]))
       <==> NothingLater(Calls(bufs), Fold(map[], kept)) && RequestLine(Calls(bufs)) == first
  {
    SameOrLater(Calls(bufs), kept);
    FoldSameExactly(KeptLines(Calls(bufs)), kept);
    FoldSameExactly(KeptLines(Calls(bufs)), KeptLines(Calls([m])));
  }

  lemma BodyAgainIs(bufs: seq<string>, headers: map<string, string>, first: string, body: string, end: nat)
    requires |bufs| > 1 && WaitsInBody(bufs[..|bufs| - 1], headers, |body|)
    requires KnownLines(FinalCall(bufs).lines, headers) && RequestLine(Calls(bufs)) == first
    requires FinalCall(bufs).headerEnd == Some(end) && BodyAt(Last(bufs), end, body)
    ensures BodyAgain(bufs, headers, first, body)
  {
  }

  /** The body that a completing run took. */
  lemma BodyTaken(bufs: seq<string>, end: nat, body: string)
    requires Completes(bufs) && Body(bufs) == body && FinalCall(bufs).headerEnd == Some(end)
    requires BodyLength(KeptLines(Calls(bufs))) == |body| && end + |body| <= |Last(bufs)|
    ensures BodyAt(Last(bufs), end, body)
  {
  }

  /** The calls complete with this request line and body, and nothing new behind the first. */
  ghost predicate FinishesWith(bufs: seq<string>, headers: map<string, string>, first: string, body: string) {
    && Completes(bufs) && NothingLater(Calls(bufs), headers)
    && RequestLine(Calls(bufs)) == first && Body(bufs) == body
  }

  lemma AlikeIs(bufs: seq<string>, m: string, kept: seq<string>, first: string, body: string)
    requires SameCompletion(bufs, m) && WholeIs(m, kept, first, body)
    ensures SameHead(Calls(bufs), Calls([m])) && Body(bufs) == body && RequestLine(Calls(bufs)) == first
  {
  }

  /** The first of several calls waits for the body that one call takes. */
  ghost predicate FirstWaits(bufs: seq<string>, m: string, kept: seq<string>, first: string, body: string) {
    |bufs| > 1 && FirstCall(bufs, kept, |body|) && RunsOn([bufs[0]]) && WholeIs(m, kept, first, body)
  }

  lemma AlikeFinishes(bufs: seq<string>, m: string, kept: seq<string>, first: string, body: string)
    requires |bufs| > 1 && FirstCall(bufs, kept, |body|) && WholeIs(m, kept, first, body)
    requires SameCompletion(bufs, m)
    ensures FinishesWith(bufs, Fold(map[], kept), first, body)
  {
    AlikeIs(bufs, m, kept, first, body);
    SameHeadBehind(bufs, m, kept, first, body);
  }

  lemma BodyAgainNeeds(bufs: seq<string>, m: string, kept: seq<string>, first: string, body: string)
    requires FirstWaits(bufs, m, kept, first, body)
    requires SameCompletion(bufs, m)
    ensures BodyAgain(bufs, Fold(map[], kept), first, body)
  {
    AlikeFinishes(bufs, m, kept, first, body);
    BehindBlank(bufs);
    FinishesInBody(bufs, kept, first, body, FinalCall(bufs).headerEnd.value);
  }

  lemma CompletesIs(bufs: seq<string>)
    requires Completes(bufs)
    ensures bufs != [] && RunsOn(bufs[..|bufs| - 1]) && Completing(Calls(bufs), Last(bufs))
  {
  }

  lemma FinishesInBody(bufs: seq<string>, kept: seq<string>, first: string, body: string, end: nat)
    requires |bufs| > 1 && FirstCall(bufs, kept, |body|) && RunsOn([bufs[0]])
    requires FinishesWith(bufs, Fold(map[], kept), first, body) && FinalCall(bufs).headerEnd == Some(end)
    ensures BodyAgain(bufs, Fold(map[], kept), first, body)
  {
    CompletesIs(bufs);
    EarlierWait(bufs, kept, |body|);
    LaterCall(bufs, kept, |body|, end);
    BodyTaken(bufs, end, body);
    BodyAgainIs(bufs, Fold(map[], kept), first, body, end);
  }

  lemma EarlierWait(bufs: seq<string>, kept: seq<string>, length: nat)
    requires |bufs| > 1 && FirstCall(bufs, kept, length) && RunsOn([bufs[0]])
    requires RunsOn(bufs[..|bufs| - 1]) && NothingLater(Calls(bufs), Fold(map[], kept))
    ensures WaitsInBody(bufs[..|bufs| - 1], Fold(map[], kept), length)
    ensures KnownLines(FinalCall(bufs).lines, Fold(map[], kept))
  {
    NothingBefore(bufs, Fold(map[], kept));
    SameFirst(bufs);
    WaitsInBodyIs(bufs[..|bufs| - 1], kept, length);
    CallsBefore(bufs);
    NothingLaterStep(Calls(bufs[..|bufs| - 1]), Calls(bufs), Fold(map[], kept));
  }

  lemma EarlierRuns(bufs: seq<string>, kept: seq<string>, length: nat)
    requires |bufs| > 1 && FirstCall(bufs, kept, length) && RunsOn([bufs[0]])
    requires WaitsInBody(bufs[..|bufs| - 1], Fold(map[], kept), length)
    requires KnownLines(FinalCall(bufs).lines, Fold(map[], kept))
    ensures RunsOn(bufs[..|bufs| - 1]) && NothingLater(Calls(bufs), Fold(map[], kept))
  {
    SameFirst(bufs);
    WaitsInBodyIs(bufs[..|bufs| - 1], kept, length);
    CallsBefore(bufs);
    NothingLaterStep(Calls(bufs[..|bufs| - 1]), Calls(bufs), Fold(map[], kept));
  }

  lemma BodyAgainWaits(bufs: seq<string>, headers: map<string, string>, first: string, body: string)
    requires BodyAgain(bufs, headers, first, body)
    ensures WaitsInBody(bufs[..|bufs| - 1], headers, |body|) && KnownLines(FinalCall(bufs).lines, headers)
  {
  }

  lemma BodyAgainEnds(bufs: seq<string>, headers: map<string, string>, first: string, body: string, end: nat)
    requires BodyAgain(bufs, headers, first, body) && FinalCall(bufs).headerEnd == Some(end)
    ensures RequestLine(Calls(bufs)) == first && BodyAt(Last(bufs), end, body)
  {
  }

  lemma BodyAgainSuffices(bufs: seq<string>, m: string, kept: seq<string>, first: string, body: string)
    requires FirstWaits(bufs, m, kept, first, body)
    requires BodyAgain(bufs, Fold(map[], kept), first, body)
    ensures SameCompletion(bufs, m)
  {
    var end := FinalCall(bufs).headerEnd.value;
    BodyAgainWaits(bufs, Fold(map[], kept), first, body);
    BodyAgainEnds(bufs, Fold(map[], kept), first, body, end);
    BodyBehind(bufs, m, kept, first, body, end);
  }

  lemma BodyBehind(bufs: seq<string>, m: string, kept: seq<string>, first: string, body: string, end: nat)
    requires |bufs| > 1 && FirstCall(bufs, kept, |body|) && RunsOn([bufs[0]]) && WholeIs(m, kept, first, body)
    requires WaitsInBody(bufs[..|bufs| - 1], Fold(map[], kept), |body|)
    requires KnownLines(FinalCall(bufs).lines, Fold(map[], kept)) && FinalCall(bufs).headerEnd == Some(end)
    requires RequestLine(Calls(bufs)) == first && BodyAt(Last(bufs), end, body)
    ensures SameCompletion(bufs, m)
  {
    EarlierRuns(bufs, kept, |body|);
    NothingLaterCompletes(bufs, m, kept, first, body, end);
  }

  lemma NothingLaterCompletes(bufs: seq<string>, m: string, kept: seq<string>, first: string, body: string, end: nat)
    requires |bufs| > 1 && FirstCall(bufs, kept, |body|) && WholeIs(m, kept, first, body)
    requires RunsOn(bufs[..|bufs| - 1]) && NothingLater(Calls(bufs), Fold(map[], kept))
    requires FinalCall(bufs).headerEnd == Some(end) && RequestLine(Calls(bufs)) == first
    requires BodyAt(Last(bufs), end, body)
    ensures SameCompletion(bufs, m)
  {
    LaterCall(bufs, kept, |body|, end);
    SameHeadBehind(bufs, m, kept, first, body);
    EndsAlike(bufs, m, kept, first, body, end);
  }

  lemma EndsAlike(bufs: seq<string>, m: string, kept: seq<string>, first: string, body: string, end: nat)
    requires bufs != [] && RunsOn(bufs[..|bufs| - 1]) && WholeIs(m, kept, first, body)
    requires AllGood(Calls(bufs)) && Completing(Calls(bufs), Last(bufs)) && SameHead(Calls(bufs), Calls([m]))
    requires Start(Calls(bufs)) == end && BodyLength(KeptLines(Calls(bufs))) == |body|
    requires BodyAt(Last(bufs), end, body)
    ensures SameCompletion(bufs, m)
  {
    CompletesNow(bufs);
    BodyIs(bufs, end, body);
  }

  lemma CompletesNow(bufs: seq<string>)
    requires bufs != [] && RunsOn(bufs[..|bufs| - 1])
    requires AllGood(Calls(bufs)) && Completing(Calls(bufs), Last(bufs))
    ensures Completes(bufs)
  {
  }

  lemma BodyIs(bufs: seq<string>, end: nat, body: string)
    requires Completes(bufs) && Start(Calls(bufs)) == end && BodyLength(KeptLines(Calls(bufs))) == |body|
    requires BodyAt(Last(bufs), end, body)
    ensures Body(bufs) == body
  {
  }

  /** The body that the head of `m` announces. */
  function BodyOf(m: string): string
    requires Scan(m, 0).headerEnd.Some? && IsHead(Scan(m, 0).lines)
  {
    Slice(m, Scan(m, 0).headerEnd.value, BodyLength(Tail(Scan(m, 0).lines)))
  }

  /** A read of the complete message `m` that ends with part of the body: the
      blank line is in `b` as it is in `m`, and the lines ask for more. */
  predicate CutsBody(b: string, m: string) {
    && b < m && |m| < SIZE_LIMIT
    && Scan(b, 0).headerEnd.Some? && Scan(b, 0).headerEnd == Scan(m, 0).headerEnd
    && AsksForMore(Scan(m, 0).lines, |b|, Scan(m, 0).headerEnd.value)
    && BodyThere(Tail(Scan(m, 0).lines), |m|, Scan(m, 0).headerEnd.value)
  }

  lemma LengthAsked(kept: seq<string>, b: string, m: string, end: nat)
    requires AllHeaders(kept) && Waits(kept, |b|, end) && BodyThere(kept, |m|, end) && |m| < SIZE_LIMIT
    ensures Announces(kept, BodyLength(kept)) && |b| < end + BodyLength(kept) <= |m|
    ensures |Slice(m, end, BodyLength(kept))| == BodyLength(kept)
  {
  }

  lemma SingleCompletes(m: string)
    requires AllGood(Calls([m])) && Completing(Calls([m]), m)
    ensures Completes([m])
  {
    assert [m][..0] == [];
    assert RunsOn([]) && Last([m]) == m;
  }

  /** What the message holds. */
  lemma WholeRead(m: string, lines: seq<string>, end: nat)
    requires lines == Scan(m, 0).lines != [] && Scan(m, 0).headerEnd == Some(end)
    requires IsHead(lines) && BodyThere(lines[1..], |m|, end)
    ensures WholeIs(m, lines[1..], lines[0], BodyOf(m))
    ensures ParseOnce(m).Accepted? && ParseOnce(m).request.cursor == Complete
  {
    CallsOfOne(m);
    GoodSingle(m);
    CompletesBehind(Calls([m]), m, end);
    SingleCompletes(m);
    RunIsAlways([m]);
    OneCallRun(m);
  }

  /** What the message holds, and what the first call leaves of it. */
  lemma FirstRead(b: string, m: string, lines: seq<string>, end: nat)
    requires CutsBody(b, m) && lines == Scan(m, 0).lines && Scan(m, 0).headerEnd == Some(end)
    ensures lines == Scan(b, 0).lines != [] && Announces(lines[1..], |BodyOf(m)|) && RunsOn([b])
    ensures WholeIs(m, lines[1..], lines[0], BodyOf(m))
    ensures ParseOnce(m).Accepted? && ParseOnce(m).request.cursor == Complete
  {
    ScanExtends(b, m, 0);
    LengthAsked(Tail(lines), b, m, end);
    WholeRead(m, lines, end);
    CallsOfOne(b);
    GoodSingle(b);
    OneRead(b, end, |BodyOf(m)|);
  }

  lemma OneRead(b: string, end: nat, length: nat)
    requires AllGood(Calls([b])) && Announces(KeptLines(Calls([b])), length)
    requires FinalCall([b]).headerEnd == Some(end) && |b| < end + length < SIZE_LIMIT
    ensures RunsOn([b])
  {
    CallByLength(Calls([b]), b, length, end);
    SingleRunsOn(b);
  }

  lemma GoodSingle(b: string)
    requires Good(Scan(b, 0))
    ensures AllGood(Calls([b]))
  {
    CallsOfOne(b);
    assert Calls([b])[..0] == [];
  }

  lemma SingleRunsOn(b: string)
    requires AllGood(Calls([b])) && WaitsOn(Calls([b]), b)
    ensures RunsOn([b])
  {
    assert [b][..0] == [];
    assert RunsOn([]) && Last([b]) == b;
  }

  /** Any number of reads, the first of which ends in the body of a complete
      message, give what one call gives exactly when one of the later calls finds
      the whole body once more behind a blank line, and in front of it only
      lines that read as a head that is known already. */
  lemma BodyCutExact(bufs: seq<string>, m: string)
    requires bufs != [] && CutsBody(bufs[0], m)
    ensures ParseRun(FRESH, bufs) == ParseOnce(m) <==> BodyComesAgain(bufs, m)
  {
    var lines, body := Scan(m, 0).lines, BodyOf(m);
    FirstRead(bufs[0], m, lines, Scan(m, 0).headerEnd.value);
    BodyRunExact(bufs, m, lines, body);
  }

  /** One of the calls behind the first finds the body again. */
  ghost predicate ComesAgain(bufs: seq<string>, lines: seq<string>, body: string)
    requires lines != [] && AllHeaders(lines[1..])
  {
    exists k :: 1 < k <= |bufs| && BodyAgain(bufs[..k], Fold(map[], lines[1..]), lines[0], body)
  }

  /** One of the later calls finds the body of `m` again. */
  ghost predicate BodyComesAgain(bufs: seq<string>, m: string)
    requires Scan(m, 0).headerEnd.Some? && IsHead(Scan(m, 0).lines)
  {
    Scan(m, 0).lines != [] && ComesAgain(bufs, Scan(m, 0).lines, BodyOf(m))
  }

  lemma BodyRunExact(bufs: seq<string>, m: string, lines: seq<string>, body: string)
    requires bufs != [] && lines == Scan(bufs[0], 0).lines != [] && Announces(lines[1..], |body|)
    requires RunsOn([bufs[0]]) && WholeIs(m, lines[1..], lines[0], body)
    requires ParseOnce(m).Accepted? && ParseOnce(m).request.cursor == Complete
    ensures ParseRun(FRESH, bufs) == ParseOnce(m) <==> ComesAgain(bufs, lines, body)
  {
    RunExact(bufs, m);
    forall k | 1 < k <= |bufs|
      ensures CompletesAlike(bufs, k, m) <==> BodyAgain(bufs[..k], Fold(map[], lines[1..]), lines[0], body)
    {
      FirstCallIs(bufs[..k], lines, |body|);
      BodyAgainExactly(bufs[..k], m, lines[1..], lines[0], body);
    }
    if k :| CompletesAlike(bufs, k, m) { NotAtFirst(bufs, k); }
  }

  /** Reads that give what one call on `b` gives can be left out of any run. */
  lemma HarmlessStart(start: seq<string>, b: string, rest: seq<string>)
    requires ParseRun(FRESH, start + [b]) == ParseOnce(b)
    ensures ParseRun(FRESH, start + [b] + rest) == ParseRun(FRESH, [b] + rest)
  {
    RunConcat(FRESH, start + [b], rest);
    RunConcat(FRESH, [b], rest);
    OneCallRun(b);
  }

  /** Cuts in the header section, harmless ones by the theorem on those, and then
      cuts in the body. */
  lemma MixedCutExact(start: seq<string>, b: string, rest: seq<string>, m: string)
    requires HeaderReads(start + [b], b) && ParseOnce(b).Accepted? && CutsBody(b, m)
    requires HeadsHarmless(start + [b], b)
    ensures ParseRun(FRESH, start + [b] + rest) == ParseOnce(m) <==> BodyComesAgain([b] + rest, m)
  {
    HeaderCutExact(start + [b], b);
    HarmlessStart(start, b, rest);
    BodyCutExact([b] + rest, m);
  }

  /** The condition of `HeaderCutExact`. */
  predicate HeadsHarmless(bufs: seq<string>, m: string) {
    var calls, lines := Calls(bufs), Scan(m, 0).lines;
    && AllHeaders(KeptLines(calls)) && AllHeaders(Dropped(calls)) && AllHeaders(Tail(lines))
    && HeadsRepeat(calls, lines)
  }

  lemma FirstCallIs(bufs: seq<string>, lines: seq<string>, length: nat)
    requires bufs != [] && lines == Scan(bufs[0], 0).lines != [] && Announces(lines[1..], length)
    ensures FirstCall(bufs, lines[1..], length)
  {
    FirstOfAll(bufs);
  }

  lemma BodyAgainExactly(bufs: seq<string>, m: string, kept: seq<string>, first: string, body: string)
    requires FirstWaits(bufs, m, kept, first, body)
    ensures SameCompletion(bufs, m) <==> BodyAgain(bufs, Fold(map[], kept), first, body)
  {
    if SameCompletion(bufs, m) { BodyAgainNeeds(bufs, m, kept, first, body); }
    if BodyAgain(bufs, Fold(map[], kept), first, body) { BodyAgainSuffices(bufs, m, kept, first, body); }
  }

  lemma NotAtFirst(bufs: seq<string>, k: int)
    requires 0 <= k <= |bufs| && Completes(bufs[..k]) && bufs != [] && RunsOn([bufs[0]])
    ensures k > 1
  {
    if k == 1 {
      assert bufs[..1] == [bufs[0]];
      NotBoth(Calls([bufs[0]]), bufs[0]);
    }
  }

  // ---- cuts between CR and LF -----------------------------------------------------------------

  /** `part` is the lines of `whole` in front of `later`, up to `size`. */
  predicate InFrontOf(part: ScanResult, whole: ScanResult, later: ScanResult, size: nat) {
    part.lines != [] && part.cursor == size && whole == Prepend(part.lines, later)
  }

  predicate WholeLines(b: string, m: string, c: nat) {
    InFrontOf(Scan(b, c), Scan(m, c), Scan(m, |b| + 1), |b|)
  }

  /** The lines in front of the cut are whole in both buffers. */
  lemma {:induction false} LineAtCut(b: string, m: string, c: nat)
    requires b < m && SplitsCrLf(m, |b|) && c < |b| && Scan(b, c).headerEnd.None?
    ensures WholeLines(b, m, c)
    decreases |b| - c
  {
    var p := NextBreak(b, c);
    LastIsBreak(b, c);
    PrefixBreak(b, m, c);
    PrefixTerm(b, m, p);
    assert m[c..p] == b[c..p];
    if p == |b| - 1 {
      OnlyLine(b, m, c, p);
    } else {
      LineAtCut(b, m, p + TermLen(b, p));
      OneLineMore(b, m, c, p, p + TermLen(b, p));
    }
  }

  lemma LoneLine(b: string, c: nat, p: nat)
    requires c < p == NextBreak(b, c) == |b| - 1 && TermLen(b, p) == 1
    ensures Scan(b, c) == ScanResult([b[c..p]], |b|, None)
  {
    ScanSplits(b, c, p, |b|);
    NothingLeft(b);
    assert [b[c..p]] + [] == [b[c..p]];
  }

  lemma NothingLeft(b: string)
    ensures Scan(b, |b|) == ScanResult([], |b|, None)
  {
  }

  lemma OnlyLine(b: string, m: string, c: nat, p: nat)
    requires b < m && c < p == NextBreak(b, c) == NextBreak(m, c) == |b| - 1
    requires TermLen(b, p) == 1 && TermLen(m, p) == 2 && b[c..p] == m[c..p]
    ensures WholeLines(b, m, c)
  {
    LoneLine(b, c, p);
    ScanSplits(m, c, p, |b| + 1);
  }

  lemma ScanSplits(m: string, c: nat, p: nat, next: nat)
    requires c < p == NextBreak(m, c) < |m| && next == p + TermLen(m, p)
    ensures Scan(m, c) == Prepend([m[c..p]], Scan(m, next))
  {
  }

  lemma OneLineMore(b: string, m: string, c: nat, p: nat, next: nat)
    requires c < p == NextBreak(b, c) == NextBreak(m, c) < |b| && b <= m && b[c..p] == m[c..p]
    requires next == p + TermLen(m, p) == p + TermLen(b, p) && WholeLines(b, m, next)
    ensures WholeLines(b, m, c)
  {
    ScanSplits(b, c, p, next);
    ScanSplits(m, c, p, next);
    LineInFront(b[c..p], Scan(b, next), Scan(m, next), Scan(m, |b| + 1), |b|);
  }

  lemma LineInFront(line: string, part: ScanResult, whole: ScanResult, later: ScanResult, size: nat)
    requires InFrontOf(part, whole, later, size)
    ensures InFrontOf(Prepend([line], part), Prepend([line], whole), later, size)
  {
    PrependTwice([line], part.lines, later);
  }

  lemma LastIsBreak(b: string, c: nat)
    requires c < |b| && b[|b| - 1] == '\r' && Scan(b, c).headerEnd.None?
    ensures c < NextBreak(b, c) < |b|
    ensures NextBreak(b, c) < |b| - 1 ==> NextBreak(b, c) + TermLen(b, NextBreak(b, c)) < |b|
  {
    BreakIsNotBefore(b, c, |b| - 1);
  }

  lemma {:induction false} CursorBehindLines(m: string, c: nat)
    requires c <= |m|
    ensures Scan(m, c).lines == [] <==> Scan(m, c).cursor == c
  {
    var p := NextBreak(m, c);
    if p < |m| && p != c { ScanStops(m, p + TermLen(m, p)); }
  }

  /** The head is whole without the lines `rest`, and from `end` on `m` finishes
      as it does from the end of its header section. */
  predicate MissesNothing(kept: seq<string>, rest: seq<string>, m: string, end: nat, headerEnd: Option<nat>)
    requires AllHeaders(kept) && AllHeaders(rest)
  {
    && NothingNew(Fold(map[], kept), rest)
    && match headerEnd
       case None => rest == [] && Waits(kept, |m|, end)
       case Some(h) => BodyThere(kept, |m|, h) && BodyAt(m, end, Slice(m, h, BodyLength(kept)))
  }

  /** A second call that finds its blank line where the first one stopped. */
  lemma BlankThere(q: Request, m: string, c: nat)
    requires q.cursor == At(c) && c < |m| && m[c] == '\n'
    ensures Parse(q, m) == Finish(q, m, c + 1)
  {
    LoneLf(m, c);
  }

  /** The call on `b` stored the head and waits behind it, at the cut. */
  lemma WaitsAtCut(b: string, m: string, q: Request)
    requires b < m && SplitsCrLf(m, |b|) && q.cursor == At(|b|) && ParseOnce(b) == Accepted(q)
    requires ParseOnce(m).Accepted? && ParseOnce(m) == Finish(q.(cursor := At(Scan(m, 0).cursor)), m, |b| + 1)
    ensures ParseRun(FRESH, [b, m]) == ParseOnce(m)
  {
    TwoCalls(b, m);
    BlankThere(q, m, |b|);
    FinishAnywhere(q.(cursor := At(Scan(m, 0).cursor)), m, |b| + 1, |b|);
  }

  lemma FinishAnywhere(q: Request, m: string, end: nat, c: nat)
    ensures Finish(q, m, end).Accepted? ==> Finish(q.(cursor := At(c)), m, end) == Finish(q, m, end)
  {
  }

  /** A call that ends behind a blank line with nothing thrown and no body yet. */
  lemma WaitingObject(b: string, m: string, end: nat)
    requires b < m && Scan(b, 0).headerEnd == Some(end) && !Finished(ParseOnce(b))
    ensures var q := ParseOnce(b).request; ParseOnce(b) == Accepted(q) && q.cursor == At(end)
    ensures var q, r := ParseOnce(b).request, Scan(m, 0);
            r.headerEnd.Some? && ParseOnce(m) == Finish(q.(cursor := At(r.cursor)), m, r.headerEnd.value)
  {
    var r := Scan(b, 0);
    CursorKept(FRESH.(cursor := At(r.cursor)), r.lines);
    ScanExtends(b, m, 0);
  }

  /** Between the CR and the LF of the blank line itself a cut does no harm. */
  lemma BlankLineCut(b: string, m: string)
    requires b < m && |m| < SIZE_LIMIT && SplitsCrLf(m, |b|) && Scan(b, 0).headerEnd == Some(|b|)
    requires ParseOnce(m).Accepted?
    ensures ParseRun(FRESH, [b, m]) == ParseOnce(m)
  {
    if Finished(ParseOnce(b)) {
      FinishedByBlank(b, m);
      TwoCalls(b, m);
    } else {
      WaitingObject(b, m, |b|);
      ScanExtends(b, m, 0);
      WaitsAtCut(b, m, ParseOnce(b).request);
    }
  }

  /** An object that holds `kept` finishes at `end` as `whole` did at `h`. */
  lemma FinishLike(q: Request, kept: seq<string>, m: string, end: nat, h: nat, whole: Request)
    requires AllHeaders(kept) && q.headers == Fold(map[], kept) && q.body == "" && q.cursor.At? && end <= |m|
    requires h <= |m| && Finish(q, m, h) == Accepted(whole) && whole.cursor == Complete
    ensures Finish(q, m, end) == Accepted(whole)
       <==> BodyAt(m, end, whole.body)
  {
    FinishStored(q, kept, m, end);
    FinishStored(q, kept, m, h);
    assert Slice(m, h, BodyLength(kept)) == whole.body;
  }

  /** Behind the cut the second call waits where `end` is. */
  lemma WaitLike(q: Request, kept: seq<string>, m: string, end: nat, c: nat)
    requires AllHeaders(kept) && q.headers == Fold(map[], kept) && q.body == "" && q.cursor.At? && end <= |m|
    ensures Finish(q, m, end) == Accepted(q.(cursor := At(c))) <==> c == end && Waits(kept, |m|, end)
  {
    FinishStored(q, kept, m, end);
  }

  /** The lines of the first call are the first lines of the message, and what
      the second call starts from is known. */
  lemma CutHeads(lines: seq<string>, rest: seq<string>, c: nat, d: nat)
    requires lines != [] && AddLines(FRESH.(cursor := At(d)), lines + rest).Accepted?
    ensures AllHeaders(lines[1..]) && AllHeaders(rest)
    ensures AddLines(FRESH.(cursor := At(c)), lines) == Accepted(HeadOf(lines, c))
    ensures var whole := AddLines(FRESH.(cursor := At(d)), lines + rest).request;
            && whole == HeadOf(lines, d).(headers := Fold(Fold(map[], lines[1..]), rest))
            && (whole.headers == Fold(map[], lines[1..]) <==> NothingNew(Fold(map[], lines[1..]), rest))
  {
    var all := lines + rest;
    assert all[0] == lines[0] && all[1..] == lines[1..] + rest;
    ReadHead(all, d);
    HeadersSplit(lines[1..], rest);
    ReadHead(lines, c);
    FoldConcat(map[], lines[1..], rest);
    FoldUnchangedExactly(Fold(map[], lines[1..]), rest);
  }

  /** The one call, from the object `q` of the first of two. */
  ghost predicate OneCallFrom(q: Request, rest: seq<string>, m: string, c: nat, headerEnd: Option<nat>, whole: Request)
    requires AllHeaders(rest)
  {
    AfterLines(Accepted(q.(headers := Fold(q.headers, rest), cursor := At(c))), m, headerEnd) == Accepted(whole)
  }

  /** With the same head, two ways to finish. */
  lemma LateFinish(q: Request, p: Request, kept: seq<string>, m: string, end: nat, h: nat, whole: Request)
    requires AllHeaders(kept) && q.headers == Fold(map[], kept) && q.body == "" && q.cursor.At?
    requires p == q.(cursor := p.cursor) && p.cursor.At? && end < h <= |m| && Finish(p, m, h) == Accepted(whole)
    ensures Finish(q, m, end) == Accepted(whole)
       <==> BodyThere(kept, |m|, h) && BodyAt(m, end, Slice(m, h, BodyLength(kept)))
  {
    FinishStored(p, kept, m, h);
    if BodyThere(kept, |m|, h) {
      SameFinish(q, p, m, end);
      FinishLike(p, kept, m, end, h, whole);
    } else {
      WaitLike(q, kept, m, end, h);
    }
  }

  lemma SameFinish(q: Request, p: Request, m: string, end: nat)
    requires p == q.(cursor := p.cursor)
    ensures Finish(q, m, end).Accepted? || Finish(p, m, end).Accepted? ==> Finish(q, m, end) == Finish(p, m, end)
  {
  }

  lemma LateDiffers(q: Request, headers: map<string, string>, m: string, end: nat, c: nat, headerEnd: Option<nat>,
                    whole: Request)
    requires AfterLines(Accepted(q.(headers := headers, cursor := At(c))), m, headerEnd) == Accepted(whole)
    ensures Finish(q, m, end) == Accepted(whole) ==> headers == q.headers
  {
    FinishKeeps(q, m, end);
    if headerEnd.Some? { FinishKeeps(q.(headers := headers, cursor := At(c)), m, headerEnd.value); }
  }

  /** Two calls with the blank line made of the LF, against the one call. */
  lemma LateHeads(q: Request, kept: seq<string>, rest: seq<string>, m: string, end: nat, c: nat, headerEnd: Option<nat>,
                  whole: Request)
    requires AllHeaders(kept) && AllHeaders(rest) && q.headers == Fold(map[], kept) && q.body == "" && q.cursor.At?
    requires end <= |m| && (headerEnd.Some? ==> end < headerEnd.value <= |m|) && (rest == [] <==> c == end)
    requires OneCallFrom(q, rest, m, c, headerEnd, whole)
    ensures Finish(q, m, end) == Accepted(whole) <==> MissesNothing(kept, rest, m, end, headerEnd)
  {
    FoldUnchangedExactly(q.headers, rest);
    LateDiffers(q, Fold(q.headers, rest), m, end, c, headerEnd, whole);
    if NothingNew(q.headers, rest) {
      match headerEnd
      case None => WaitLike(q, kept, m, end, c);
      case Some(h) => LateFinish(q, q.(cursor := At(c)), kept, m, end, h, whole);
    }
  }

  /** A read that ends between the CR and the LF of a header line. */
  predicate CutsLineEnd(b: string, m: string) {
    b < m && |m| < SIZE_LIMIT && SplitsCrLf(m, |b|) && Scan(b, 0).headerEnd.None?
  }

  lemma FirstOfTwo(b: string, m: string, lines: seq<string>)
    requires CutsLineEnd(b, m) && lines == Scan(b, 0).lines != [] && Scan(b, 0).cursor == |b|
    requires AddLines(FRESH.(cursor := At(|b|)), lines).Accepted?
    ensures AllHeaders(lines[1..]) && ParseRun(FRESH, [b, m]) == Finish(HeadOf(lines, |b|), m, |b| + 1)
  {
    ReadHead(lines, |b|);
    ParseOnceIs(b, lines, |b|, None);
    TwoCalls(b, m);
    BlankThere(HeadOf(lines, |b|), m, |b|);
  }

  lemma WholeOfTwo(m: string, lines: seq<string>, rest: seq<string>, at: nat, c: nat, headerEnd: Option<nat>,
                   whole: Request)
    requires lines != [] && Scan(m, 0) == ScanResult(lines + rest, c, headerEnd) && ParseOnce(m) == Accepted(whole)
    ensures AddLines(FRESH.(cursor := At(at)), lines).Accepted? && AllHeaders(lines[1..]) && AllHeaders(rest)
    ensures OneCallFrom(HeadOf(lines, at), rest, m, c, headerEnd, whole)
  {
    CutHeads(lines, rest, at, c);
  }

  lemma LineEndCut(b: string, m: string, lines: seq<string>, later: ScanResult, whole: Request)
    requires CutsLineEnd(b, m) && ParseOnce(m) == Accepted(whole)
    requires lines == Scan(b, 0).lines && later == Scan(m, |b| + 1)
    ensures lines != [] && AllHeaders(lines[1..]) && AllHeaders(later.lines)
    ensures ParseRun(FRESH, [b, m]) == Accepted(whole)
       <==> MissesNothing(lines[1..], later.lines, m, |b| + 1, later.headerEnd)
  {
    LineAtCut(b, m, 0);
    WholeOfTwo(m, lines, later.lines, |b|, later.cursor, later.headerEnd, whole);
    FirstOfTwo(b, m, lines);
    CursorBehindLines(m, |b| + 1);
    HeaderEndIsLater(m, |b| + 1);
    LateCall(lines, later, m, |b|, whole);
  }

  lemma LateCall(lines: seq<string>, later: ScanResult, m: string, c: nat, whole: Request)
    requires lines != [] && AllHeaders(lines[1..]) && AllHeaders(later.lines) && c + 1 <= |m|
    requires later.headerEnd.Some? ==> c + 1 < later.headerEnd.value <= |m|
    requires later.lines == [] <==> later.cursor == c + 1
    requires OneCallFrom(HeadOf(lines, c), later.lines, m, later.cursor, later.headerEnd, whole)
    ensures Finish(HeadOf(lines, c), m, c + 1) == Accepted(whole)
       <==> MissesNothing(lines[1..], later.lines, m, c + 1, later.headerEnd)
  {
    HeadOnly(lines[0]);
    LateHeads(HeadOf(lines, c), lines[1..], later.lines, m, c + 1, later.cursor, later.headerEnd, whole);
  }

  /** What a cut in a line end must not miss: the lines behind it and the body. */
  ghost predicate LineEndHarmless(b: string, m: string) {
    var lines, later := Scan(b, 0).lines, Scan(m, |b| + 1);
    && lines != [] && AllHeaders(lines[1..]) && AllHeaders(later.lines)
    && MissesNothing(lines[1..], later.lines, m, |b| + 1, later.headerEnd)
  }

  /** Two calls, the first of which ends between the CR and the LF of a header
      line: the second takes the LF for the blank line.  They give what one call
      gives on an accepted message exactly when no line behind the cut says
      anything new, and the message finishes there as it does at its own end. */
  lemma LineEndCutExact(b: string, m: string)
    requires CutsLineEnd(b, m) && ParseOnce(m).Accepted?
    ensures ParseRun(FRESH, [b, m]) == ParseOnce(m) <==> LineEndHarmless(b, m)
  {
    LineEndCut(b, m, Scan(b, 0).lines, Scan(m, |b| + 1), ParseOnce(m).request);
  }

  /** More reads, when the second call is not made to wait at the LF. */
  lemma LineEndReadsExact(b: string, b1: string, rest: seq<string>, m: string)
    requires CutsLineEnd(b, m) && b < b1 <= m && ParseOnce(m).Accepted?
    requires !AsksForMore(Scan(b, 0).lines, |b1|, |b| + 1)
    ensures ParseRun(FRESH, [b, b1] + rest) == ParseOnce(m) <==> LineEndHarmless(b, m)
  {
    var lines := Scan(b, 0).lines;
    HeadInFront(b, m, lines);
    EndsAtLf(lines, |b|, b1, m, |b| + 1);
    FirstOfTwo(b, m, lines);
    FirstOfTwo(b, b1, lines);
    FinishedRun([b, b1], rest);
    LineEndCutExact(b, m);
  }

  lemma HeadInFront(b: string, m: string, lines: seq<string>)
    requires CutsLineEnd(b, m) && ParseOnce(m).Accepted? && lines == Scan(b, 0).lines
    ensures lines != [] && Scan(b, 0).cursor == |b| && IsHead(lines)
    ensures AddLines(FRESH.(cursor := At(|b|)), lines).Accepted?
  {
    var later := Scan(m, |b| + 1);
    LineAtCut(b, m, 0);
    WholeOfTwo(m, lines, later.lines, |b|, later.cursor, later.headerEnd, ParseOnce(m).request);
    ReadHead(lines, |b|);
  }

  /** A call that does not wait ends the same with more bytes. */
  lemma EndsAtLf(lines: seq<string>, c: nat, b1: string, m: string, end: nat)
    requires lines != [] && IsHead(lines) && b1 <= m && |m| < SIZE_LIMIT && end <= |b1|
    requires !AsksForMore(lines, |b1|, end)
    ensures Finish(HeadOf(lines, c), m, end) == Finish(HeadOf(lines, c), b1, end)
    ensures Finished(Finish(HeadOf(lines, c), b1, end))
  {
    HeadOnly(lines[0]);
    FinishStored(HeadOf(lines, c), lines[1..], b1, end);
    FinishExtends(HeadOf(lines, c), b1, m, end);
  }

  lemma FinishedRun(bufs: seq<string>, rest: seq<string>)
    requires Finished(ParseRun(FRESH, bufs))
    ensures ParseRun(FRESH, bufs + rest) == ParseRun(FRESH, bufs)
  {
    RunConcat(FRESH, bufs, rest);
    var o := ParseRun(FRESH, bufs);
    if o.Accepted? { CompleteStays(o.request, rest); }
  }

  /** More reads, when it may be: the message's body has to come again behind a
      blank line, which the LF is one of. */
  lemma LineEndWaitsExact(bufs: seq<string>, m: string, lines: seq<string>, rest: seq<string>, length: nat)
    requires bufs != [] && CutsLineEnd(bufs[0], m)
    requires lines == Scan(bufs[0], 0).lines && rest == Scan(m, |bufs[0]| + 1).lines
    requires ParseOnce(m).Accepted? && ParseOnce(m).request.cursor == Complete && IsHead(Scan(m, 0).lines)
    requires lines != [] && Announces(lines[1..], length) && Known(rest, Fold(map[], lines[1..]))
    ensures Scan(m, 0).headerEnd.Some? && length == |BodyOf(m)|
    ensures ParseRun(FRESH, bufs) == ParseOnce(m) <==> ComesAgain(bufs, lines, BodyOf(m))
  {
    WholeBehindCut(bufs[0], m, lines, rest, length);
    SingleRunsOn(bufs[0]);
    BodyRunExact(bufs, m, lines, BodyOf(m));
  }

  lemma WholeBehindCut(b: string, m: string, lines: seq<string>, rest: seq<string>, length: nat)
    requires CutsLineEnd(b, m) && lines == Scan(b, 0).lines && rest == Scan(m, |b| + 1).lines
    requires ParseOnce(m).Accepted? && ParseOnce(m).request.cursor == Complete && IsHead(Scan(m, 0).lines)
    requires lines != [] && Announces(lines[1..], length) && Known(rest, Fold(map[], lines[1..]))
    ensures Scan(m, 0).headerEnd.Some? && length == |BodyOf(m)| && WholeIs(m, lines[1..], lines[0], BodyOf(m))
    ensures AllGood(Calls([b])) && WaitsOn(Calls([b]), b)
  {
    HeadInFront(b, m, lines);
    LineAtCut(b, m, 0);
    OneCallRun(m);
    CallsOfOne(m);
    GoodSingle(b);
    CallsOfOne(b);
    NoBlankWaits(Calls([b]), b);
    BehindBlank([m]);
    CompletesBehind(Calls([m]), m, Scan(m, 0).headerEnd.value);
    WholeWithRest(m, lines, rest, Scan(m, 0).lines, Scan(m, 0).headerEnd.value, length);
  }

  lemma HeadWithRest(lines: seq<string>, rest: seq<string>, all: seq<string>, length: nat)
    requires lines != [] && all == lines + rest && Announces(lines[1..], length) && Known(rest, Fold(map[], lines[1..]))
    ensures all != [] && all[0] == lines[0] && Announces(all[1..], length)
    ensures Fold(map[], all[1..]) == Fold(map[], lines[1..])
  {
    assert all[1..] == lines[1..] + rest;
    FirstStays(lines[1..], rest, length);
    FoldConcat(map[], lines[1..], rest);
    OldStays(Fold(map[], lines[1..]), rest);
  }

  lemma BodyHasLength(m: string, all: seq<string>, end: nat, length: nat)
    requires Scan(m, 0).lines == all != [] && Scan(m, 0).headerEnd == Some(end) && IsHead(all)
    requires Announces(all[1..], length) && BodyThere(all[1..], |m|, end)
    ensures |BodyOf(m)| == length
  {
    ByLength(all[1..], length, |m|, end);
  }

  lemma WholeIsAlso(m: string, all: seq<string>, kept: seq<string>, first: string, body: string)
    requires WholeIs(m, all, first, body) && AllHeaders(kept) && Fold(map[], all) == Fold(map[], kept)
    ensures WholeIs(m, kept, first, body)
  {
  }

  lemma WholeWithRest(m: string, lines: seq<string>, rest: seq<string>, all: seq<string>, end: nat, length: nat)
    requires lines != [] && all == lines + rest && Scan(m, 0).lines == all && Scan(m, 0).headerEnd == Some(end)
    requires IsHead(all) && BodyThere(Tail(all), |m|, end)
    requires Announces(lines[1..], length) && Known(rest, Fold(map[], lines[1..]))
    ensures length == |BodyOf(m)| && WholeIs(m, lines[1..], lines[0], BodyOf(m))
  {
    HeadWithRest(lines, rest, all, length);
    BodyHasLength(m, all, end, length);
    WholeRead(m, all, end);
    WholeIsAlso(m, all[1..], lines[1..], lines[0], BodyOf(m));
  }

  /** A read between the CR and the LF of the blank line can be left out of any run. */
  lemma BlankLineReads(b: string, b1: string, rest: seq<string>)
    requires b < b1 && |b1| < SIZE_LIMIT && SplitsCrLf(b1, |b|) && Scan(b, 0).headerEnd == Some(|b|)
    requires ParseOnce(b1).Accepted?
    ensures ParseRun(FRESH, [b, b1] + rest) == ParseRun(FRESH, [b1] + rest)
  {
    BlankLineCut(b, b1);
    assert [b] + [b1] == [b, b1];
    HarmlessStart([b], b1, rest);
  }

  /** Every cut of an accepted message between CR and LF in its header section. */
  lemma CrLfCutExact(b: string, m: string)
    requires b < m && |m| < SIZE_LIMIT && Harmful(m, Scan(m, 0).headerEnd, |b|) && ParseOnce(m).Accepted?
    ensures ParseRun(FRESH, [b, m]) == ParseOnce(m) <==> Scan(b, 0).headerEnd.Some? || LineEndHarmless(b, m)
  {
    if Scan(b, 0).headerEnd.Some? {
      ScanExtends(b, m, 0);
      BlankLineCut(b, m);
    } else {
      LineEndCutExact(b, m);
    }
  }

  // ---- the smallest messages that show it -------------------------------------------------

  lemma TwoLineScan(term: string, m: string)
    requires term in DELIMITERS && m == LINE + term + HEADER + term + term
    ensures Scan(m, 0).lines == [LINE, HEADER] && ParseOnce(m).Accepted?
  {
    var l1, l2 := Piece(LINE, term), Piece(HEADER, term);
    assert [l1, l2][1..] == [l2] && [l2][1..] == [];
    assert Flatten([l2]) == HEADER + term + "";
    assert m[0..] == Flatten([l1, l2]) + term;
    ScanUnique(m, 0, [l1, l2], term);
    assert Lines([l2]) == [HEADER] + Lines([]) && Lines([l1, l2]) == [LINE] + Lines([l2]);
    ShortMessage(m);
  }

  lemma OneLineScan(term: string)
    requires term in DELIMITERS
    ensures Scan(LINE + term, 0) == ScanResult([LINE], |LINE + term|, None)
  {
    var m, l := LINE + term, Piece(LINE, term);
    assert [l][1..] == [];
    assert m[0..] == Flatten([l]) + "";
    ScanUnique(m, 0, [l], "");
    assert Lines([l]) == [LINE] + Lines([]);
    ScanStops(m, 0);
  }

  /** A read that ends after the request line: the header line is then taken for
      a request line, and rejected. */
  lemma CutAfterRequestLine()
    ensures var b, m := LINE + "\n", LINE + "\n" + HEADER + "\n" + "\n";
            ParseOnce(m).Accepted? && ParseRun(FRESH, [b, m]) != ParseOnce(m)
  {
    var b, m := LINE + "\n", LINE + "\n" + HEADER + "\n" + "\n";
    TwoLineScan("\n", m);
    OneLineScan("\n");
    assert b < m && InHeader(b, m);
    assert [b, m][..1] == [b];
    HeaderCutExact([b, m], m);
    HeaderCalls([b, m], m);
    SecondGroup(b, m);
    NotTwoSpaces();
    assert Calls([b, m])[1] in Calls([b, m]);
  }

  lemma SecondGroup(b: string, m: string)
    requires Scan(b, 0).lines == [LINE] && AllLines(Calls([b, m])) == [LINE, HEADER]
    ensures Calls([b, m])[1].lines == [HEADER]
  {
    var calls := Calls([b, m]);
    FirstOfAll([b, m]);
    assert calls[..1] == [calls[0]] && [calls[0]][..0] == [];
    assert AllLines([calls[0]]) == AllLines([]) + [LINE];
    assert [LINE, HEADER][1..] == [HEADER] && ([LINE] + calls[1].lines)[1..] == calls[1].lines;
  }

  lemma NotTwoSpaces()
    ensures !IsRequestLine(HEADER)
  {
    FindCharIs(HEADER, ' ', 0, 2);
    FindCharNone(HEADER, ' ', 3);
  }

  /** A read that ends between the CR and the LF of the request line: the request
      is complete without its header. */
  lemma CutBetweenCrAndLf()
    ensures var b, m := LINE + "\r", LINE + "\r\n" + HEADER + "\r\n" + "\r\n";
            ParseOnce(m).Accepted? && ParseRun(FRESH, [b, m]) != ParseOnce(m)
  {
    var b, m := LINE + "\r", LINE + "\r\n" + HEADER + "\r\n" + "\r\n";
    TwoLineScan("\r\n", m);
    OneLineScan("\r");
    assert b < m && SplitsCrLf(m, |b|);
    LineEndCutExact(b, m);
    LineAtCut(b, m, 0);
    assert Scan(b, 0).lines == [LINE];
    assert [LINE, HEADER][1..] == [HEADER] && ([LINE] + Scan(m, |b| + 1).lines)[1..] == Scan(m, |b| + 1).lines;
    ShortKey();
  }

  lemma ShortKey()
    ensures IsHeader(HEADER) && Key(HEADER) !in UNIQUE_HEADERS
  {
    assert StartsAt(HEADER, 1, ": ");
    assert |Key(HEADER)| <= 1;
  }
}
