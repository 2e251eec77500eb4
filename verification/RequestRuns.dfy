/** Successive calls of the parser, wherever the message is cut: what each call
    sees, what the object holds in the end, and exactly when that is what one
    call on the whole message gives. */
module RequestRuns {
  import opened Text
  import opened RequestScanner
  import opened RequestChunks
  import opened RequestParser
  import opened RequestHeaders
  import opened RequestProperties

  // ---- what the calls see -----------------------------------------------------------

  /** Behind a blank line it waits at, else in front of the line to come. */
  function NextStart(r: ScanResult): nat { if r.headerEnd.Some? then r.headerEnd.value else r.cursor }

  function Start(calls: seq<ScanResult>): nat { if calls == [] then 0 else NextStart(calls[|calls| - 1]) }

  /** What each call sees, as long as none completes the request. */
  function Calls(bufs: seq<string>): (calls: seq<ScanResult>)
    ensures |calls| == |bufs|
  {
    if bufs == [] then []
    else
      var before := Calls(bufs[..|bufs| - 1]);
      before + [Scan(bufs[|bufs| - 1], Start(before))]
  }

  lemma CallsBefore(bufs: seq<string>)
    requires bufs != []
    ensures var n := |bufs| - 1; Calls(bufs)[..n] == Calls(bufs[..n])
    ensures var n := |bufs| - 1; Calls(bufs)[n] == Scan(bufs[n], Start(Calls(bufs[..n])))
  {
  }

  /** Three empty parts, as a fresh object has. */
  const NO_LINE := "  "

  /** The line taken for the request line last. */
  function RequestLine(calls: seq<ScanResult>): string {
    if calls == [] then NO_LINE
    else
      var r := calls[|calls| - 1];
      if r.lines == [] then RequestLine(calls[..|calls| - 1]) else r.lines[0]
  }

  /** The lines taken for headers. */
  function KeptLines(calls: seq<ScanResult>): seq<string> {
    if calls == [] then [] else KeptLines(calls[..|calls| - 1]) + Tail(calls[|calls| - 1].lines)
  }

  predicate Good(r: ScanResult) { IsHead(r.lines) }

  predicate AllGood(calls: seq<ScanResult>): (good: bool)
    ensures good ==> AllHeaders(KeptLines(calls))
  {
    calls == [] || (AllGood(calls[..|calls| - 1]) && Good(calls[|calls| - 1]))
  }

  /** The last call, on `b`, sees no blank line, or waits for the body behind it. */
  predicate WaitsOn(calls: seq<ScanResult>, b: string)
    requires calls != [] && AllGood(calls)
  {
    calls[|calls| - 1].headerEnd.Some? ==> Waits(KeptLines(calls), |b|, Start(calls))
  }

  predicate Completing(calls: seq<ScanResult>, b: string)
    requires calls != [] && AllGood(calls)
  {
    calls[|calls| - 1].headerEnd.Some? && BodyThere(KeptLines(calls), |b|, Start(calls))
  }

  /** No call throws, and none completes the request. */
  predicate RunsOn(bufs: seq<string>): (on: bool)
    ensures on ==> AllGood(Calls(bufs))
  {
    bufs == [] || (RunsOn(bufs[..|bufs| - 1]) && AllGood(Calls(bufs)) && WaitsOn(Calls(bufs), Last(bufs)))
  }

  /** The last call completes the request, and none before it does. */
  predicate Completes(bufs: seq<string>): (c: bool)
    ensures c ==> AllGood(Calls(bufs))
  {
    && bufs != [] && RunsOn(bufs[..|bufs| - 1])
    && AllGood(Calls(bufs)) && Completing(Calls(bufs), Last(bufs))
  }

  // ---- what the object holds ------------------------------------------------------------

  /** The object behind calls that neither throw nor complete. */
  function StoredBy(calls: seq<ScanResult>): Request
    requires AllGood(calls)
  {
    SetRequestLine(FRESH, RequestLine(calls)).request.(headers := Fold(map[], KeptLines(calls)),
                                                       cursor := At(Start(calls)))
  }

  function Completed(calls: seq<ScanResult>, b: string): Request
    requires AllGood(calls)
  {
    StoredBy(calls).(body := Slice(b, Start(calls), BodyLength(KeptLines(calls))), cursor := Complete)
  }

  function Answer(bufs: seq<string>): Request
    requires Completes(bufs)
  {
    Completed(Calls(bufs), Last(bufs))
  }

  lemma StoredStep(calls: seq<ScanResult>, r: ScanResult)
    requires AllGood(calls)
    ensures AllGood(calls + [r]) <==> Good(r)
    ensures KeptLines(calls + [r]) == KeptLines(calls) + Tail(r.lines)
    ensures RequestLine(calls + [r]) == if r.lines == [] then RequestLine(calls) else r.lines[0]
    ensures Start(calls + [r]) == NextStart(r)
  {
    assert (calls + [r])[..|calls|] == calls;
  }

  /** The lines of one more call. */
  lemma AddStored(calls: seq<ScanResult>, r: ScanResult)
    requires AllGood(calls)
    ensures var q := StoredBy(calls).(cursor := At(r.cursor));
            && (AddLines(q, r.lines).Accepted? <==> Good(r))
            && (Good(r) ==>
                  && AllGood(calls + [r])
                  && AddLines(q, r.lines).request == StoredBy(calls + [r]).(cursor := At(r.cursor)))
  {
    StoredStep(calls, r);
    var q := StoredBy(calls).(cursor := At(r.cursor));
    if r.lines != [] {
      GoodLine(q, r.lines[0]);
      var named := SetRequestLine(q, r.lines[0]).request;
      AddHeadersIs(named, r.lines[1..]);
      if Good(r) { FoldConcat(map[], KeptLines(calls), r.lines[1..]); }
    } else {
      assert KeptLines(calls) + [] == KeptLines(calls);
    }
  }

  /** What the last of `calls` does, made on `b`. */
  ghost predicate CallIs(calls: seq<ScanResult>, b: string, o: Outcome)
    requires calls != []
  {
    if !AllGood(calls) then o.Rejected?
    else if WaitsOn(calls, b) then o == Accepted(StoredBy(calls))
    else if Completing(calls, b) then o == Accepted(Completed(calls, b))
    else o.Rejected?
  }

  lemma OneCall(calls: seq<ScanResult>, b: string)
    requires AllGood(calls)
    ensures CallIs(calls + [Scan(b, Start(calls))], b, Parse(StoredBy(calls), b))
  {
    var r := Scan(b, Start(calls));
    AddStored(calls, r);
    StoredStep(calls, r);
    if Good(r) {
      if r.headerEnd.Some? { HeaderEndIsLater(b, Start(calls)); }
      CallEnds(calls + [r], r, b);
    }
  }

  lemma CallEnds(calls: seq<ScanResult>, r: ScanResult, b: string)
    requires calls != [] && calls[|calls| - 1] == r && AllGood(calls)
    requires r.headerEnd.Some? ==> r.headerEnd.value <= |b|
    ensures var q := StoredBy(calls).(cursor := At(r.cursor));
            CallIs(calls, b, if r.headerEnd.None? then Accepted(q) else Finish(q, b, r.headerEnd.value))
  {
    HeadOnly(RequestLine(calls));
    if r.headerEnd.Some? {
      FinishStored(StoredBy(calls).(cursor := At(r.cursor)), KeptLines(calls), b, r.headerEnd.value);
    }
  }

  lemma StoredNothing()
    ensures StoredBy([]) == FRESH
  {
    var line := NO_LINE;
    assert line[0] == ' ' && line[1] == ' ';
    FindCharIs(line, ' ', 0, 0);
    FindCharIs(line, ' ', 1, 1);
    assert line[..0] == "" && line[1..1] == "" && line[2..] == "";
  }

  /** What a run of calls comes to. */
  ghost predicate RunIs(bufs: seq<string>) {
    var o := ParseRun(FRESH, bufs);
    && (RunsOn(bufs) ==> o == Accepted(StoredBy(Calls(bufs))))
    && (Completes(bufs) ==> o == Accepted(Answer(bufs)))
    && (o.Accepted? && o.request.cursor.At? ==> RunsOn(bufs))
  }

  lemma Prefix(bufs: seq<string>)
    requires bufs != []
    ensures var n := |bufs| - 1; bufs == bufs[..n] + [bufs[n]]
  {
  }

  lemma {:induction false} RunIsAlways(bufs: seq<string>)
    ensures RunIs(bufs)
    decreases |bufs|
  {
    if bufs == [] {
      StoredNothing();
    } else {
      RunIsAlways(bufs[..|bufs| - 1]);
      if RunsOn(bufs[..|bufs| - 1]) { RunsOneMore(bufs); } else { StaysFinished(bufs); }
    }
  }

  lemma NotBoth(calls: seq<ScanResult>, b: string)
    requires calls != [] && AllGood(calls) && Completing(calls, b)
    ensures !WaitsOn(calls, b)
  {
    var lengths := Values(KeptLines(calls), "content-length");
    if lengths != [] {
      var sum := Start(calls) + FromChars(lengths[0], SIZE_LIMIT).value;
      assert sum % SIZE_LIMIT <= sum;
    }
  }

  lemma OutcomeOfLast(bufs: seq<string>)
    requires bufs != [] && RunsOn(bufs[..|bufs| - 1]) && RunIs(bufs[..|bufs| - 1])
    ensures CallIs(Calls(bufs), Last(bufs), ParseRun(FRESH, bufs))
  {
    var n := |bufs| - 1;
    Prefix(bufs);
    RunSnoc(FRESH, bufs[..n], bufs[n]);
    OneCall(Calls(bufs[..n]), bufs[n]);
  }

  lemma RunsOneMore(bufs: seq<string>)
    requires bufs != [] && RunsOn(bufs[..|bufs| - 1]) && RunIs(bufs[..|bufs| - 1])
    ensures RunIs(bufs)
    ensures ParseRun(FRESH, bufs).Accepted? ==> RunsOn(bufs) || Completes(bufs)
  {
    OutcomeOfLast(bufs);
    if Completes(bufs) { NotBoth(Calls(bufs), Last(bufs)); }
  }

  /** Behind a call that throws or completes, no call runs on. */
  lemma StaysFinished(bufs: seq<string>)
    requires bufs != []
    requires var o := ParseRun(FRESH, bufs[..|bufs| - 1]); o.Accepted? ==> o.request.cursor == Complete
    requires !RunsOn(bufs[..|bufs| - 1])
    ensures RunIs(bufs)
  {
    Prefix(bufs);
    RunSnoc(FRESH, bufs[..|bufs| - 1], bufs[|bufs| - 1]);
  }

  lemma CompletedBefore(bufs: seq<string>)
    requires bufs != [] && RunIs(bufs[..|bufs| - 1]) && !RunsOn(bufs[..|bufs| - 1])
    requires ParseRun(FRESH, bufs).Accepted?
    ensures var o := ParseRun(FRESH, bufs[..|bufs| - 1]); o.Accepted? && o.request.cursor == Complete
  {
    Prefix(bufs);
    RunSnoc(FRESH, bufs[..|bufs| - 1], bufs[|bufs| - 1]);
  }

  lemma LastOrBefore(bufs: seq<string>)
    requires bufs != [] && ParseRun(FRESH, bufs).Accepted? && ParseRun(FRESH, bufs).request.cursor == Complete
    ensures Completes(bufs) ||
            (var o := ParseRun(FRESH, bufs[..|bufs| - 1]); o.Accepted? && o.request.cursor == Complete)
  {
    RunIsAlways(bufs[..|bufs| - 1]);
    if RunsOn(bufs[..|bufs| - 1]) {
      RunsOneMore(bufs);
      RunIsAlways(bufs);
    } else {
      CompletedBefore(bufs);
    }
  }

  /** A run completes at one of its calls, and stays as it is from there. */
  lemma {:induction false} CompletesSomewhere(bufs: seq<string>) returns (k: nat)
    requires ParseRun(FRESH, bufs).Accepted? && ParseRun(FRESH, bufs).request.cursor == Complete
    ensures k <= |bufs| && Completes(bufs[..k])
    decreases |bufs|
  {
    assert bufs != [];
    k := |bufs|;
    assert bufs[..k] == bufs;
    LastOrBefore(bufs);
    if !Completes(bufs) {
      k := CompletesSomewhere(bufs[..|bufs| - 1]);
      PrefixTwice(bufs, |bufs| - 1, k);
    }
  }

  lemma PrefixTwice(bufs: seq<string>, n: nat, k: nat)
    requires k <= n <= |bufs|
    ensures bufs[..n][..k] == bufs[..k]
  {
  }

  lemma {:induction false} CompletedStays(bufs: seq<string>, k: nat)
    requires k <= |bufs| && Completes(bufs[..k])
    ensures ParseRun(FRESH, bufs) == Accepted(Answer(bufs[..k]))
    decreases |bufs|
  {
    if k == |bufs| {
      assert bufs[..k] == bufs;
      RunIsAlways(bufs);
    } else {
      var n := |bufs| - 1;
      Prefix(bufs);
      PrefixTwice(bufs, n, k);
      CompletedStays(bufs[..n], k);
      RunSnoc(FRESH, bufs[..n], bufs[n]);
    }
  }

  predicate CompletesIn(bufs: seq<string>, k: int) { 0 <= k <= |bufs| && Completes(bufs[..k]) }

  /** A run throws no exception exactly when every call is made of good lines and
      waits, all of them or up to one that completes the request. */
  lemma AcceptedExactly(bufs: seq<string>)
    ensures ParseRun(FRESH, bufs).Accepted? <==> RunsOn(bufs) || exists k :: CompletesIn(bufs, k)
  {
    RunIsAlways(bufs);
    if ParseRun(FRESH, bufs).Accepted? && ParseRun(FRESH, bufs).request.cursor == Complete {
      var k := CompletesSomewhere(bufs);
      assert CompletesIn(bufs, k);
    }
    if k :| CompletesIn(bufs, k) { CompletedStays(bufs, k); }
  }

  // ---- when two runs come to the same -----------------------------------------------------

  lemma {:induction false} RequestLineGood(calls: seq<ScanResult>)
    requires AllGood(calls)
    ensures IsRequestLine(RequestLine(calls))
    decreases |calls|
  {
    if calls == [] {
      FindCharIs(NO_LINE, ' ', 0, 0);
      FindCharIs(NO_LINE, ' ', 1, 1);
    } else if calls[|calls| - 1].lines == [] {
      RequestLineGood(calls[..|calls| - 1]);
    }
  }

  /** The same request line last, and the same values for every key. */
  ghost predicate SameHead(a: seq<ScanResult>, b: seq<ScanResult>)
    requires AllGood(a) && AllGood(b)
  {
    RequestLine(a) == RequestLine(b) && SameValues(KeptLines(a), KeptLines(b))
  }

  lemma SameHeadExactly(a: seq<ScanResult>, b: seq<ScanResult>)
    requires AllGood(a) && AllGood(b)
    ensures StoredBy(a).(cursor := Complete) == StoredBy(b).(cursor := Complete) <==> SameHead(a, b)
  {
    RequestLineGood(a);
    RequestLineGood(b);
    RequestLineText(FRESH, RequestLine(a));
    RequestLineText(FRESH, RequestLine(b));
    FoldSameExactly(KeptLines(a), KeptLines(b));
  }

  function Body(bufs: seq<string>): string
    requires Completes(bufs)
  {
    Slice(Last(bufs), Start(Calls(bufs)), BodyLength(KeptLines(Calls(bufs))))
  }

  /** Two runs that complete do so alike. */
  ghost predicate Alike(a: seq<string>, b: seq<string>)
    requires Completes(a) && Completes(b)
  {
    SameHead(Calls(a), Calls(b)) && Body(a) == Body(b)
  }

  lemma AnswerIs(a: seq<string>)
    requires Completes(a)
    ensures Answer(a) == StoredBy(Calls(a)).(body := Body(a), cursor := Complete) && StoredBy(Calls(a)).body == ""
  {
    HeadOnly(RequestLine(Calls(a)));
  }

  lemma AlikeExactly(a: seq<string>, b: seq<string>)
    requires Completes(a) && Completes(b)
    ensures Answer(a) == Answer(b) <==> Alike(a, b)
  {
    SameHeadExactly(Calls(a), Calls(b));
    AnswerIs(a);
    AnswerIs(b);
    HeadAndBody(StoredBy(Calls(a)), StoredBy(Calls(b)), Body(a), Body(b));
  }

  lemma HeadAndBody(x: Request, y: Request, s: string, t: string)
    requires x.body == y.body
    ensures x.(body := s, cursor := Complete) == y.(body := t, cursor := Complete)
       <==> x.(cursor := Complete) == y.(cursor := Complete) && s == t
  {
  }

  lemma OneCallRun(m: string)
    ensures ParseRun(FRESH, [m]) == ParseOnce(m)
    ensures ParseOnce(m).Accepted? && ParseOnce(m).request.cursor == Complete ==> Completes([m])
    ensures ParseOnce(m).Accepted? && ParseOnce(m).request.cursor.At? ==> RunsOn([m])
  {
    assert [m][1..] == [];
    RunIsAlways([m]);
    RunIsAlways([m][..0]);
    RunsOneMore([m]);
  }

  /** The first `k` calls complete a request as one call on `m` does. */
  ghost predicate CompletesAlike(bufs: seq<string>, k: int, m: string) {
    0 <= k <= |bufs| && SameCompletion(bufs[..k], m)
  }

  ghost predicate SameCompletion(bufs: seq<string>, m: string) {
    Completes(bufs) && Completes([m]) && Alike(bufs, [m])
  }

  /** Any number of reads, cut anywhere, give what one call gives on a complete
      message exactly when one of the calls completes the request, and up to it
      the request line last taken, the value of every header and the body are
      those of the one call. */
  lemma RunExact(bufs: seq<string>, m: string)
    requires ParseOnce(m).Accepted? && ParseOnce(m).request.cursor == Complete
    ensures Completes([m])
    ensures ParseRun(FRESH, bufs) == ParseOnce(m) <==> exists k :: CompletesAlike(bufs, k, m)
  {
    OneCallRun(m);
    RunIsAlways([m]);
    if ParseRun(FRESH, bufs) == ParseOnce(m) {
      var k := CompletesSomewhere(bufs);
      CompletedStays(bufs, k);
      AlikeExactly(bufs[..k], [m]);
      assert CompletesAlike(bufs, k, m);
    }
    if k :| CompletesAlike(bufs, k, m) {
      CompletedStays(bufs, k);
      AlikeExactly(bufs[..k], [m]);
    }
  }

  /** The same for a message that is not complete yet: no call completes a
      request or throws, and the next call would start at the same place. */
  lemma UnfinishedExact(bufs: seq<string>, m: string)
    requires ParseOnce(m).Accepted? && ParseOnce(m).request.cursor.At?
    ensures RunsOn([m])
    ensures ParseRun(FRESH, bufs) == ParseOnce(m)
       <==> RunsOn(bufs) && SameHead(Calls(bufs), Calls([m])) && Start(Calls(bufs)) == Start(Calls([m]))
  {
    OneCallRun(m);
    RunIsAlways([m]);
    RunIsAlways(bufs);
    if RunsOn(bufs) { SameHeadExactly(Calls(bufs), Calls([m])); }
  }
}
