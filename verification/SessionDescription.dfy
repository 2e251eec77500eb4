/** src/Server/Stream.cpp:53-80: taking the carriage returns out of the SDP,
    in the buffer it was written to. */
module SessionDescription {

  predicate Terminated(s: string) { exists i :: 0 <= i < |s| && s[i] == '\0' }

  /** `strlen`. */
  function StrLen(s: string): (n: nat)
    requires Terminated(s)
    ensures n < |s| && s[n] == '\0' && forall i :: 0 <= i < n ==> s[i] != '\0'
  {
    if s[0] == '\0' then 0
    else
      var k :| 0 <= k < |s| && s[k] == '\0';
      assert s[1..][k - 1] == '\0';
      var n := StrLen(s[1..]);
      assert forall i :: 1 <= i < 1 + n ==> s[i] == s[1..][i - 1];
      1 + n
  }

  function CString(s: string): string
    requires Terminated(s)
  {
    s[..StrLen(s)]
  }

  function WithoutCr(s: string): string {
    if s == "" then ""
    else WithoutCr(s[..|s| - 1]) + if s[|s| - 1] == '\r' then "" else [s[|s| - 1]]
  }

  predicate NoCr(s: string) { forall i :: 0 <= i < |s| ==> s[i] != '\r' }

  lemma {:induction false} SegmentStays(s: string, segment: string)
    requires NoCr(segment)
    ensures WithoutCr(s + segment) == WithoutCr(s) + segment
    decreases |segment|
  {
    if segment == "" {
      assert s + segment == s;
    } else {
      var init := segment[..|segment| - 1];
      SegmentStays(s, init);
      assert (s + segment)[..|s + segment| - 1] == s + init;
      assert segment == init + [segment[|segment| - 1]];
    }
  }

  lemma CrGoes(s: string)
    ensures WithoutCr(s + "\r") == WithoutCr(s)
  {
    assert (s + "\r")[..|s|] == s;
  }

  /** Nothing but carriage returns is lost, and none is left. */
  lemma {:induction false} WithoutCrCounts(s: string, c: char)
    ensures NoCr(WithoutCr(s))
    ensures c != '\r' ==> multiset(WithoutCr(s))[c] == multiset(s)[c]
  {
    if s != "" {
      WithoutCrCounts(s[..|s| - 1], c);
      assert s == s[..|s| - 1] + [s[|s| - 1]];
    }
  }

  /** What is left stays in order: the text of two parts is that of each. */
  lemma {:induction false} WithoutCrConcat(a: string, b: string)
    ensures WithoutCr(a + b) == WithoutCr(a) + WithoutCr(b)
    decreases |b|
  {
    if b == "" {
      assert a + b == a;
    } else {
      WithoutCrConcat(a, b[..|b| - 1]);
      assert (a + b)[..|a + b| - 1] == a + b[..|b| - 1];
    }
  }

  lemma WithoutCrOne(c: char)
    ensures WithoutCr([c]) == if c == '\r' then "" else [c]
  {
    assert [c][..0] == "";
  }

  /** `b` with `n` bytes copied down from `src` to `dest`. */
  function Moved(b: string, dest: nat, src: nat, n: nat): string
    requires dest <= src && src + n <= |b|
  {
    b[..dest] + b[src..src + n] + b[dest + n..]
  }

  /** `memmove` to a lower address. */
  method MoveDown(buffer: array<char>, dest: nat, src: nat, n: nat)
    requires dest <= src && src + n <= buffer.Length
    modifies buffer
    ensures buffer[..] == Moved(old(buffer[..]), dest, src, n)
  {
    ghost var b := buffer[..];
    for i := 0 to n
      invariant buffer[..] == Moved(b, dest, src, i)
    {
      OneByte(b, dest, src, i);
      assert buffer[..][src + i] == b[src + i];
      buffer[dest + i] := buffer[src + i];
    }
  }

  lemma OneByte(b: string, dest: nat, src: nat, i: nat)
    requires dest <= src && src + i < |b|
    ensures Moved(b, dest, src, i)[src + i] == b[src + i]
    ensures Moved(b, dest, src, i + 1) == Moved(b, dest, src, i)[dest + i := b[src + i]]
  {
  }

  /** What the buffer `b` holds once the text `o[..i]` is compacted up to the
      terminator at `start`, `count` carriage returns having been dropped. */
  ghost predicate Compacted(o: string, b: string, start: int, count: nat, i: nat) {
    && |b| == |o| && -1 <= start < |o| && start < i <= |o|
    && b[start + 1..] == o[start + 1..]
    && NoCr(o[start + 1..i])
    && if start == -1 then count == 0
       else count <= start && b[..start - count] == WithoutCr(o[..start]) && b[start - count] == o[start]
  }

  lemma NextCr(o: string, start: int, i: nat)
    requires 0 <= start < i < |o| && o[start] == '\r' && NoCr(o[start + 1..i])
    ensures WithoutCr(o[..i]) == WithoutCr(o[..start]) + o[start + 1..i]
  {
    assert o[..i] == o[..start] + "\r" + o[start + 1..i];
    SegmentStays(o[..start] + "\r", o[start + 1..i]);
    CrGoes(o[..start]);
  }

  lemma AfterMove(o: string, b: string, start: nat, count: nat, i: nat)
    requires Compacted(o, b, start, count, i) && i < |o| && o[start] == '\r'
    ensures Compacted(o, Moved(b, start - count, start + 1, i - start), i, count + 1, i + 1)
  {
    var d, n := start - count, i - start;
    var m := Moved(b, d, start + 1, n);
    NextCr(o, start, i);
    assert b[start + 1..start + 1 + n] == o[start + 1..i] + [o[i]];
    assert m[..d + n - 1] == b[..d] + o[start + 1..i];
    assert m[d + n - 1] == o[i];
    assert m[i + 1..] == b[i + 1..] == b[start + 1..][i - start..];
  }

  lemma NextByte(o: string, b: string, start: int, count: nat, i: nat)
    requires Compacted(o, b, start, count, i) && i < |o|
    ensures b[i] == o[i]
  {
    assert b[start + 1..][i - start - 1] == b[i] && o[start + 1..][i - start - 1] == o[i];
  }

  lemma AtFirst(o: string, b: string, i: nat)
    requires Compacted(o, b, -1, 0, i) && i < |o|
    ensures Compacted(o, b, i, 0, i + 1)
  {
    assert b[-1 + 1..] == b && o[-1 + 1..] == o && o[0..i] == o[..i];
    SegmentStays("", o[..i]);
    assert "" + o[..i] == o[..i];
  }

  lemma Passed(o: string, b: string, start: int, count: nat, i: nat)
    requires Compacted(o, b, start, count, i) && i < |o| && o[i] != '\r'
    ensures Compacted(o, b, start, count, i + 1)
  {
    assert o[start + 1..i + 1] == o[start + 1..i] + [o[i]];
  }

  /** The text of `b` is the text of `o` without its carriage returns; what
      follows the old terminator is untouched. */
  ghost predicate CompactedText(o: string, b: string)
    requires Terminated(o)
  {
    && Terminated(b) && CString(b) == WithoutCr(CString(o))
    && |b| == |o| && b[StrLen(o) + 1..] == o[StrLen(o) + 1..]
  }

  lemma Done(o: string, b: string, count: nat)
    requires Terminated(o) && Compacted(o, b, StrLen(o), count, StrLen(o) + 1)
    ensures CompactedText(o, b)
  {
    var n := StrLen(o);
    assert b[n - count] == '\0';
    NoNul(o[..n]);
    var k := StrLen(b);
    assert forall j :: 0 <= j < n - count ==> b[j] == b[..n - count][j];
  }

  lemma {:induction false} NoNul(s: string)
    requires forall i :: 0 <= i < |s| ==> s[i] != '\0'
    ensures forall i :: 0 <= i < |WithoutCr(s)| ==> WithoutCr(s)[i] != '\0'
  {
    if s != "" { NoNul(s[..|s| - 1]); }
  }

  /** One round of the loop, at a carriage return or at the end. */
  method CloseSegment(buffer: array<char>, start: int, count: nat, i: nat, ghost o: string) returns (dropped: nat)
    requires Compacted(o, buffer[..], start, count, i) && i < |o| && (start == -1 || o[start] == '\r')
    modifies buffer
    ensures Compacted(o, buffer[..], i, dropped, i + 1)
  {
    dropped := count;
    if start != -1 {
      AfterMove(o, buffer[..], start, count, i);
      MoveDown(buffer, start - count, start + 1, i - start);
      dropped := count + 1;
    } else {
      AtFirst(o, buffer[..], i);
    }
  }

  /** Where the last segment ended: nowhere yet, at a carriage return, or at the end. */
  predicate SegmentEnd(o: string, start: int, n: nat, i: nat) {
    && -1 <= start < |o|
    && if i == n + 1 then start == n else start == -1 || o[start] == '\r'
  }

  /** What the loop knows in front of byte `i`. */
  ghost predicate Before(o: string, b: string, start: int, count: nat, n: nat, i: nat) {
    Compacted(o, b, start, count, i) && SegmentEnd(o, start, n, i)
  }

  lemma OpenSegment(o: string, b: string, start: int, count: nat, n: nat, i: nat)
    requires Before(o, b, start, count, n, i) && i <= n < |o|
    ensures Compacted(o, b, start, count, i) && (start == -1 || o[start] == '\r') && |b| == |o| && b[i] == o[i]
  {
    NextByte(o, b, start, count, i);
  }

  lemma NextSegment(o: string, b: string, count: nat, n: nat, i: nat)
    requires Compacted(o, b, i, count, i + 1) && i <= n < |o| && (i == n || o[i] == '\r')
    ensures Before(o, b, i, count, n, i + 1)
  {
  }

  lemma SameSegment(o: string, b: string, start: int, count: nat, n: nat, i: nat)
    requires Before(o, b, start, count, n, i) && i < n < |o| && o[i] != '\r'
    ensures Before(o, b, start, count, n, i + 1)
  {
    Passed(o, b, start, count, i);
  }

  method CloseRound(buffer: array<char>, start: int, count: nat, i: nat, n: nat, ghost o: string)
    returns (dropped: nat)
    requires Before(o, buffer[..], start, count, n, i) && i <= n < |o| && (i == n || o[i] == '\r')
    modifies buffer
    ensures Before(o, buffer[..], i, dropped, n, i + 1)
  {
    OpenSegment(o, buffer[..], start, count, n, i);
    dropped := CloseSegment(buffer, start, count, i, o);
    NextSegment(o, buffer[..], dropped, n, i);
  }

  method SegmentEnds(buffer: array<char>, start: int, count: nat, i: nat, n: nat, ghost o: string)
    returns (ends: bool)
    requires Before(o, buffer[..], start, count, n, i) && i <= n < |o|
    ensures ends <==> i == n || o[i] == '\r'
  {
    OpenSegment(o, buffer[..], start, count, n, i);
    ends := i == n || buffer[i] == '\r';
  }

  /** Lines 67-76: one round of the loop. */
  method Round(buffer: array<char>, start: int, count: nat, i: nat, n: nat, ghost o: string)
    returns (start': int, count': nat)
    requires Before(o, buffer[..], start, count, n, i) && i <= n < |o|
    modifies buffer
    ensures Before(o, buffer[..], start', count', n, i + 1)
  {
    var ends := SegmentEnds(buffer, start, count, i, n, o);
    if ends {
      count' := CloseRound(buffer, start, count, i, n, o);
      start' := i;
    } else {
      SameSegment(o, buffer[..], start, count, n, i);
      start', count' := start, count;
    }
  }

  method RemoveCarriageReturns(buffer: array<char>)
    requires Terminated(buffer[..])
    modifies buffer
    ensures CompactedText(old(buffer[..]), buffer[..])
  {
    ghost var o := buffer[..];
    var n := StrLen(buffer[..]);
    var count, start := 0, -1;
    for i := 0 to n + 1
      invariant Before(o, buffer[..], start, count, n, i)
    {
      start, count := Round(buffer, start, count, i, n, o);
    }
    Done(o, buffer[..], count);
  }
}
