/** The cursor-driven line scanner of src/Server/RTSPRequest.cpp:48-85.
    Lines end with CRLF, CR or LF (section 4 of RFC 2326); a terminator where a
    line should start ends the header section. */
module RequestScanner {
  import opened Text

  predicate IsBreak(c: char) { c == '\r' || c == '\n' }

  predicate NoBreaks(s: string) { forall i :: 0 <= i < |s| ==> !IsBreak(s[i]) }

  /** Length of the longest terminator starting at `p`, 0 when there is none. */
  function TermLen(m: string, p: nat): nat {
    if p >= |m| || !IsBreak(m[p]) then 0
    else if m[p] == '\r' && p + 1 < |m| && m[p + 1] == '\n' then 2
    else 1
  }

  /** First CR or LF at or after `c`; `|m|` when there is none. */
  function NextBreak(m: string, c: nat): (p: nat)
    ensures c < |m| ==> c <= p <= |m|
    ensures c >= |m| ==> p == |m|
    ensures p < |m| ==> IsBreak(m[p])
    ensures c <= |m| ==> NoBreaks(m[c..p])
    decreases |m| - c
  {
    if c >= |m| then |m|
    else if IsBreak(m[c]) then c
    else
      var p := NextBreak(m, c + 1);
      assert m[c..p] == [m[c]] + m[c + 1..p];
      p
  }

  /** `headerEnd` is the offset after the blank line; `cursor` stays in front of it. */
  datatype ScanResult = ScanResult(lines: seq<string>, cursor: nat, headerEnd: Option<nat>)

  function Prepend(lines: seq<string>, r: ScanResult): ScanResult {
    r.(lines := lines + r.lines)
  }

  /** One pass from `c`: the complete lines up to the blank line, if any. */
  function Scan(m: string, c: nat): ScanResult
    decreases |m| - c
  {
    var p := NextBreak(m, c);
    if p >= |m| then ScanResult([], c, None)
    else if p == c then ScanResult([], c, Some(c + TermLen(m, c)))
    else Prepend([m[c..p]], Scan(m, p + TermLen(m, p)))
  }

  // ---- the three searches ----------------------------------------------------

  const DELIMITERS: seq<string> := ["\r\n", "\r", "\n"]

  predicate StartsAt(m: string, p: nat, d: string) { p + |d| <= |m| && m[p..p + |d|] == d }

  /** `std::string::find(d, c)` for a nonempty `d`. */
  function FindString(m: string, d: string, c: nat): (r: Option<nat>)
    requires d != ""
    ensures r.Some? ==> c <= r.value && StartsAt(m, r.value, d)
    ensures forall p :: c <= p && (r.Some? ==> p < r.value) && p < |m| ==> !StartsAt(m, p, d)
    decreases |m| - c
  {
    if c >= |m| then None
    else if StartsAt(m, c, d) then Some(c)
    else FindString(m, d, c + 1)
  }

  /** Search `j` is the first one that finds its terminator at `partEnd`. */
  predicate FoundBy(m: string, c: nat, j: nat, partEnd: nat)
    requires j < 3
  {
    && FindString(m, DELIMITERS[j], c) == Some(partEnd)
    && forall i :: 0 <= i < j ==> FindString(m, DELIMITERS[i], c) != Some(partEnd)
  }

  /** What the loop knows after the first `k` searches. */
  predicate Nearest(m: string, c: nat, k: nat, partEnd: nat, size: nat)
    requires k <= 3
  {
    && (forall j :: 0 <= j < k ==> var f := FindString(m, DELIMITERS[j], c); f.Some? ==> partEnd <= f.value)
    && if partEnd == |m| then size == 0
       else partEnd < |m| && exists j :: 0 <= j < k && FoundBy(m, c, j, partEnd) && size == |DELIMITERS[j]|
  }

  /** The minimum over the three searches, the longest terminator winning a tie,
      is the terminator a left-to-right pass meets first. */
  lemma NearestIsNextBreak(m: string, c: nat, partEnd: nat, size: nat)
    requires Nearest(m, c, 3, partEnd, size)
    ensures partEnd == NextBreak(m, c) && size == TermLen(m, partEnd)
  {
    var p := NextBreak(m, c);
    var f0, f1, f2 := FindString(m, DELIMITERS[0], c), FindString(m, DELIMITERS[1], c), FindString(m, DELIMITERS[2], c);
    if p < |m| {
      assert m[p..p + 1] == [m[p]];
      assert StartsAt(m, p, "\r") || StartsAt(m, p, "\n");
    }
    if partEnd < |m| {
      assert IsBreak(m[partEnd]) by {
        if f0 == Some(partEnd) { assert m[partEnd..partEnd + 2][0] == m[partEnd]; }
        if f1 == Some(partEnd) { assert m[partEnd..partEnd + 1][0] == m[partEnd]; }
        if f2 == Some(partEnd) { assert m[partEnd..partEnd + 1][0] == m[partEnd]; }
      }
      BreakIsNotBefore(m, c, partEnd);
      if f0 == Some(partEnd) {
        assert m[partEnd..partEnd + 2] == [m[partEnd], m[partEnd + 1]];
      } else if partEnd + 1 < |m| {
        assert m[partEnd..partEnd + 2] == [m[partEnd], m[partEnd + 1]];
        assert !StartsAt(m, partEnd, DELIMITERS[0]) by {
          if f0.Some? { assert partEnd < f0.value; }
        }
      }
    }
  }

  lemma BreakIsNotBefore(m: string, c: nat, q: nat)
    requires c <= q < |m| && IsBreak(m[q])
    ensures NextBreak(m, c) <= q
    decreases q - c
  {
    if c < q { BreakIsNotBefore(m, c + 1, q); }
  }

  method FindTerminator(m: string, cursor: nat) returns (partEnd: nat, delimiterSize: nat)
    ensures partEnd == NextBreak(m, cursor) && delimiterSize == TermLen(m, partEnd)
  {
    delimiterSize, partEnd := 0, |m|;
    for k := 0 to 3
      invariant Nearest(m, cursor, k, partEnd, delimiterSize)
    {
      var pos := FindString(m, DELIMITERS[k], cursor);
      if pos.Some? && pos.value < partEnd {
        partEnd, delimiterSize := pos.value, |DELIMITERS[k]|;
      }
    }
    NearestIsNextBreak(m, cursor, partEnd, delimiterSize);
  }

  // ---- what a scan is: both directions --------------------------------------

  datatype Piece = Piece(line: string, term: string)

  function Flatten(pieces: seq<Piece>): string {
    if pieces == [] then "" else pieces[0].line + pieces[0].term + Flatten(pieces[1..])
  }

  function Lines(pieces: seq<Piece>): seq<string> {
    if pieces == [] then [] else [pieces[0].line] + Lines(pieces[1..])
  }

  /** Nonempty lines free of CR and LF, each with the longest terminator, and
      then a tail that starts a blank line or holds no complete line. */
  predicate Decomposition(pieces: seq<Piece>, tail: string) {
    if pieces == [] then NoBreaks(tail) || IsBreak(tail[0])
    else
      && pieces[0].line != "" && NoBreaks(pieces[0].line)
      && pieces[0].term in DELIMITERS
      && (pieces[0].term == "\r" && pieces[1..] == [] && tail != "" ==> tail[0] != '\n')
      && Decomposition(pieces[1..], tail)
  }

  function Pieces(m: string, c: nat): seq<Piece>
    decreases |m| - c
  {
    var p := NextBreak(m, c);
    if p >= |m| || p == c then []
    else [Piece(m[c..p], m[p..p + TermLen(m, p)])] + Pieces(m, p + TermLen(m, p))
  }

  /** The scan's first line, unfolded once. */
  lemma ScanLine(m: string, c: nat)
    requires c < NextBreak(m, c) < |m|
    ensures var p := NextBreak(m, c);
            var next := p + TermLen(m, p);
            && Scan(m, c) == Prepend([m[c..p]], Scan(m, next))
            && Pieces(m, c) == [Piece(m[c..p], m[p..next])] + Pieces(m, next)
  {
  }

  lemma {:induction false} ScanStops(m: string, c: nat)
    requires c <= |m|
    ensures c <= Scan(m, c).cursor <= |m|
    ensures Scan(m, c).headerEnd ==
            var e := Scan(m, c).cursor; if e < |m| && IsBreak(m[e]) then Some(e + TermLen(m, e)) else None
    decreases |m| - c
  {
    var p := NextBreak(m, c);
    if p < |m| && p != c { ScanStops(m, p + TermLen(m, p)); }
    if p >= |m| && c < |m| { assert m[c..p][0] == m[c]; }
  }

  /** Lines and terminators interleaved rebuild exactly the consumed bytes. */
  lemma {:induction false} ScanRebuilds(m: string, c: nat)
    requires c <= |m|
    ensures c <= Scan(m, c).cursor <= |m|
    ensures Rebuilds(m, c, Pieces(m, c), Scan(m, c).cursor)
    ensures Lines(Pieces(m, c)) == Scan(m, c).lines
    decreases |m| - c
  {
    var p := NextBreak(m, c);
    if p < |m| && p != c {
      ScanRebuilds(m, p + TermLen(m, p));
      RebuildsLine(m, c);
    } else {
      RebuildsTail(m, c);
    }
  }

  lemma RebuildsTail(m: string, c: nat)
    requires c <= |m| && (NextBreak(m, c) == c || NextBreak(m, c) >= |m|)
    ensures Scan(m, c).cursor == c && Scan(m, c).lines == Lines(Pieces(m, c)) == []
    ensures Rebuilds(m, c, Pieces(m, c), c)
  {
    assert NextBreak(m, c) >= |m| ==> m[c..NextBreak(m, c)] == m[c..];
  }

  lemma RebuildsLine(m: string, c: nat)
    requires c < NextBreak(m, c) < |m|
    requires var next := NextBreak(m, c) + TermLen(m, NextBreak(m, c));
             && next <= Scan(m, next).cursor <= |m|
             && Rebuilds(m, next, Pieces(m, next), Scan(m, next).cursor)
             && Lines(Pieces(m, next)) == Scan(m, next).lines
    ensures Scan(m, c).cursor <= |m|
    ensures Rebuilds(m, c, Pieces(m, c), Scan(m, c).cursor)
    ensures Lines(Pieces(m, c)) == Scan(m, c).lines
  {
    var p := NextBreak(m, c);
    var next := p + TermLen(m, p);
    ScanLine(m, c);
    ConsPiece(m, c, p, Pieces(m, next), Scan(m, next).cursor);
  }

  predicate Rebuilds(m: string, c: nat, pieces: seq<Piece>, end: nat)
    requires c <= end <= |m|
  {
    m[c..] == Flatten(pieces) + m[end..] && Decomposition(pieces, m[end..])
  }

  lemma ConsPiece(m: string, c: nat, p: nat, rest: seq<Piece>, end: nat)
    requires c < p < |m| && NextBreak(m, c) == p && p + TermLen(m, p) <= end <= |m|
    requires Rebuilds(m, p + TermLen(m, p), rest, end)
    ensures var piece := Piece(m[c..p], m[p..p + TermLen(m, p)]);
            && Rebuilds(m, c, [piece] + rest, end)
            && Lines([piece] + rest) == [piece.line] + Lines(rest)
  {
    var next := p + TermLen(m, p);
    var piece := Piece(m[c..p], m[p..next]);
    var pieces := [piece] + rest;
    assert pieces[1..] == rest;
    TermAt(m, p);
    assert m[c..] == piece.line + piece.term + m[next..];
    assert rest == [] ==> m[next..] == m[end..];
  }

  lemma TermAt(m: string, p: nat)
    requires p < |m| && IsBreak(m[p])
    ensures m[p..p + TermLen(m, p)] in DELIMITERS
    ensures m[p..p + TermLen(m, p)] == "\r" && p + 1 < |m| ==> m[p + 1] != '\n'
  {
    assert m[p..p + 1] == [m[p]];
    assert p + 1 < |m| ==> m[p..p + 2] == [m[p], m[p + 1]];
    assert m[p..p + TermLen(m, p)] == DELIMITERS[0] || m[p..p + TermLen(m, p)] == DELIMITERS[1]
        || m[p..p + TermLen(m, p)] == DELIMITERS[2];
  }

  /** There is no other way to read a text: any decomposition of what follows
      `c` is the one the scanner finds. */
  lemma {:induction false} ScanUnique(m: string, c: nat, pieces: seq<Piece>, tail: string)
    requires c <= |m| && m[c..] == Flatten(pieces) + tail && Decomposition(pieces, tail)
    ensures ReadsAs(m, c, pieces)
    decreases |pieces|
  {
    if pieces == [] {
      ScanTail(m, c, tail);
    } else {
      var next := LeadPiece(m, c, pieces, tail);
      ScanUnique(m, next, pieces[1..], tail);
      ReadsOneMore(m, c, pieces);
    }
  }

  predicate ReadsAs(m: string, c: nat, pieces: seq<Piece>) {
    && Scan(m, c).lines == Lines(pieces)
    && Scan(m, c).cursor == c + |Flatten(pieces)|
    && Pieces(m, c) == pieces
  }

  predicate PieceAt(m: string, c: nat, line: string, term: string) {
    var p := c + |line|;
    && c < p && p + |term| <= |m| && p < |m| && NextBreak(m, c) == p && TermLen(m, p) == |term|
    && m[c..p] == line && m[p..p + |term|] == term
  }

  lemma ReadsOneMore(m: string, c: nat, pieces: seq<Piece>)
    requires pieces != [] && PieceAt(m, c, pieces[0].line, pieces[0].term)
    requires ReadsAs(m, c + |pieces[0].line| + |pieces[0].term|, pieces[1..])
    ensures ReadsAs(m, c, pieces)
  {
    ScanLine(m, c);
    assert pieces == [pieces[0]] + pieces[1..];
  }

  lemma LeadPiece(m: string, c: nat, pieces: seq<Piece>, tail: string) returns (next: nat)
    requires c <= |m| && m[c..] == Flatten(pieces) + tail && Decomposition(pieces, tail) && pieces != []
    ensures next == c + |pieces[0].line| + |pieces[0].term| <= |m|
    ensures PieceAt(m, c, pieces[0].line, pieces[0].term)
    ensures m[next..] == Flatten(pieces[1..]) + tail && Decomposition(pieces[1..], tail)
  {
    FlattenCons(pieces, tail);
    NextPiece(m, c, pieces[0].line, pieces[0].term, Flatten(pieces[1..]) + tail);
    next := c + |pieces[0].line| + |pieces[0].term|;
  }

  lemma ScanTail(m: string, c: nat, tail: string)
    requires c <= |m| && m[c..] == Flatten([]) + tail && Decomposition([], tail)
    ensures ReadsAs(m, c, [])
  {
    assert m[c..] == tail;
    if NoBreaks(tail) { NoBreakAhead(m, c); } else { assert m[c] == tail[0]; }
  }

  lemma FlattenCons(pieces: seq<Piece>, tail: string)
    requires pieces != [] && Decomposition(pieces, tail)
    ensures Flatten(pieces) + tail == pieces[0].line + pieces[0].term + (Flatten(pieces[1..]) + tail)
    ensures pieces[0].term == "\r" && Flatten(pieces[1..]) + tail != "" ==> (Flatten(pieces[1..]) + tail)[0] != '\n'
  {
    var rest := pieces[1..];
    assert rest == [] ==> Flatten(rest) + tail == tail;
    assert rest != [] ==> Flatten(rest)[0] == rest[0].line[0];
  }

  lemma NextPiece(m: string, c: nat, line: string, term: string, following: string)
    requires c <= |m| && m[c..] == line + term + following
    requires line != "" && NoBreaks(line) && term in DELIMITERS
    requires term == "\r" && following != "" ==> following[0] != '\n'
    ensures PieceAt(m, c, line, term) && m[c + |line| + |term|..] == following
  {
    var p := c + |line|;
    assert m[c..p] == m[c..][..|line|] && m[p..p + |term|] == m[c..][|line|..|line| + |term|];
    assert m[p + |term|..] == m[c..][|line| + |term|..];
    assert m[p..p + |term|][0] == m[p];
    assert |term| == 2 ==> m[p..p + |term|][1] == m[p + 1];
    assert following != "" ==> m[p + |term|] == following[0];
    FirstBreak(m, c, p);
  }

  lemma NoBreakAhead(m: string, c: nat)
    requires c <= |m| && NoBreaks(m[c..])
    ensures NextBreak(m, c) == |m|
    decreases |m| - c
  {
    if c < |m| {
      assert m[c..] == [m[c]] + m[c + 1..];
      NoBreakAhead(m, c + 1);
    }
  }

  lemma FirstBreak(m: string, c: nat, p: nat)
    requires c <= p < |m| && NoBreaks(m[c..p]) && IsBreak(m[p])
    ensures NextBreak(m, c) == p
    decreases p - c
  {
    if c < p {
      assert m[c..p] == [m[c]] + m[c + 1..p];
      FirstBreak(m, c + 1, p);
    }
  }
}
