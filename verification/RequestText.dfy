/** What one call of the parser reads from a message, in the words of the request
    itself: the names of the special headers are written out here. */
module RequestText {
  import opened Text
  import opened RequestScanner
  import opened RequestChunks
  import opened RequestParser
  import opened RequestHeaders

  // ---- the request line -----------------------------------------------------------------

  /** Three parts; with fewer of them those in front of the exception stay set. */
  lemma RequestLineParts(q: Request, verb: string, url: string, version: string)
    requires Without(verb, ' ') && Without(url, ' ')
    ensures SetRequestLine(q, verb) == Rejected(q, BadRequestLine)
    ensures SetRequestLine(q, verb + " " + url) == Rejected(q.(verb := verb), BadRequestLine)
    ensures SetRequestLine(q, verb + " " + (url + " " + version))
         == Accepted(q.(verb := verb, url := url, version := version))
  {
    OnePart(q, verb);
    TwoParts(q, verb, url);
    ThreeParts(q, verb, url, version);
  }

  lemma OnePart(q: Request, verb: string)
    requires Without(verb, ' ')
    ensures SetRequestLine(q, verb) == Rejected(q, BadRequestLine)
  {
    assert verb[0..] == verb;
    FindCharNone(verb, ' ', 0);
  }

  /** Behind the first space. */
  lemma AfterSpace(verb: string, rest: string)
    requires Without(verb, ' ')
    ensures var line := verb + " " + rest;
            FindChar(line, ' ', 0) == Some(|verb|) && line[..|verb|] == verb && line[|verb| + 1..] == rest
  {
    var line := verb + " " + rest;
    assert line[0..|verb|] == verb;
    FindCharIs(line, ' ', 0, |verb|);
  }

  lemma TwoParts(q: Request, verb: string, url: string)
    requires Without(verb, ' ') && Without(url, ' ')
    ensures SetRequestLine(q, verb + " " + url) == Rejected(q.(verb := verb), BadRequestLine)
  {
    AfterSpace(verb, url);
    FindCharNone(verb + " " + url, ' ', |verb| + 1);
  }

  lemma ThreeParts(q: Request, verb: string, url: string, version: string)
    requires Without(verb, ' ') && Without(url, ' ')
    ensures SetRequestLine(q, verb + " " + (url + " " + version))
         == Accepted(q.(verb := verb, url := url, version := version))
  {
    var rest := url + " " + version;
    var line, j := verb + " " + rest, |verb| + 1 + |url|;
    AfterSpace(verb, rest);
    assert line[|verb| + 1..j] == rest[..|url|] == url && line[j] == rest[|url|] == ' ';
    FindCharIs(line, ' ', |verb| + 1, j);
    assert line[j + 1..] == rest[|url| + 1..] == version;
  }

  // ---- the headers ------------------------------------------------------------------------

  /** Five headers keep their first value; of any other all values are joined. */
  lemma StoredHeaders(lines: seq<string>, key: string)
    requires AllHeaders(lines)
    ensures key in Fold(map[], lines) <==> Values(lines, key) != []
    ensures Values(lines, key) != [] ==>
              Fold(map[], lines)[key] ==
              if key == "cseq" || key == "content-length" || key == "session" || key == "timestamp"
                 || key == "content-type"
              then Values(lines, key)[0] else Join(Values(lines, key), ", ")
  {
    FoldIsAt(lines, key);
  }

  /** A line gives the value behind its first ": " to the lowercased name in front. */
  lemma HeaderGiven(name: string, value: string)
    requires FindString(name, ": ", 0).None?
    ensures var line := name + ": " + value;
            IsHeader(line) && Key(line) == Lower(name) && Value(line) == value
  {
    var line := name + ": " + value;
    assert line[|name|..|name| + 2] == ": " && StartsAt(line, |name|, ": ");
    NotEarlier(name, value, Colon(line).value);
    assert line[..|name|] == name && line[|name| + 2..] == value;
  }

  lemma ColonSpaceAt(s: string, i: nat)
    ensures StartsAt(s, i, ": ") <==> i + 1 < |s| && s[i] == ':' && s[i + 1] == ' '
  {
    assert i + 2 <= |s| ==> s[i..i + 2] == [s[i], s[i + 1]];
  }

  lemma NotEarlier(name: string, value: string, i: nat)
    requires FindString(name, ": ", 0).None?
    ensures i < |name| ==> !StartsAt(name + ": " + value, i, ": ")
  {
    var line := name + ": " + value;
    ColonSpaceAt(line, i);
    ColonSpaceAt(name, i);
    if i < |name| {
      assert line[i] == name[i] && line[i + 1] == if i + 1 < |name| then name[i + 1] else ':';
      assert !StartsAt(name, i, ": ");
    }
  }

  /** The first of the values given for a key is that of the first line naming it. */
  lemma {:induction false} FirstGiven(lines: seq<string>, i: nat)
    requires AllHeaders(lines) && i < |lines|
    requires forall j :: 0 <= j < i ==> Key(lines[j]) != Key(lines[i])
    ensures Values(lines, Key(lines[i])) != [] && Values(lines, Key(lines[i]))[0] == Value(lines[i])
    decreases i
  {
    if i > 0 { FirstGiven(lines[1..], i - 1); }
  }

  lemma {:induction false} StopsAtBad(q: Request, good: seq<string>, bad: string, more: seq<string>)
    requires AllHeaders(good) && !IsHeader(bad)
    ensures AddHeaders(q, good + ([bad] + more)) == Rejected(q.(headers := Fold(q.headers, good)), BadHeader)
    decreases |good|
  {
    var lines := good + ([bad] + more);
    if good != [] {
      assert lines[0] == good[0] && lines[1..] == good[1..] + ([bad] + more);
      StopsAtBad(q.(headers := AddHeader(q.headers, good[0])), good[1..], bad, more);
    } else {
      assert lines[0] == bad;
    }
  }

  // ---- one call -----------------------------------------------------------------------------

  /** The lines of the message are these, and its header section ends at `end`. */
  predicate Lined(m: string, first: string, lines: seq<string>, end: nat) {
    Scan(m, 0).lines == [first] + lines && Scan(m, 0).headerEnd == Some(end)
  }

  /** What the headers of a message leave to read, all else being stored. */
  lemma HeadStored(m: string, verb: string, url: string, version: string, lines: seq<string>, end: nat)
    returns (q: Request)
    requires Lined(m, verb + " " + (url + " " + version), lines, end)
    requires Without(verb, ' ') && Without(url, ' ') && AllHeaders(lines)
    ensures q == Request(verb, url, version, "", Fold(map[], lines), At(Scan(m, 0).cursor))
    ensures ParseOnce(m) == Finish(q, m, end) && end <= |m|
  {
    var unread := FRESH.(cursor := At(Scan(m, 0).cursor));
    var named := unread.(verb := verb, url := url, version := version);
    ThreeParts(unread, verb, url, version);
    AddHeadersIs(named, lines);
    assert Scan(m, 0).lines[1..] == lines;
    q := named.(headers := Fold(map[], lines));
    HeaderEndIsLater(m, 0);
  }

  /** Without a Content-Length the request ends with its header section. */
  lemma NoBody(m: string, verb: string, url: string, version: string, lines: seq<string>, end: nat)
    requires Lined(m, verb + " " + (url + " " + version), lines, end)
    requires Without(verb, ' ') && Without(url, ' ') && AllHeaders(lines)
    requires Values(lines, "content-length") == []
    ensures ParseOnce(m) == Accepted(Request(verb, url, version, "", Fold(map[], lines), Complete))
  {
    var q := HeadStored(m, verb, url, version, lines, end);
    FoldIsAt(lines, "content-length");
  }

  /** The first Content-Length decides: the call waits while fewer bytes than it
      says follow the blank line, and then the body is exactly those bytes.  A
      value that is no number, or one whose sum with the header section wraps
      round into the message, is an exception. */
  lemma BodyIsDeclared(m: string, verb: string, url: string, version: string, lines: seq<string>, end: nat)
    requires Lined(m, verb + " " + (url + " " + version), lines, end) && |m| < 0x1_0000_0000_0000_0000
    requires Without(verb, ' ') && Without(url, ' ') && AllHeaders(lines)
    requires Values(lines, "content-length") != []
    ensures var length := FromChars(Values(lines, "content-length")[0], 0x1_0000_0000_0000_0000);
            var q := Request(verb, url, version, "", Fold(map[], lines), At(Scan(m, 0).cursor));
            ParseOnce(m) ==
            if length.None? then Rejected(q, BadContentLength)
            else if length.value <= |m| - end then
              Accepted(q.(body := m[end..end + length.value], cursor := Complete))
            else if 0x1_0000_0000_0000_0000 <= end + length.value <= |m| + 0x1_0000_0000_0000_0000 then
              Rejected(q, BodyTooLong)
            else Accepted(q.(cursor := At(end)))
  {
    var q := HeadStored(m, verb, url, version, lines, end);
    FoldIsAt(lines, "content-length");
    ByLength(q, m, end, FromChars(Values(lines, "content-length")[0], 0x1_0000_0000_0000_0000));
  }

  lemma ByLength(q: Request, m: string, end: nat, length: Option<nat>)
    requires end <= |m| < 0x1_0000_0000_0000_0000 && "content-length" in q.headers && q.cursor.At?
    requires length == FromChars(q.headers["content-length"], 0x1_0000_0000_0000_0000)
    ensures Finish(q, m, end) ==
            if length.None? then Rejected(q, BadContentLength)
            else if length.value <= |m| - end then
              Accepted(q.(body := m[end..end + length.value], cursor := Complete))
            else if 0x1_0000_0000_0000_0000 <= end + length.value <= |m| + 0x1_0000_0000_0000_0000 then
              Rejected(q, BodyTooLong)
            else Accepted(q.(cursor := At(end)))
  {
    if length.Some? { Wrapped(end, length.value, |m|); }
  }

  lemma Wrapped(end: nat, length: nat, size: nat)
    requires end <= size < 0x1_0000_0000_0000_0000 && length < 0x1_0000_0000_0000_0000
    ensures SIZE_LIMIT == 0x1_0000_0000_0000_0000
    ensures (end + length) % SIZE_LIMIT ==
            if end + length < 0x1_0000_0000_0000_0000 then end + length else end + length - 0x1_0000_0000_0000_0000
  {
  }

  /** A line without ": " is an exception behind the lines in front of it, which
      stay stored; the cursor stays behind the lines. */
  lemma ThrowKeeps(m: string, verb: string, url: string, version: string, good: seq<string>, bad: string,
                   more: seq<string>)
    requires Scan(m, 0).lines == [verb + " " + (url + " " + version)] + (good + ([bad] + more))
    requires Without(verb, ' ') && Without(url, ' ') && AllHeaders(good) && !IsHeader(bad)
    ensures ParseOnce(m) ==
            Rejected(Request(verb, url, version, "", Fold(map[], good), At(Scan(m, 0).cursor)), BadHeader)
  {
    var unread := FRESH.(cursor := At(Scan(m, 0).cursor));
    var named := unread.(verb := verb, url := url, version := version);
    ThreeParts(unread, verb, url, version);
    assert Scan(m, 0).lines[1..] == good + ([bad] + more);
    StopsAtBad(named, good, bad, more);
  }
}
