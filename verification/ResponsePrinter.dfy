/** src/Server/RTSPResponse.cpp: the printer, and its inversion by the parser. */
module ResponsePrinter {
  import opened Text
  import opened RequestScanner
  import opened RequestParser
  import opened RequestHeaders
  import opened RequestProperties
  import opened RequestText

  datatype StatusCode = OK | NotFound | NotAcceptable
                      | AggregateOperationNotAllowed | OnlyAggregateOperationAllowed

  /** The status texts; the other codes throw. */
  function StatusString(code: StatusCode): Option<string> {
    match code
    case OK => Some("200 OK")
    case NotFound => Some("404 Not Found")
    case NotAcceptable => Some("406 Not Acceptable")
    case _ => None
  }

  function HeaderLine(key: string, value: string): string { key + ": " + value }

  /** One line for each key, in the order the map is enumerated. */
  function HeaderText(order: seq<string>, headers: map<string, string>): string
    requires forall k <- order :: k in headers
  {
    if order == [] then ""
    else HeaderLine(order[0], headers[order[0]]) + "\n" + HeaderText(order[1..], headers)
  }

  function Print(status: string, order: seq<string>, headers: map<string, string>, body: string): string
    requires forall k <- order :: k in headers
  {
    "RTSP/1.0 " + status + "\n" + HeaderText(order, headers) + "\n" + body
  }

  /** `order` lists every key of the map once. */
  predicate Enumerates(order: seq<string>, headers: map<string, string>) {
    && (forall k <- order :: k in headers)
    && (forall k <- headers :: k in order)
    && (forall i, j :: 0 <= i < j < |order| ==> order[i] != order[j])
  }

  class RTSPResponse {
    var body: string
    var buffer: string
    var status: string
    var headers: map<string, string>

    constructor ()
      ensures body == buffer == status == "" && headers == map[]
    {
      body, buffer, status, headers := "", "", "", map[];
    }

    method SetStatus(code: StatusCode) returns (ok: bool)
      modifies this`status
      ensures ok <==> code == OK || code == NotFound || code == NotAcceptable
      ensures status == match code
                        case OK => "200 OK"
                        case NotFound => "404 Not Found"
                        case NotAcceptable => "406 Not Acceptable"
                        case _ => old(status)
    {
      var s := StatusString(code);
      ok := s.Some?;
      if ok { status := s.value; }
    }

    method SetHeader(key: string, value: string)
      modifies this`headers
      ensures headers == old(headers)[key := value]
    {
      headers := headers[key := value];
    }

    method AppendHeader(key: string, value: string)
      modifies this`headers
      ensures headers == old(headers)[key := if key in old(headers) then old(headers)[key] + "," + value else value]
    {
      if key !in headers {
        SetHeader(key, value);
      } else {
        SetHeader(key, headers[key] + "," + value);
      }
    }

    /** The enumeration order of the unordered map is the map's choice. */
    method Marshal() returns (ghost order: seq<string>)
      modifies this`buffer
      ensures Enumerates(order, headers)
      ensures buffer == "RTSP/1.0 " + status + "\n" + HeaderText(order, headers) + "\n" + body
      ensures buffer == Print(status, order, headers, body)
    {
      buffer := "RTSP/1.0 ";
      buffer := buffer + status;
      buffer := buffer + "\n";
      ghost var head := buffer;
      var rest := headers.Keys;
      order := [];
      while rest != {}
        invariant rest <= headers.Keys
        invariant forall k <- order :: k in headers && k !in rest
        invariant forall k <- headers :: k in order || k in rest
        invariant forall i, j :: 0 <= i < j < |order| ==> order[i] != order[j]
        invariant buffer == head + HeaderText(order, headers)
        decreases rest
      {
        var key :| key in rest;
        TextSnoc(order, key, headers);
        buffer := buffer + (key + ": " + headers[key]);
        buffer := buffer + "\n";
        rest := rest - {key};
        order := order + [key];
      }
      buffer := buffer + "\n";
      buffer := buffer + body;
    }
  }

  lemma {:induction false} TextSnoc(order: seq<string>, key: string, headers: map<string, string>)
    requires (forall k <- order :: k in headers) && key in headers
    ensures HeaderText(order + [key], headers) == HeaderText(order, headers) + HeaderLine(key, headers[key]) + "\n"
  {
    if order != [] {
      TextSnoc(order[1..], key, headers);
      assert (order + [key])[1..] == order[1..] + [key];
    } else {
      assert ([key])[1..] == [];
    }
  }

  // ---- reading it back -----------------------------------------------------------------

  function HeaderLines(order: seq<string>, headers: map<string, string>): (lines: seq<string>)
    requires forall k <- order :: k in headers
  {
    if order == [] then [] else [HeaderLine(order[0], headers[order[0]])] + HeaderLines(order[1..], headers)
  }

  function HeaderPieces(order: seq<string>, headers: map<string, string>): seq<Piece>
    requires forall k <- order :: k in headers
  {
    if order == [] then []
    else [Piece(HeaderLine(order[0], headers[order[0]]), "\n")] + HeaderPieces(order[1..], headers)
  }

  /** Keys without ": ", one-line keys and values, keys distinct up to case. */
  ghost predicate Printable(headers: map<string, string>) {
    && (forall k <- headers :: FindString(k, ": ", 0).None? && NoBreaks(k) && NoBreaks(headers[k]))
    && (forall k, l :: k in headers && l in headers && Lower(k) == Lower(l) ==> k == l)
  }

  lemma LineBack(key: string, value: string)
    requires FindString(key, ": ", 0).None? && NoBreaks(key) && NoBreaks(value)
    ensures var line := HeaderLine(key, value);
            line != "" && NoBreaks(line) && IsHeader(line) && Key(line) == Lower(key) && Value(line) == value
  {
    HeaderGiven(key, value);
  }

  lemma {:induction false} PiecesBack(order: seq<string>, headers: map<string, string>, tail: string)
    requires (forall k <- order :: k in headers) && Printable(headers)
    requires tail != "" && tail[0] == '\n'
    ensures Flatten(HeaderPieces(order, headers)) == HeaderText(order, headers)
    ensures Lines(HeaderPieces(order, headers)) == HeaderLines(order, headers)
    ensures Decomposition(HeaderPieces(order, headers), tail)
    decreases |order|
  {
    if order != [] {
      LineBack(order[0], headers[order[0]]);
      PiecesBack(order[1..], headers, tail);
      var rest := HeaderPieces(order[1..], headers);
      assert HeaderPieces(order, headers)[1..] == rest;
    }
  }

  lemma {:induction false} ValuesBack(order: seq<string>, headers: map<string, string>, key: string)
    requires (forall k <- order :: k in headers) && Printable(headers)
    requires forall i, j :: 0 <= i < j < |order| ==> order[i] != order[j]
    ensures AllHeaders(HeaderLines(order, headers))
    ensures var values := Values(HeaderLines(order, headers), key);
            && (values == [] || exists k <- order :: Lower(k) == key && values == [headers[k]])
            && (forall k <- order :: Lower(k) == key ==> values == [headers[k]])
    decreases |order|
  {
    if order != [] {
      var k0, lines := order[0], HeaderLines(order, headers);
      LineBack(k0, headers[k0]);
      ValuesBack(order[1..], headers, key);
      assert lines[1..] == HeaderLines(order[1..], headers) && lines == [lines[0]] + lines[1..];
      assert AllHeaders(lines);
      assert order == [k0] + order[1..];
      if Lower(k0) == key {
        assert forall k <- order[1..] :: Lower(k) != key;
        assert Values(lines, key) == [headers[k0]] + [];
      } else {
        assert Values(lines, key) == [] + Values(lines[1..], key);
      }
    }
  }

  /** The header map of the parser is the printed one, with lowercase keys. */
  predicate HeadersBack(parsed: map<string, string>, headers: map<string, string>) {
    && (forall k <- headers :: Lower(k) in parsed && parsed[Lower(k)] == headers[k])
    && (forall l <- parsed :: exists k <- headers :: Lower(k) == l)
  }

  lemma FoldBack(order: seq<string>, headers: map<string, string>)
    requires Enumerates(order, headers) && Printable(headers)
    ensures AllHeaders(HeaderLines(order, headers))
    ensures HeadersBack(Fold(map[], HeaderLines(order, headers)), headers)
  {
    var lines := HeaderLines(order, headers);
    ValuesBack(order, headers, "");
    var parsed := Fold(map[], lines);
    forall k | k in headers ensures Lower(k) in parsed && parsed[Lower(k)] == headers[k] {
      ValuesBack(order, headers, Lower(k));
      FoldValue(map[], lines, Lower(k));
      assert [] + Values(lines, Lower(k)) == [headers[k]];
    }
    forall l | l in parsed ensures exists k <- headers :: Lower(k) == l {
      ValuesBack(order, headers, l);
      FoldValue(map[], lines, l);
    }
  }

  /** The printed Content-Length is the body's length, or there is neither. */
  predicate LengthDeclared(headers: map<string, string>, body: string) {
    && (forall k <- headers :: Lower(k) == "content-length" ==> FromChars(headers[k], SIZE_LIMIT) == Some(|body|))
    && ((forall k <- headers :: Lower(k) != "content-length") ==> body == "")
  }

  /** What reading a printed response back gives. */
  predicate Recovered(o: Outcome, code: string, reason: string, headers: map<string, string>, body: string) {
    && o.Accepted? && o.request.cursor == Complete
    && o.request.verb == "RTSP/1.0" && o.request.url == code && o.request.version == reason
    && HeadersBack(o.request.headers, headers)
    && o.request.body == body
  }

  lemma StatusLine(q: Request, code: string, reason: string)
    requires Without(code, ' ')
    ensures SetRequestLine(q, "RTSP/1.0 " + (code + " " + reason)) ==
            Accepted(q.(verb := "RTSP/1.0", url := code, version := reason))
  {
    var line := "RTSP/1.0 " + (code + " " + reason);
    assert line[0..8] == "RTSP/1.0" && line[8] == ' ';
    FindCharIs(line, ' ', 0, 8);
    assert line[9..9 + |code|] == code && line[9 + |code|] == ' ';
    FindCharIs(line, ' ', 9, 9 + |code|);
    assert line[..8] == "RTSP/1.0" && line[9 + |code| + 1..] == reason;
  }

  lemma ScanBlank(m: string, pieces: seq<Piece>, rest: string)
    requires m == Flatten(pieces) + ("\n" + rest) && Decomposition(pieces, "\n" + rest)
    ensures Scan(m, 0).lines == Lines(pieces) && Scan(m, 0).headerEnd == Some(|m| - |rest|)
  {
    assert m[0..] == m;
    ScanUnique(m, 0, pieces, "\n" + rest);
    BlankAt(m, Flatten(pieces), rest);
    ScanStops(m, 0);
  }

  lemma BlankAt(m: string, before: string, rest: string)
    requires m == before + ("\n" + rest)
    ensures |m| == |before| + 1 + |rest| && m[|before|] == '\n' && TermLen(m, |before|) == 1
    ensures m[|before| + 1..] == rest
  {
  }

  /** The scanner's view of a printed response followed by anything. */
  lemma PrintedScan(status: string, order: seq<string>, headers: map<string, string>, rest: string)
    requires NoBreaks(status) && Enumerates(order, headers) && Printable(headers)
    ensures var m := Print(status, order, headers, rest);
            && Scan(m, 0).lines == ["RTSP/1.0 " + status] + HeaderLines(order, headers)
            && Scan(m, 0).headerEnd == Some(|m| - |rest|)
            && m[|m| - |rest|..] == rest
  {
    var first, more := Piece("RTSP/1.0 " + status, "\n"), HeaderPieces(order, headers);
    PiecesBack(order, headers, "\n" + rest);
    var pieces := [first] + more;
    assert pieces[1..] == more;
    var m := Print(status, order, headers, rest);
    assert Flatten(pieces) == "RTSP/1.0 " + status + "\n" + HeaderText(order, headers);
    assert m == Flatten(pieces) + ("\n" + rest);
    ScanBlank(m, pieces, rest);
    BlankAt(m, Flatten(pieces), rest);
  }

  /** What the lines of a printed response store. */
  lemma PrintedLines(q: Request, code: string, reason: string, order: seq<string>, headers: map<string, string>)
    requires Without(code, ' ') && q.headers == map[]
    requires Enumerates(order, headers) && Printable(headers)
    ensures var lines := ["RTSP/1.0 " + (code + " " + reason)] + HeaderLines(order, headers);
            var read := AddLines(q, lines);
            && read.Accepted? && HeadersBack(read.request.headers, headers)
            && read.request == q.(verb := "RTSP/1.0", url := code, version := reason, headers := read.request.headers)
  {
    StatusLine(q, code, reason);
    FoldBack(order, headers);
    var lines := HeaderLines(order, headers);
    assert (["RTSP/1.0 " + (code + " " + reason)] + lines)[1..] == lines;
    AddHeadersIs(q.(verb := "RTSP/1.0", url := code, version := reason), lines);
  }

  /** Printing and parsing a response with a status gives it back, whatever the
      enumeration order and whatever follows, exactly when its Content-Length
      header is the length of its body. */
  lemma PrintParse(code: string, reason: string, order: seq<string>, headers: map<string, string>,
                   body: string, trailing: string)
    requires Without(code, ' ') && NoBreaks(code) && NoBreaks(reason)
    requires Enumerates(order, headers) && Printable(headers)
    requires |Print(code + " " + reason, order, headers, body) + trailing| < SIZE_LIMIT
    ensures Recovered(ParseOnce(Print(code + " " + reason, order, headers, body) + trailing),
                      code, reason, headers, body)
       <==> LengthDeclared(headers, body)
  {
    PrintBehind(code + " " + reason, order, headers, body, trailing);
    PrintedScan(code + " " + reason, order, headers, body + trailing);
    PrintedParse(Print(code + " " + reason, order, headers, body + trailing),
                 code, reason, order, headers, body, trailing);
  }

  lemma PrintBehind(status: string, order: seq<string>, headers: map<string, string>, body: string, trailing: string)
    requires forall k <- order :: k in headers
    ensures Print(status, order, headers, body) + trailing == Print(status, order, headers, body + trailing)
    ensures |body + trailing| <= |Print(status, order, headers, body + trailing)|
  {
  }

  /** What a call has in hand when it comes to the body. */
  ghost predicate HeadRead(read: Request, code: string, reason: string, headers: map<string, string>) {
    && read.verb == "RTSP/1.0" && read.url == code && read.version == reason
    && HeadersBack(read.headers, headers) && read.body == "" && read.cursor.At?
  }

  lemma HeadOfPrinted(m: string, code: string, reason: string, order: seq<string>, headers: map<string, string>, h: nat)
    returns (read: Request)
    requires Without(code, ' ') && Enumerates(order, headers) && Printable(headers)
    requires Scan(m, 0).lines == ["RTSP/1.0 " + (code + " " + reason)] + HeaderLines(order, headers)
    requires Scan(m, 0).headerEnd == Some(h)
    ensures HeadRead(read, code, reason, headers) && ParseOnce(m) == Finish(read, m, h)
  {
    var q := FRESH.(cursor := At(Scan(m, 0).cursor));
    PrintedLines(q, code, reason, order, headers);
    read := AddLines(q, Scan(m, 0).lines).request;
    Unfold(m, read, h);
  }

  lemma PrintedParse(m: string, code: string, reason: string, order: seq<string>, headers: map<string, string>,
                     body: string, trailing: string)
    requires Without(code, ' ') && Enumerates(order, headers) && Printable(headers)
    requires Scan(m, 0).lines == ["RTSP/1.0 " + (code + " " + reason)] + HeaderLines(order, headers)
    requires |body + trailing| <= |m| < SIZE_LIMIT && m[|m| - |body + trailing|..] == body + trailing
    requires Scan(m, 0).headerEnd == Some(|m| - |body + trailing|)
    ensures Recovered(ParseOnce(m), code, reason, headers, body) <==> LengthDeclared(headers, body)
  {
    var read := HeadOfPrinted(m, code, reason, order, headers, |m| - |body + trailing|);
    ReadBack(ParseOnce(m), read, m, code, reason, headers, body, trailing);
  }

  lemma ReadBack(o: Outcome, read: Request, m: string, code: string, reason: string, headers: map<string, string>,
                 body: string, trailing: string)
    requires |body + trailing| <= |m| < SIZE_LIMIT && m[|m| - |body + trailing|..] == body + trailing
    requires o == Finish(read, m, |m| - |body + trailing|)
    requires HeadRead(read, code, reason, headers)
    ensures Recovered(o, code, reason, headers, body) <==> LengthDeclared(headers, body)
  {
    BodyBack(read, m, headers, body, trailing);
  }

  lemma Unfold(m: string, read: Request, h: nat)
    requires Scan(m, 0).headerEnd == Some(h)
    requires AddLines(FRESH.(cursor := At(Scan(m, 0).cursor)), Scan(m, 0).lines) == Accepted(read)
    ensures ParseOnce(m) == Finish(read, m, h)
  {
  }

  lemma BodyBack(read: Request, m: string, headers: map<string, string>, body: string, trailing: string)
    requires HeadersBack(read.headers, headers) && read.body == "" && read.cursor.At?
    requires |body + trailing| <= |m| < SIZE_LIMIT && m[|m| - |body + trailing|..] == body + trailing
    ensures var o := Finish(read, m, |m| - |body + trailing|);
            (o.Accepted? && o.request.cursor == Complete && o.request.body == body) <==> LengthDeclared(headers, body)
    ensures var o := Finish(read, m, |m| - |body + trailing|).request;
            o.verb == read.verb && o.url == read.url && o.version == read.version && o.headers == read.headers
  {
    var h := |m| - |body + trailing|;
    if "content-length" in read.headers {
      var k :| k in headers && Lower(k) == "content-length";
      assert forall l <- headers :: Lower(l) == "content-length" ==> headers[l] == read.headers["content-length"];
      assert m[h..h + |body|] == m[h..][..|body|] == body;
    }
  }

  lemma DeclaredLength(read: Request, headers: map<string, string>, body: string)
    requires HeadersBack(read.headers, headers) && LengthDeclared(headers, body) && body != ""
    ensures "content-length" in read.headers && FromChars(read.headers["content-length"], SIZE_LIMIT) == Some(|body|)
  {
    var k :| k in headers && Lower(k) == "content-length";
  }

  lemma WaitsForRest(read: Request, b: string, h: nat, length: nat)
    requires "content-length" in read.headers && FromChars(read.headers["content-length"], SIZE_LIMIT) == Some(length)
    requires |b| < h + length < SIZE_LIMIT
    ensures !Finished(Finish(read, b, h))
  {
  }

  lemma StillWaiting(b: string, code: string, reason: string, order: seq<string>, headers: map<string, string>,
                     h: nat, body: string)
    requires Without(code, ' ') && Enumerates(order, headers) && Printable(headers)
    requires LengthDeclared(headers, body) && body != ""
    requires Scan(b, 0).lines == ["RTSP/1.0 " + (code + " " + reason)] + HeaderLines(order, headers)
    requires Scan(b, 0).headerEnd == Some(h) && |b| < h + |body| < SIZE_LIMIT
    ensures !Finished(ParseOnce(b))
  {
    var read := HeadOfPrinted(b, code, reason, order, headers, h);
    DeclaredLength(read, headers, body);
    WaitsForRest(read, b, h, |body|);
  }

  /** A printed message, its body taken off. */
  function Head(status: string, order: seq<string>, headers: map<string, string>): string
    requires forall k <- order :: k in headers
  {
    Print(status, order, headers, "")
  }

  /** How the scanner sees `head` with anything behind it. */
  predicate HeadScanned(head: string, status: string, order: seq<string>, headers: map<string, string>, body: string)
    requires forall k <- order :: k in headers
  {
    && Scan(head + body, 0).lines == ["RTSP/1.0 " + status] + HeaderLines(order, headers)
    && Scan(head + body, 0).headerEnd == Some(|head|)
  }

  lemma ScanHead(status: string, order: seq<string>, headers: map<string, string>, body: string)
    requires NoBreaks(status) && Enumerates(order, headers) && Printable(headers)
    ensures HeadScanned(Head(status, order, headers), status, order, headers, body)
  {
    PrintBehind(status, order, headers, "", body);
    assert "" + body == body;
    PrintedScan(status, order, headers, body);
  }

  lemma OneRead(code: string, reason: string, order: seq<string>, headers: map<string, string>, body: string)
    requires Without(code, ' ') && NoBreaks(code) && NoBreaks(reason)
    requires Enumerates(order, headers) && Printable(headers) && LengthDeclared(headers, body)
    requires |Head(code + " " + reason, order, headers) + body| < SIZE_LIMIT
    ensures Recovered(ParseOnce(Head(code + " " + reason, order, headers) + body), code, reason, headers, body)
  {
    PrintBehind(code + " " + reason, order, headers, "", body);
    assert "" + body == body;
    var m := Print(code + " " + reason, order, headers, body);
    assert m + "" == m;
    PrintParse(code, reason, order, headers, body, "");
  }

  lemma TwoReads(head: string, code: string, reason: string, order: seq<string>, headers: map<string, string>,
                 part: string, body: string)
    requires Without(code, ' ') && Enumerates(order, headers) && Printable(headers) && LengthDeclared(headers, body)
    requires HeadScanned(head, code + " " + reason, order, headers, part)
    requires part < body && NoBreaks(body) && |head + body| < SIZE_LIMIT
    ensures var o := ParseRun(FRESH, [head + part, head + body]); o.Accepted? && o.request.cursor == At(|head|)
  {
    var b, m := head + part, head + body;
    StillWaiting(b, code, reason, order, headers, |head|, body);
    assert m[|head|..] == body;
    assert [b] + [m] == [b, m] && [b, m][1..] == [m];
    CutBodyStarves(b, [m]);
  }

  /** A complete message with a one-line body whose bytes do not all come with
      the header section is never ready: the second call stops at the header end
      again, while one call on the same bytes reads it all. */
  lemma BodyInTwoReads(code: string, reason: string, order: seq<string>, headers: map<string, string>,
                       part: string, body: string)
    requires Without(code, ' ') && NoBreaks(code) && NoBreaks(reason)
    requires Enumerates(order, headers) && Printable(headers) && LengthDeclared(headers, body)
    requires part < body && NoBreaks(body) && |Head(code + " " + reason, order, headers) + body| < SIZE_LIMIT
    ensures var head := Head(code + " " + reason, order, headers);
            && Recovered(ParseOnce(head + body), code, reason, headers, body)
            && ParseRun(FRESH, [head + part, head + body]).Accepted?
            && ParseRun(FRESH, [head + part, head + body]).request.cursor == At(|head|)
  {
    OneRead(code, reason, order, headers, body);
    ScanHead(code + " " + reason, order, headers, part);
    TwoReads(Head(code + " " + reason, order, headers), code, reason, order, headers, part, body);
  }

  /** A response whose status was never set does not read back: its first line
      has no third part.  TEARDOWN answers with one. */
  lemma UnsetStatus(order: seq<string>, headers: map<string, string>, body: string)
    requires Enumerates(order, headers) && Printable(headers)
    ensures ParseOnce(Print("", order, headers, body)).Rejected?
  {
    PrintedScan("", order, headers, body);
    var line := "RTSP/1.0 " + "";
    assert line[0..8] == "RTSP/1.0" && line[9..] == "";
    FindCharIs(line, ' ', 0, 8);
    FindCharNone(line, ' ', 9);
  }

  /** `int_to_string` pads the digits with NULs to 20 bytes; the length is still
      declared. */
  lemma PaddedLength(n: nat, padding: string)
    requires n < SIZE_LIMIT && forall i :: 0 <= i < |padding| ==> padding[i] == '\0'
    ensures FromChars(Decimal(n) + padding, SIZE_LIMIT) == Some(n)
  {
    FromCharsDecimal(n, padding, SIZE_LIMIT);
  }
}
