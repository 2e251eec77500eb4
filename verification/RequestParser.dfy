/** src/Server/RTSPRequest.cpp: the resumable request parser.  `Parse` says what
    one call of `parse_request` does to the object; the class is the code. */
module RequestParser {
  import opened Text
  import opened RequestScanner

  /** `Complete` is PARSE_COMPLETE, the all-ones value of `cursor`. */
  datatype Cursor = At(pos: nat) | Complete

  datatype Request = Request(verb: string, url: string, version: string, body: string,
                             headers: map<string, string>, cursor: Cursor)

  const FRESH := Request("", "", "", "", map[], At(0))

  datatype ParseError = BadRequestLine | BadHeader | BadContentLength | BodyTooLong

  /** A rejection is an exception; what was stored before it stays stored. */
  datatype Outcome = Accepted(request: Request) | Rejected(request: Request, error: ParseError)

  const UNIQUE_HEADERS: set<string> := {"cseq", "content-length", "session", "timestamp", "content-type"}

  /** Number of values of `size_t`. */
  const SIZE_LIMIT: nat := 0x1_0000_0000_0000_0000

  // ---- header lines ------------------------------------------------------------

  function Colon(line: string): Option<nat> { FindString(line, ": ", 0) }

  predicate IsHeader(line: string) { Colon(line).Some? }

  lemma ColonInside(line: string)
    requires IsHeader(line)
    ensures Colon(line).value + 2 <= |line|
  {
  }

  function Key(line: string): string
    requires IsHeader(line)
  {
    Lower(line[..Colon(line).value])
  }

  function Value(line: string): string
    requires IsHeader(line)
  {
    line[Colon(line).value + 2..]
  }

  function AddHeader(headers: map<string, string>, line: string): map<string, string>
    requires IsHeader(line)
  {
    var key := Key(line);
    if key !in headers then headers[key := Value(line)]
    else if key in UNIQUE_HEADERS then headers
    else headers[key := headers[key] + ", " + Value(line)]
  }

  function AddHeaders(request: Request, lines: seq<string>): Outcome
    decreases |lines|
  {
    if lines == [] then Accepted(request)
    else if !IsHeader(lines[0]) then Rejected(request, BadHeader)
    else AddHeaders(request.(headers := AddHeader(request.headers, lines[0])), lines[1..])
  }

  // ---- the request line -----------------------------------------------------------

  function SetRequestLine(request: Request, line: string): Outcome {
    var i := FindChar(line, ' ', 0);
    if i.None? then Rejected(request, BadRequestLine)
    else
      var named := request.(verb := line[..i.value]);
      var j := FindChar(line, ' ', i.value + 1);
      if j.None? then Rejected(named, BadRequestLine)
      else Accepted(named.(url := line[i.value + 1..j.value], version := line[j.value + 1..]))
  }

  /** The first line of the call is taken for the request line. */
  function AddLines(request: Request, lines: seq<string>): Outcome {
    if lines == [] then Accepted(request)
    else
      var first := SetRequestLine(request, lines[0]);
      if first.Rejected? then first else AddHeaders(first.request, lines[1..])
  }

  // ---- one call -------------------------------------------------------------------

  /** The body, once the header section ends at `end`; the sum wraps as `size_t`. */
  function Finish(request: Request, m: string, end: nat): Outcome {
    if "content-length" !in request.headers then Accepted(request.(cursor := Complete))
    else
      var length := FromChars(request.headers["content-length"], SIZE_LIMIT);
      if length.None? then Rejected(request, BadContentLength)
      else if (end + length.value) % SIZE_LIMIT > |m| then Accepted(request.(cursor := At(end)))
      else if end + length.value > |m| then Rejected(request, BodyTooLong)
      else Accepted(request.(body := m[end..end + length.value], cursor := Complete))
  }

  function Parse(request: Request, m: string): Outcome {
    if request.cursor == Complete then Accepted(request)
    else
      var r := Scan(m, request.cursor.pos);
      var read := AddLines(request.(cursor := At(r.cursor)), r.lines);
      if read.Rejected? || r.headerEnd.None? then read
      else Finish(read.request, m, r.headerEnd.value)
  }

  /** The constructor taking a message: one call on a fresh object. */
  function ParseOnce(m: string): Outcome { Parse(FRESH, m) }

  /** The object itself. */
  class RTSPRequest {
    var verb: string
    var url: string
    var version: string
    var body: string
    var headers: map<string, string>
    var cursor: Cursor

    function State(): Request
      reads this
    {
      Request(verb, url, version, body, headers, cursor)
    }

    constructor ()
      ensures State() == FRESH
    {
      verb, url, version, body, headers, cursor := "", "", "", "", map[], At(0);
    }

    predicate Ready()
      reads this
    {
      cursor == Complete
    }

    method AddHeaderLine(line: string) returns (error: Option<ParseError>)
      modifies this`headers
      ensures if IsHeader(line) then error.None? && headers == AddHeader(old(headers), line)
              else error == Some(BadHeader) && headers == old(headers)
    {
      var i := FindString(line, ": ", 0);
      if i.None? { return Some(BadHeader); }
      ColonInside(line);
      var key, value := Lower(line[..i.value]), line[i.value + 2..];
      if key !in headers {
        headers := headers[key := value];
      } else if key !in UNIQUE_HEADERS {
        headers := headers[key := headers[key] + ", "];
        headers := headers[key := headers[key] + value];
      }
      error := None;
    }

    method SetRequestLineParts(line: string) returns (error: Option<ParseError>)
      modifies this`verb, this`url, this`version
      ensures SetRequestLine(old(State()), line) == Result(State(), error)
    {
      var j := FindChar(line, ' ', 0);
      if j.None? { return Some(BadRequestLine); }
      verb := line[..j.value];
      var i := j.value + 1;
      j := FindChar(line, ' ', i);
      if j.None? { return Some(BadRequestLine); }
      url := line[i..j.value];
      version := line[j.value + 1..];
      error := None;
    }

    /** Lines 51-85: split off the complete lines, moving the cursor. */
    method TakeLines(message: string) returns (parts: seq<string>, headerEnd: nat)
      requires cursor.At?
      modifies this`cursor
      ensures var r := Scan(message, old(cursor.pos));
              && parts == r.lines && cursor == At(r.cursor)
              && headerEnd == (if r.headerEnd.Some? then r.headerEnd.value else 0)
              && r.headerEnd != Some(0)
    {
      parts, headerEnd := [], 0;
      while true
        invariant cursor.At?
        invariant Prepend(parts, Scan(message, cursor.pos)) == Scan(message, old(cursor.pos))
        decreases if cursor.pos < |message| then |message| - cursor.pos else 0
      {
        var partEnd, delimiterSize := FindTerminator(message, cursor.pos);
        if delimiterSize == 0 { break; }
        if partEnd == cursor.pos {
          headerEnd := partEnd + delimiterSize;
          break;
        }
        ScanLine(message, cursor.pos);
        PrependAssoc(parts, message[cursor.pos..partEnd], Scan(message, partEnd + delimiterSize));
        parts := parts + [message[cursor.pos..partEnd]];
        cursor := At(partEnd + delimiterSize);
      }
    }

    /** Lines 87-97. */
    method StoreLines(parts: seq<string>) returns (error: Option<ParseError>)
      modifies this`verb, this`url, this`version, this`headers
      ensures AddLines(old(State()), parts) == Result(State(), error)
    {
      error := None;
      for i := 0 to |parts|
        invariant error.None?
        invariant i == 0 ==> State() == old(State())
        invariant i > 0 ==> AddLines(old(State()), parts) == AddHeaders(State(), parts[i..])
      {
        if i == 0 {
          error := SetRequestLineParts(parts[i]);
        } else {
          assert parts[i..][1..] == parts[i + 1..];
          error := AddHeaderLine(parts[i]);
        }
        if error.Some? { return; }
      }
    }

    /** Lines 99-120. */
    method TakeBody(message: string, headerEnd: nat) returns (error: Option<ParseError>)
      modifies this`body, this`cursor
      ensures Finish(old(State()), message, headerEnd) == Result(State(), error)
    {
      if "content-length" in headers {
        var length := FromChars(headers["content-length"], SIZE_LIMIT);
        if length.None? { return Some(BadContentLength); }
        if (headerEnd + length.value) % SIZE_LIMIT > |message| {
          cursor := At(headerEnd);
          return None;
        }
        if headerEnd + length.value > |message| { return Some(BodyTooLong); }
        body := message[headerEnd..headerEnd + length.value];
      }
      cursor := Complete;
      error := None;
    }

    method ParseRequest(message: string) returns (error: Option<ParseError>)
      modifies this
      ensures Parse(old(State()), message) == Result(State(), error)
    {
      if Ready() { return None; }
      var parts, headerEnd := TakeLines(message);
      error := StoreLines(parts);
      if error.None? && headerEnd != 0 {
        error := TakeBody(message, headerEnd);
      }
    }
  }

  function Result(request: Request, error: Option<ParseError>): Outcome {
    if error.None? then Accepted(request) else Rejected(request, error.value)
  }

  lemma PrependAssoc(parts: seq<string>, line: string, r: ScanResult)
    ensures Prepend(parts, Prepend([line], r)) == Prepend(parts + [line], r)
  {
    assert parts + ([line] + r.lines) == parts + [line] + r.lines;
  }
}
