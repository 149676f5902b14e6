/** The incremental HTTP response parser: `httpparser::Response`, `HttpResponseParser` and the pure step
    function its byte loop refines. */
module HttpParser {
  import opened Text

  datatype State =
    | ResponseStatusStart
    | ResponseHttpVersion_ht
    | ResponseHttpVersion_htt
    | ResponseHttpVersion_http
    | ResponseHttpVersion_slash
    | ResponseHttpVersion_majorStart
    | ResponseHttpVersion_major
    | ResponseHttpVersion_minorStart
    | ResponseHttpVersion_minor
    | ResponseHttpVersion_statusCodeStart
    | ResponseHttpVersion_statusCode
    | ResponseHttpVersion_statusTextStart
    | ResponseHttpVersion_statusText
    | ResponseHttpVersion_newLine
    | HeaderLineStart
    | HeaderLws
    | HeaderName
    | SpaceBeforeHeaderValue
    | HeaderValue
    | ExpectingNewline_2
    | ExpectingNewline_3
    | Post
    | ChunkSize
    | ChunkExtensionName
    | ChunkExtensionValue
    | ChunkSizeNewLine
    | ChunkSizeNewLine_2
    | ChunkSizeNewLine_3
    | ChunkTrailerName
    | ChunkTrailerValue
    | ChunkDataNewLine_1
    | ChunkDataNewLine_2
    | ChunkData

  /** The results of `parse`, and the exception `std::length_error` that `std::vector::reserve` throws when it is
      asked for more than `max_size()` bytes. */
  datatype ParseResult = ParsingCompleted | ParsingIncompleted | ParsingError | LengthError

  datatype HeaderItem = HeaderItem(name: string, value: string)

  /** `std::vector<char>::max_size()`. */
  const MAX_SIZE: int := TWO_63 - 1

  // ---- character tests of the parser -------------------------------------------------------------

  predicate IsChar(c: char) { c as int <= 127 }

  predicate IsControl(c: char) { c as int <= 31 || c as int == 127 }

  predicate IsSpecial(c: char) {
    || c == '(' || c == ')' || c == '<' || c == '>' || c == '@' || c == ',' || c == ';' || c == ':' || c == '\\'
    || c == '"' || c == '/' || c == '[' || c == ']' || c == '?' || c == '=' || c == '{' || c == '}' || c == ' '
    || c == '\t'
  }

  /** What a header name is made of. */
  predicate IsNameChar(c: char) { IsChar(c) && !IsControl(c) && !IsSpecial(c) }

  // ---- one value for parser and response together ------------------------------------------------

  /** The fields of the parser followed by the fields of the response it fills. */
  datatype Snapshot = Snapshot(
    state: State,
    contentSize: nat,
    chunkSizeStr: string,
    chunkSize: nat,
    chunked: bool,
    versionMajor: int,
    versionMinor: int,
    headers: seq<HeaderItem>,
    content: seq<char>,
    keepAlive: bool,
    statusCode: nat,
    status: string)

  /** A default-constructed parser with a default-constructed response. */
  const Initial := Snapshot(ResponseStatusStart, 0, "", 0, false, 0, 0, [], [], false, 0, "")

  predicate UsesOpenHeader(s: State) {
    s.HeaderLws? || s.HeaderName? || s.SpaceBeforeHeaderValue? || s.HeaderValue?
  }

  /** In the states that append to `headers.back()` there is a header to append to. */
  predicate HasOpenHeader(c: Snapshot) {
    UsesOpenHeader(c.state) ==> |c.headers| > 0
  }

  function Back(headers: seq<HeaderItem>): HeaderItem
    requires |headers| > 0
  {
    headers[|headers| - 1]
  }

  function AppendToName(headers: seq<HeaderItem>, s: string): seq<HeaderItem>
    requires |headers| > 0
  {
    headers[|headers| - 1 := Back(headers).(name := Back(headers).name + s)]
  }

  function AppendToValue(headers: seq<HeaderItem>, s: string): seq<HeaderItem>
    requires |headers| > 0
  {
    headers[|headers| - 1 := Back(headers).(value := Back(headers).value + s)]
  }

  /** `v * 10 + c - '0'` in a 32-bit `int`; overflow is taken to wrap. */
  function ShiftInt(v: int, c: char): int
    requires IsDigit(c)
  {
    ToInt32(v * 10 + DigitValue(c))
  }

  /** The same in a 32-bit `unsigned int`. */
  function ShiftUnsigned(v: nat, c: char): nat
    requires IsDigit(c)
  {
    (v * 10 + DigitValue(c)) % TWO_32
  }

  /** Conversion of an `int` to `size_t`. */
  function ToSizeT(v: int): (r: nat)
    ensures r < TWO_64
    ensures 0 <= v < TWO_64 ==> r == v
  {
    v % TWO_64
  }

  function Decrement(v: nat): (r: nat)
    ensures 1 <= v < TWO_64 ==> r == v - 1
    ensures v == 0 ==> r == TWO_64 - 1
  {
    ToSizeT(v - 1)
  }

  predicate IsConnection(h: HeaderItem) { EqualIgnoringCase(h.name, "Connection") }

  function FindConnection(headers: seq<HeaderItem>): (i: nat)
    ensures i <= |headers|
    ensures i < |headers| ==> IsConnection(headers[i])
    ensures forall j :: 0 <= j < i ==> !IsConnection(headers[j])
  {
    if headers == [] then 0
    else if IsConnection(headers[0]) then 0
    else
      assert forall j :: 0 < j < |headers| ==> headers[j] == headers[1..][j - 1];
      1 + FindConnection(headers[1..])
  }

  /** Whether the connection is kept alive: what the first Connection header says, or the HTTP version. */
  function KeepAlive(c: Snapshot): bool {
    var i := FindConnection(c.headers);
    if i < |c.headers| then EqualIgnoringCase(c.headers[i].value, "Keep-Alive")
    else c.keepAlive || c.versionMajor > 1 || (c.versionMajor == 1 && c.versionMinor == 1)
  }

  /** What the end of a header line makes of the last header: the framing fields it sets, and whether
      reserving the announced length throws. */
  function Evaluate(c: Snapshot): (r: (ParseResult, Snapshot))
    requires |c.headers| > 0
    ensures r.1 == c.(contentSize := r.1.contentSize, chunked := r.1.chunked)
    ensures r.0 == ParsingIncompleted || r.0 == LengthError
    ensures r.0 == ParsingIncompleted && c.contentSize <= MAX_SIZE ==> r.1.contentSize <= MAX_SIZE
  {
    var h := Back(c.headers);
    if EqualIgnoringCase(h.name, "Content-Length") then
      var size := ToSizeT(Atoi(h.value));
      (if size > MAX_SIZE then LengthError else ParsingIncompleted, c.(contentSize := size))
    else if EqualIgnoringCase(h.name, "Transfer-Encoding") && EqualIgnoringCase(h.value, "chunked") then
      (ParsingIncompleted, c.(chunked := true))
    else
      (ParsingIncompleted, c)
  }

  // ---- one byte ----------------------------------------------------------------------------------

  function Go(c: Snapshot, ok: bool, next: Snapshot): (ParseResult, Snapshot) {
    if ok then (ParsingIncompleted, next) else (ParsingError, c)
  }

  predicate InStatusLine(s: State) {
    || s.ResponseStatusStart? || s.ResponseHttpVersion_ht? || s.ResponseHttpVersion_htt?
    || s.ResponseHttpVersion_http? || s.ResponseHttpVersion_slash? || s.ResponseHttpVersion_majorStart?
    || s.ResponseHttpVersion_major? || s.ResponseHttpVersion_minorStart? || s.ResponseHttpVersion_minor?
    || s.ResponseHttpVersion_statusCodeStart? || s.ResponseHttpVersion_statusCode?
    || s.ResponseHttpVersion_statusTextStart? || s.ResponseHttpVersion_statusText? || s.ResponseHttpVersion_newLine?
  }

  predicate InHeader(s: State) {
    || s.HeaderLineStart? || s.HeaderLws? || s.HeaderName? || s.SpaceBeforeHeaderValue? || s.HeaderValue?
    || s.ExpectingNewline_2? || s.ExpectingNewline_3?
  }

  function StepStatusLine(c: Snapshot, b: char): (r: (ParseResult, Snapshot))
    requires InStatusLine(c.state)
    ensures HasOpenHeader(r.1) && |r.1.headers| >= |c.headers|
  {
    match c.state
    case ResponseStatusStart => Go(c, b == 'H', c.(state := ResponseHttpVersion_ht))
    case ResponseHttpVersion_ht => Go(c, b == 'T', c.(state := ResponseHttpVersion_htt))
    case ResponseHttpVersion_htt => Go(c, b == 'T', c.(state := ResponseHttpVersion_http))
    case ResponseHttpVersion_http => Go(c, b == 'P', c.(state := ResponseHttpVersion_slash))
    case ResponseHttpVersion_slash =>
      Go(c, b == '/', c.(versionMajor := 0, versionMinor := 0, state := ResponseHttpVersion_majorStart))
    case ResponseHttpVersion_majorStart =>
      Go(c, IsDigit(b), c.(versionMajor := DigitValue(b), state := ResponseHttpVersion_major))
    case ResponseHttpVersion_major =>
      if b == '.' then (ParsingIncompleted, c.(state := ResponseHttpVersion_minorStart))
      else if IsDigit(b) then (ParsingIncompleted, c.(versionMajor := ShiftInt(c.versionMajor, b)))
      else (ParsingError, c)
    case ResponseHttpVersion_minorStart =>
      Go(c, IsDigit(b), c.(versionMinor := DigitValue(b), state := ResponseHttpVersion_minor))
    case ResponseHttpVersion_minor =>
      if b == ' ' then (ParsingIncompleted, c.(state := ResponseHttpVersion_statusCodeStart, statusCode := 0))
      else if IsDigit(b) then (ParsingIncompleted, c.(versionMinor := ShiftInt(c.versionMinor, b)))
      else (ParsingError, c)
    case ResponseHttpVersion_statusCodeStart =>
      Go(c, IsDigit(b), c.(statusCode := DigitValue(b), state := ResponseHttpVersion_statusCode))
    case ResponseHttpVersion_statusCode =>
      if IsDigit(b) then (ParsingIncompleted, c.(statusCode := ShiftUnsigned(c.statusCode, b)))
      else Go(c, 100 <= c.statusCode <= 999 && b == ' ', c.(state := ResponseHttpVersion_statusTextStart))
    case ResponseHttpVersion_statusTextStart =>
      Go(c, IsChar(b), c.(status := c.status + [b], state := ResponseHttpVersion_statusText))
    case ResponseHttpVersion_statusText =>
      if b == '\r' then (ParsingIncompleted, c.(state := ResponseHttpVersion_newLine))
      else Go(c, IsChar(b), c.(status := c.status + [b]))
    case ResponseHttpVersion_newLine => Go(c, b == '\n', c.(state := HeaderLineStart))
  }

  function StepHeader(c: Snapshot, b: char): (r: (ParseResult, Snapshot))
    requires InHeader(c.state) && HasOpenHeader(c)
    ensures HasOpenHeader(r.1) && |r.1.headers| >= |c.headers|
  {
    match c.state
    case HeaderLineStart =>
      if b == '\r' then (ParsingIncompleted, c.(state := ExpectingNewline_3))
      else if |c.headers| > 0 && (b == ' ' || b == '\t') then (ParsingIncompleted, c.(state := HeaderLws))
      else Go(c, IsNameChar(b), c.(headers := c.headers + [HeaderItem([b], "")], state := HeaderName))
    case HeaderLws =>
      if b == '\r' then (ParsingIncompleted, c.(state := ExpectingNewline_2))
      else if b == ' ' || b == '\t' then (ParsingIncompleted, c)
      else Go(c, !IsControl(b), c.(state := HeaderValue, headers := AppendToValue(c.headers, [b])))
    case HeaderName =>
      if b == ':' then (ParsingIncompleted, c.(state := SpaceBeforeHeaderValue))
      else Go(c, IsNameChar(b), c.(headers := AppendToName(c.headers, [b])))
    case SpaceBeforeHeaderValue => Go(c, b == ' ', c.(state := HeaderValue))
    case HeaderValue =>
      if b == '\r' then
        var (result, evaluated) := Evaluate(c);
        if result == LengthError then (LengthError, evaluated)
        else (ParsingIncompleted, evaluated.(state := ExpectingNewline_2))
      else Go(c, !IsControl(b), c.(headers := AppendToValue(c.headers, [b])))
    case ExpectingNewline_2 => Go(c, b == '\n', c.(state := HeaderLineStart))
    case ExpectingNewline_3 =>
      var k := c.(keepAlive := KeepAlive(c));
      if c.chunked then (ParsingIncompleted, k.(state := ChunkSize))
      else if c.contentSize == 0 then (if b == '\n' then ParsingCompleted else ParsingError, k)
      else (ParsingIncompleted, k.(state := Post))
  }

  function StepBody(c: Snapshot, b: char): (r: (ParseResult, Snapshot))
    requires !InStatusLine(c.state) && !InHeader(c.state)
    ensures HasOpenHeader(r.1) && |r.1.headers| >= |c.headers|
  {
    match c.state
    case Post =>
      var n := c.(contentSize := Decrement(c.contentSize), content := c.content + [b]);
      (if n.contentSize == 0 then ParsingCompleted else ParsingIncompleted, n)
    case ChunkSize =>
      if IsAlnum(b) then (ParsingIncompleted, c.(chunkSizeStr := c.chunkSizeStr + [b]))
      else if b == ';' then (ParsingIncompleted, c.(state := ChunkExtensionName))
      else Go(c, b == '\r', c.(state := ChunkSizeNewLine))
    case ChunkExtensionName =>
      if IsAlnum(b) || b == ' ' then (ParsingIncompleted, c)
      else if b == '=' then (ParsingIncompleted, c.(state := ChunkExtensionValue))
      else Go(c, b == '\r', c.(state := ChunkSizeNewLine))
    case ChunkExtensionValue =>
      if IsAlnum(b) || b == ' ' then (ParsingIncompleted, c)
      else Go(c, b == '\r', c.(state := ChunkSizeNewLine))
    case ChunkSizeNewLine =>
      if b != '\n' then (ParsingError, c)
      else
        var size := ToSizeT(Strtol(c.chunkSizeStr, 16));
        var n := c.(chunkSize := size, chunkSizeStr := "");
        if ToSizeT(|c.content| + size) > MAX_SIZE then (LengthError, n)
        else (ParsingIncompleted, n.(state := if size == 0 then ChunkSizeNewLine_2 else ChunkData))
    case ChunkSizeNewLine_2 =>
      if b == '\r' then (ParsingIncompleted, c.(state := ChunkSizeNewLine_3))
      else Go(c, IsAlpha(b), c.(state := ChunkTrailerName))
    case ChunkSizeNewLine_3 => (if b == '\n' then ParsingCompleted else ParsingError, c)
    case ChunkTrailerName =>
      if IsAlnum(b) then (ParsingIncompleted, c)
      else Go(c, b == ':', c.(state := ChunkTrailerValue))
    case ChunkTrailerValue =>
      if IsAlnum(b) || b == ' ' then (ParsingIncompleted, c)
      else Go(c, b == '\r', c.(state := ChunkSizeNewLine))
    case ChunkData =>
      var n := c.(chunkSize := Decrement(c.chunkSize), content := c.content + [b]);
      (ParsingIncompleted, if n.chunkSize == 0 then n.(state := ChunkDataNewLine_1) else n)
    case ChunkDataNewLine_1 => Go(c, b == '\r', c.(state := ChunkDataNewLine_2))
    case ChunkDataNewLine_2 => Go(c, b == '\n', c.(state := ChunkSize))
  }

  /** One turn of the loop of `consume`. The headers the states rely on stay there, whatever the byte and
      whatever the result. */
  function Step(c: Snapshot, b: char): (r: (ParseResult, Snapshot))
    requires HasOpenHeader(c)
    ensures HasOpenHeader(r.1) && |r.1.headers| >= |c.headers|
  {
    if InStatusLine(c.state) then StepStatusLine(c, b)
    else if InHeader(c.state) then StepHeader(c, b)
    else StepBody(c, b)
  }

  // ---- many bytes --------------------------------------------------------------------------------

  /** How a call of `parse` ends: its result, the fields it leaves and the bytes it did not look at. */
  datatype Outcome = Outcome(result: ParseResult, end: Snapshot, rest: string)

  function Run(c: Snapshot, s: string): (o: Outcome)
    requires HasOpenHeader(c)
    ensures HasOpenHeader(o.end)
    ensures o.result == ParsingIncompleted ==> o.rest == ""
    decreases |s|
  {
    if s == "" then Outcome(ParsingIncompleted, c, "")
    else
      var (result, next) := Step(c, s[0]);
      if result == ParsingIncompleted then Run(next, s[1..]) else Outcome(result, next, s[1..])
  }

  // ---- the classes -------------------------------------------------------------------------------

  class Response {
    var versionMajor: int
    var versionMinor: int
    var headers: seq<HeaderItem>
    var content: seq<char>
    var keepAlive: bool
    var statusCode: nat
    var status: string

    constructor ()
      ensures versionMajor == 0 && versionMinor == 0 && headers == [] && content == [] && !keepAlive
      ensures statusCode == 0 && status == ""
    {
      versionMajor, versionMinor, headers, content, keepAlive, statusCode, status := 0, 0, [], [], false, 0, "";
    }
  }

  class HttpResponseParser {
    var state: State
    var contentSize: nat
    var chunkSizeStr: string
    var chunkSize: nat
    var chunked: bool

    constructor ()
      ensures state == ResponseStatusStart && contentSize == 0 && chunkSizeStr == "" && chunkSize == 0 && !chunked
    {
      state, contentSize, chunkSizeStr, chunkSize, chunked := ResponseStatusStart, 0, "", 0, false;
    }

    ghost function View(resp: Response): Snapshot
      reads this, resp
    {
      Snapshot(state, contentSize, chunkSizeStr, chunkSize, chunked, resp.versionMajor, resp.versionMinor,
               resp.headers, resp.content, resp.keepAlive, resp.statusCode, resp.status)
    }

    method ConsumeInStatusLine(resp: Response, input: char) returns (result: ParseResult)
      requires InStatusLine(state)
      modifies this, resp
      ensures (result, View(resp)) == StepStatusLine(old(View(resp)), input)
    {
      result := ParsingIncompleted;
      match state {
        case ResponseStatusStart =>
          if input != 'H' { return ParsingError; } else { state := ResponseHttpVersion_ht; }
        case ResponseHttpVersion_ht =>
          if input == 'T' { state := ResponseHttpVersion_htt; } else { return ParsingError; }
        case ResponseHttpVersion_htt =>
          if input == 'T' { state := ResponseHttpVersion_http; } else { return ParsingError; }
        case ResponseHttpVersion_http =>
          if input == 'P' { state := ResponseHttpVersion_slash; } else { return ParsingError; }
        case ResponseHttpVersion_slash =>
          if input == '/' {
            resp.versionMajor := 0;
            resp.versionMinor := 0;
            state := ResponseHttpVersion_majorStart;
          } else {
            return ParsingError;
          }
        case ResponseHttpVersion_majorStart =>
          if IsDigit(input) {
            resp.versionMajor := DigitValue(input);
            state := ResponseHttpVersion_major;
          } else {
            return ParsingError;
          }
        case ResponseHttpVersion_major =>
          if input == '.' {
            state := ResponseHttpVersion_minorStart;
          } else if IsDigit(input) {
            resp.versionMajor := ShiftInt(resp.versionMajor, input);
          } else {
            return ParsingError;
          }
        case ResponseHttpVersion_minorStart =>
          if IsDigit(input) {
            resp.versionMinor := DigitValue(input);
            state := ResponseHttpVersion_minor;
          } else {
            return ParsingError;
          }
        case ResponseHttpVersion_minor =>
          if input == ' ' {
            state := ResponseHttpVersion_statusCodeStart;
            resp.statusCode := 0;
          } else if IsDigit(input) {
            resp.versionMinor := ShiftInt(resp.versionMinor, input);
          } else {
            return ParsingError;
          }
        case ResponseHttpVersion_statusCodeStart =>
          if IsDigit(input) {
            resp.statusCode := DigitValue(input);
            state := ResponseHttpVersion_statusCode;
          } else {
            return ParsingError;
          }
        case ResponseHttpVersion_statusCode =>
          if IsDigit(input) {
            resp.statusCode := ShiftUnsigned(resp.statusCode, input);
          } else if resp.statusCode < 100 || resp.statusCode > 999 {
            return ParsingError;
          } else if input == ' ' {
            state := ResponseHttpVersion_statusTextStart;
          } else {
            return ParsingError;
          }
        case ResponseHttpVersion_statusTextStart =>
          if IsChar(input) {
            resp.status := resp.status + [input];
            state := ResponseHttpVersion_statusText;
          } else {
            return ParsingError;
          }
        case ResponseHttpVersion_statusText =>
          if input == '\r' {
            state := ResponseHttpVersion_newLine;
          } else if IsChar(input) {
            resp.status := resp.status + [input];
          } else {
            return ParsingError;
          }
        case ResponseHttpVersion_newLine =>
          if input == '\n' { state := HeaderLineStart; } else { return ParsingError; }
      }
    }

    /** The end of a header line: note the framing headers. */
    method EvaluateLastHeader(resp: Response) returns (result: ParseResult)
      requires |resp.headers| > 0
      modifies this
      ensures (result, View(resp)) == Evaluate(old(View(resp)))
    {
      var h := Back(resp.headers);
      if EqualIgnoringCase(h.name, "Content-Length") {
        contentSize := ToSizeT(Atoi(h.value));
        if contentSize > MAX_SIZE {
          return LengthError;
        }
      } else if EqualIgnoringCase(h.name, "Transfer-Encoding") {
        if EqualIgnoringCase(h.value, "chunked") {
          chunked := true;
        }
      }
      result := ParsingIncompleted;
    }

    method ConsumeInHeader(resp: Response, input: char) returns (result: ParseResult)
      requires InHeader(state) && HasOpenHeader(View(resp))
      modifies this, resp
      ensures (result, View(resp)) == StepHeader(old(View(resp)), input)
    {
      result := ParsingIncompleted;
      match state {
        case HeaderLineStart =>
          if input == '\r' {
            state := ExpectingNewline_3;
          } else if |resp.headers| > 0 && (input == ' ' || input == '\t') {
            state := HeaderLws;
          } else if !IsChar(input) || IsControl(input) || IsSpecial(input) {
            return ParsingError;
          } else {
            resp.headers := resp.headers + [HeaderItem([input], "")];
            state := HeaderName;
          }
        case HeaderLws =>
          if input == '\r' {
            state := ExpectingNewline_2;
          } else if input == ' ' || input == '\t' {
          } else if IsControl(input) {
            return ParsingError;
          } else {
            state := HeaderValue;
            resp.headers := AppendToValue(resp.headers, [input]);
          }
        case HeaderName =>
          if input == ':' {
            state := SpaceBeforeHeaderValue;
          } else if !IsChar(input) || IsControl(input) || IsSpecial(input) {
            return ParsingError;
          } else {
            resp.headers := AppendToName(resp.headers, [input]);
          }
        case SpaceBeforeHeaderValue =>
          if input == ' ' { state := HeaderValue; } else { return ParsingError; }
        case HeaderValue =>
          if input == '\r' {
            var evaluated := EvaluateLastHeader(resp);
            if evaluated == LengthError {
              return LengthError;
            }
            state := ExpectingNewline_2;
          } else if IsControl(input) {
            return ParsingError;
          } else {
            resp.headers := AppendToValue(resp.headers, [input]);
          }
        case ExpectingNewline_2 =>
          if input == '\n' { state := HeaderLineStart; } else { return ParsingError; }
        case ExpectingNewline_3 =>
          var i := FindConnection(resp.headers);
          if i < |resp.headers| {
            resp.keepAlive := EqualIgnoringCase(resp.headers[i].value, "Keep-Alive");
          } else if resp.versionMajor > 1 || (resp.versionMajor == 1 && resp.versionMinor == 1) {
            resp.keepAlive := true;
          }
          if chunked {
            state := ChunkSize;
          } else if contentSize == 0 {
            return if input == '\n' then ParsingCompleted else ParsingError;
          } else {
            state := Post;
          }
      }
    }

    method ConsumeInBody(resp: Response, input: char) returns (result: ParseResult)
      requires !InStatusLine(state) && !InHeader(state)
      modifies this, resp
      ensures (result, View(resp)) == StepBody(old(View(resp)), input)
    {
      result := ParsingIncompleted;
      match state {
        case Post =>
          contentSize := Decrement(contentSize);
          resp.content := resp.content + [input];
          if contentSize == 0 {
            return ParsingCompleted;
          }
        case ChunkSize =>
          if IsAlnum(input) {
            chunkSizeStr := chunkSizeStr + [input];
          } else if input == ';' {
            state := ChunkExtensionName;
          } else if input == '\r' {
            state := ChunkSizeNewLine;
          } else {
            return ParsingError;
          }
        case ChunkExtensionName =>
          if IsAlnum(input) || input == ' ' {
          } else if input == '=' {
            state := ChunkExtensionValue;
          } else if input == '\r' {
            state := ChunkSizeNewLine;
          } else {
            return ParsingError;
          }
        case ChunkExtensionValue =>
          if IsAlnum(input) || input == ' ' {
          } else if input == '\r' {
            state := ChunkSizeNewLine;
          } else {
            return ParsingError;
          }
        case ChunkSizeNewLine =>
          if input == '\n' {
            chunkSize := ToSizeT(Strtol(chunkSizeStr, 16));
            chunkSizeStr := "";
            if ToSizeT(|resp.content| + chunkSize) > MAX_SIZE {
              return LengthError;
            }
            if chunkSize == 0 { state := ChunkSizeNewLine_2; } else { state := ChunkData; }
          } else {
            return ParsingError;
          }
        case ChunkSizeNewLine_2 =>
          if input == '\r' {
            state := ChunkSizeNewLine_3;
          } else if IsAlpha(input) {
            state := ChunkTrailerName;
          } else {
            return ParsingError;
          }
        case ChunkSizeNewLine_3 =>
          if input == '\n' { return ParsingCompleted; } else { return ParsingError; }
        case ChunkTrailerName =>
          if IsAlnum(input) {
          } else if input == ':' {
            state := ChunkTrailerValue;
          } else {
            return ParsingError;
          }
        case ChunkTrailerValue =>
          if IsAlnum(input) || input == ' ' {
          } else if input == '\r' {
            state := ChunkSizeNewLine;
          } else {
            return ParsingError;
          }
        case ChunkData =>
          resp.content := resp.content + [input];
          chunkSize := Decrement(chunkSize);
          if chunkSize == 0 {
            state := ChunkDataNewLine_1;
          }
        case ChunkDataNewLine_1 =>
          if input == '\r' { state := ChunkDataNewLine_2; } else { return ParsingError; }
        case ChunkDataNewLine_2 =>
          if input == '\n' { state := ChunkSize; } else { return ParsingError; }
      }
    }

    /** `parse`: the byte loop. What it returns and leaves behind is `Run` of what it found; its only demand is
        that a response is not swapped for an empty one in the middle of a header line. */
    method Parse(resp: Response, input: string) returns (result: ParseResult)
      requires HasOpenHeader(View(resp))
      modifies this, resp
      ensures result == Run(old(View(resp)), input).result
      ensures View(resp) == Run(old(View(resp)), input).end
      ensures HasOpenHeader(View(resp))
    {
      var i := 0;
      while i < |input|
        invariant 0 <= i <= |input|
        invariant HasOpenHeader(View(resp))
        invariant Run(old(View(resp)), input) == Run(View(resp), input[i..])
      {
        var b := input[i];
        i := i + 1;
        ghost var before := View(resp);
        assert input[i - 1..][0] == b && input[i - 1..][1..] == input[i..];
        if InStatusLine(state) {
          result := ConsumeInStatusLine(resp, b);
        } else if InHeader(state) {
          result := ConsumeInHeader(resp, b);
        } else {
          result := ConsumeInBody(resp, b);
        }
        assert (result, View(resp)) == Step(before, b);
        if result != ParsingIncompleted {
          return;
        }
      }
      result := ParsingIncompleted;
    }
  }
}
