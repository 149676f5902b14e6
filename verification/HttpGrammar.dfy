/** The language of the response parser: a grammar of messages (RFC 9112, sections 4, 5, 6 and 7.1, with the
    parser's own liberties). */
module HttpGrammar {
  import opened Text
  import opened HttpParser

  // ---- messages ----------------------------------------------------------------------------------

  /** A header field on a line of its own, or a continuation line of the field before it. */
  datatype Line = Field(name: string, value: string) | Fold(blank: string, text: string)

  datatype Extension = NoExtension | Named(name: string) | Valued(name: string, value: string)

  datatype SizeLine = SizeLine(token: string, extension: Extension)

  datatype Chunk = Chunk(size: SizeLine, data: string)

  datatype Trailer = Trailer(name: string, value: string)

  datatype ChunkedBody = ChunkedBody(chunks: seq<Chunk>, last: SizeLine, trailers: seq<Trailer>)

  datatype Body = Empty | Sized(data: string) | Chunked(chunked: ChunkedBody)

  /** `afterBlank` is the byte after the carriage return of the blank line. */
  datatype Message = Message(major: string, minor: string, code: string, reason: string,
                             lines: seq<Line>, afterBlank: char, body: Body)

  // ---- their text --------------------------------------------------------------------------------
  // Every text is given with what follows it: `ChunkText(c, rest)` is the text of `c` and then `rest`.

  function Crlf(rest: string): string { ['\r'] + (['\n'] + rest) }

  function LineText(l: Line, rest: string): string {
    match l
    case Field(name, value) => name + ([':'] + ([' '] + (value + Crlf(rest))))
    case Fold(blank, text) => blank + (text + Crlf(rest))
  }

  function LinesText(lines: seq<Line>, rest: string): string {
    if lines == [] then rest else LineText(lines[0], LinesText(lines[1..], rest))
  }

  function ExtensionText(e: Extension, rest: string): string {
    match e
    case NoExtension => rest
    case Named(name) => [';'] + (name + rest)
    case Valued(name, value) => [';'] + (name + (['='] + (value + rest)))
  }

  function SizeLineText(l: SizeLine, rest: string): string {
    l.token + ExtensionText(l.extension, Crlf(rest))
  }

  function ChunkText(c: Chunk, rest: string): string { SizeLineText(c.size, c.data + Crlf(rest)) }

  function ChunksText(chunks: seq<Chunk>, rest: string): string {
    if chunks == [] then rest else ChunkText(chunks[0], ChunksText(chunks[1..], rest))
  }

  function TrailerText(t: Trailer, rest: string): string {
    t.name + ([':'] + (t.value + Crlf(rest)))
  }

  function TrailersText(trailers: seq<Trailer>, rest: string): string {
    if trailers == [] then rest else TrailerText(trailers[0], TrailersText(trailers[1..], rest))
  }

  function ChunkedText(b: ChunkedBody, rest: string): string {
    ChunksText(b.chunks, SizeLineText(b.last, TrailersText(b.trailers, Crlf(rest))))
  }

  function BodyText(b: Body, rest: string): string {
    match b
    case Empty => rest
    case Sized(data) => data + rest
    case Chunked(chunked) => ChunkedText(chunked, rest)
  }

  function ReasonText(m: Message, rest: string): string { [' '] + (m.reason + Crlf(rest)) }

  function StatusLineText(m: Message, rest: string): string {
    ['H'] + (['T'] + (['T'] + (['P'] + (['/'] +
      (m.major + (['.'] + (m.minor + ([' '] + (m.code + ReasonText(m, rest))))))))))
  }

  function MessageText(m: Message, rest: string): string {
    StatusLineText(m, LinesText(m.lines, ['\r'] + ([m.afterBlank] + BodyText(m.body, rest))))
  }

  // ---- well-formed parts -------------------------------------------------------------------------

  predicate IsSkipped(c: char) { IsAlnum(c) || c == ' ' }

  predicate AllSkipped(s: string) { forall i :: 0 <= i < |s| ==> IsSkipped(s[i]) }

  predicate AllNameChars(s: string) { forall i :: 0 <= i < |s| ==> IsNameChar(s[i]) }

  predicate NoControls(s: string) { forall i :: 0 <= i < |s| ==> !IsControl(s[i]) }

  predicate AllBlanks(s: string) { forall i :: 0 <= i < |s| ==> s[i] == ' ' || s[i] == '\t' }

  predicate LineOk(l: Line) {
    match l
    case Field(name, value) => |name| > 0 && AllNameChars(name) && NoControls(value)
    case Fold(blank, text) =>
      |blank| > 0 && AllBlanks(blank) && NoControls(text) && (text != "" ==> text[0] != ' ')
  }

  predicate ExtensionOk(e: Extension) {
    match e
    case NoExtension => true
    case Named(name) => AllSkipped(name)
    case Valued(name, value) => AllSkipped(name) && AllSkipped(value)
  }

  predicate SizeLineOk(l: SizeLine) { AllAlnum(l.token) && ExtensionOk(l.extension) }

  /** A chunk announces, in hexadecimal, exactly the data it carries. */
  predicate ChunkOk(c: Chunk) {
    SizeLineOk(c.size) && |c.data| > 0 && Strtol(c.size.token, 16) == |c.data|
  }

  predicate TrailerOk(t: Trailer) {
    |t.name| > 0 && IsAlpha(t.name[0]) && AllAlnum(t.name) && AllSkipped(t.value)
  }

  predicate ChunkedOk(b: ChunkedBody) {
    && (forall i :: 0 <= i < |b.chunks| ==> ChunkOk(b.chunks[i]))
    && SizeLineOk(b.last) && Strtol(b.last.token, 16) == 0
    && (forall i :: 0 <= i < |b.trailers| ==> TrailerOk(b.trailers[i]))
  }

  predicate NumberOk(s: string) { |s| > 0 && AllDigits(s) }

  predicate ReasonOk(s: string) {
    |s| > 0 && IsChar(s[0]) && forall i :: 0 < i < |s| ==> IsChar(s[i]) && s[i] != '\r'
  }

  predicate NumbersOk(m: Message) {
    && NumberOk(m.major) && NumberOk(m.minor)
    && NumberOk(m.code) && 100 <= ReadUnsigned(0, m.code) <= 999
  }

  predicate StatusLineOk(m: Message) { NumbersOk(m) && ReasonOk(m.reason) }

  function ReadInt(v: int, s: string): int
    requires AllDigits(s)
    decreases |s|
  {
    if s == "" then v else ReadInt(ShiftInt(v, s[0]), s[1..])
  }

  function ReadUnsigned(v: nat, s: string): nat
    requires AllDigits(s)
    decreases |s|
  {
    if s == "" then v else ReadUnsigned(ShiftUnsigned(v, s[0]), s[1..])
  }

  // ---- meaning -----------------------------------------------------------------------------------

  function Data(chunks: seq<Chunk>): string {
    if chunks == [] then "" else chunks[0].data + Data(chunks[1..])
  }

  /** What a header line adds: a header, or more text for the last header, and what its end makes of it. */
  function ReadLine(c: Snapshot, l: Line): (ParseResult, Snapshot)
    requires l.Fold? ==> |c.headers| > 0
  {
    match l
    case Field(name, value) => Evaluate(c.(headers := c.headers + [HeaderItem(name, value)]))
    case Fold(_, text) =>
      if text == "" then (ParsingIncompleted, c) else Evaluate(c.(headers := AppendToValue(c.headers, text)))
  }

  /** Header lines that can follow the headers of `c`: no continuation without a field, and no Content-Length
      that is negative as an `int`. */
  predicate LinesOk(c: Snapshot, lines: seq<Line>)
    decreases |lines|
  {
    lines == [] ||
    (&& LineOk(lines[0])
     && (lines[0].Fold? ==> |c.headers| > 0)
     && ReadLine(c, lines[0]).0 == ParsingIncompleted
     && LinesOk(ReadLine(c, lines[0]).1, lines[1..]))
  }

  function ReadLines(c: Snapshot, lines: seq<Line>): Snapshot
    requires LinesOk(c, lines)
    decreases |lines|
  {
    if lines == [] then c else ReadLines(ReadLine(c, lines[0]).1, lines[1..])
  }

  /** The parser before the reason. */
  function ReadNumbers(c: Snapshot, m: Message): Snapshot
    requires NumbersOk(m)
  {
    c.(state := ResponseHttpVersion_statusTextStart, versionMajor := ReadInt(0, m.major),
       versionMinor := ReadInt(0, m.minor), statusCode := ReadUnsigned(0, m.code))
  }

  function ReadStatusLine(c: Snapshot, m: Message): Snapshot
    requires StatusLineOk(m)
  {
    ReadNumbers(c, m).(state := HeaderLineStart, status := c.status + m.reason)
  }

  function AfterHead(m: Message): Snapshot
    requires StatusLineOk(m) && LinesOk(ReadStatusLine(Initial, m), m.lines)
  {
    ReadLines(ReadStatusLine(Initial, m), m.lines)
  }

  /** The framing of the body: chunked wins over a length, as in section 6.3 of RFC 9112; but without either there is no
      body, where the standard lets the body of a response run until the connection is closed. */
  predicate BodyOk(c: Snapshot, m: Message) {
    if c.chunked then m.body.Chunked? && ChunkedOk(m.body.chunked) && |Data(m.body.chunked.chunks)| <= MAX_SIZE
    else if c.contentSize == 0 then m.body.Empty? && m.afterBlank == '\n'
    else m.body.Sized? && |m.body.data| == c.contentSize
  }

  predicate MessageOk(m: Message) {
    && StatusLineOk(m)
    && LinesOk(ReadStatusLine(Initial, m), m.lines)
    && BodyOk(AfterHead(m), m)
  }

  function BodyData(b: Body): string {
    match b
    case Empty => ""
    case Sized(data) => data
    case Chunked(chunked) => Data(chunked.chunks)
  }

  /** The response a message stands for, with the fields the parser is left with. */
  function Meaning(m: Message): Snapshot
    requires MessageOk(m)
  {
    var c := AfterHead(m);
    c.(keepAlive := KeepAlive(c),
       content := BodyData(m.body),
       contentSize := if m.body.Chunked? then c.contentSize else 0,
       state := match m.body
                case Empty => ExpectingNewline_3
                case Sized(_) => Post
                case Chunked(_) => ChunkSizeNewLine_3)
  }
}
