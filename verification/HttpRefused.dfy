/** Which chunked bodies of RFC 9112, section 7.1, the parser refuses: it takes at most one extension and only letters,
    digits and spaces where the standard takes any token character, blank or quoted string. */
module HttpRefused {
  import opened Text
  import opened HttpParser
  import opened HttpGrammar
  import opened HttpWalk
  import opened HttpChunked

  // ---- bodies in the syntax of the standard ------------------------------------------------------

  /** The characters of a token (section 5.6.2 of RFC 9110). */
  predicate IsTokenChar(c: char) {
    '0' <= c <= '9' || 'a' <= c <= 'z' || 'A' <= c <= 'Z' || c in "!#$%&'*+-.^_`|~"
  }

  predicate AllTokenChars(s: string) { forall i :: 0 <= i < |s| ==> IsTokenChar(s[i]) }

  predicate IsToken(s: string) { |s| > 0 && AllTokenChars(s) }

  /** A visible character, a blank, or a byte from 128 up. */
  predicate IsFieldChar(c: char) { c == '\t' || ' ' <= c <= '~' || c as int >= 128 }

  /** The parser's names are the tokens of the standard. */
  lemma NameIsToken(s: string)
    ensures AllNameChars(s) <==> AllTokenChars(s)
  {
    assert forall c: char :: IsNameChar(c) <==> IsTokenChar(c) by {
      forall c: char
        ensures IsNameChar(c) <==> IsTokenChar(c)
      {
        NameCharIsTokenChar(c);
      }
    }
    hide IsNameChar, IsTokenChar;
  }

  lemma NameCharIsTokenChar(c: char)
    ensures IsNameChar(c) <==> IsTokenChar(c)
  {
    var others := "!#$%&'*+-.^_`|~";
    assert c in others <==>
           || c == '!' || c == '#' || c == '$' || c == '%' || c == '&' || c == '\'' || c == '*' || c == '+' || c == '-'
           || c == '.' || c == '^' || c == '_' || c == '`' || c == '|' || c == '~';
  }

  predicate AllFieldChars(s: string) { forall i :: 0 <= i < |s| ==> IsFieldChar(s[i]) }

  /** What follows an extension name; `before` and `after` are the blanks around the equals sign. */
  datatype ExtValue =
    | NoValue
    | TokenValue(before: string, after: string, token: string)
    | QuotedValue(before: string, after: string, quoted: string)

  /** `before` and `after` are the blanks around the semicolon. */
  datatype ChunkExt = ChunkExt(before: string, after: string, name: string, value: ExtValue)

  datatype StandardChunk = StandardChunk(size: string, exts: seq<ChunkExt>, data: string)

  datatype StandardBody =
    StandardBody(chunks: seq<StandardChunk>, last: string, lastExts: seq<ChunkExt>, trailers: seq<Trailer>)

  /** The inside of a quoted string: a backslash quotes the character after it, and no quote stands alone. */
  predicate QuotedLegal(s: string) {
    s == "" ||
    if s[0] == '\\' then |s| >= 2 && IsFieldChar(s[1]) && QuotedLegal(s[2..])
    else IsFieldChar(s[0]) && s[0] != '"' && QuotedLegal(s[1..])
  }

  predicate ValueLegal(v: ExtValue) {
    match v
    case NoValue => true
    case TokenValue(before, after, token) => AllBlanks(before) && AllBlanks(after) && IsToken(token)
    case QuotedValue(before, after, quoted) => AllBlanks(before) && AllBlanks(after) && QuotedLegal(quoted)
  }

  predicate ExtLegal(e: ChunkExt) {
    AllBlanks(e.before) && AllBlanks(e.after) && IsToken(e.name) && ValueLegal(e.value)
  }

  predicate ExtsLegal(exts: seq<ChunkExt>) { forall i :: 0 <= i < |exts| ==> ExtLegal(exts[i]) }

  /** A size in hexadecimal, of any length. */
  predicate SizeLegal(s: string) { |s| > 0 && AllDigitsOf(s, 16) }

  predicate ChunkLegal(k: StandardChunk) {
    SizeLegal(k.size) && ExtsLegal(k.exts) && |k.data| > 0 && Magnitude(k.size, 16, 0) == |k.data|
  }

  predicate TrailerLegal(t: Trailer) { IsToken(t.name) && AllFieldChars(t.value) }

  predicate BodyLegal(b: StandardBody) {
    && (forall i :: 0 <= i < |b.chunks| ==> ChunkLegal(b.chunks[i]))
    && |b.last| > 0 && (forall i :: 0 <= i < |b.last| ==> b.last[i] == '0')
    && ExtsLegal(b.lastExts)
    && (forall i :: 0 <= i < |b.trailers| ==> TrailerLegal(b.trailers[i]))
  }

  function ValueText(v: ExtValue, rest: string): string {
    match v
    case NoValue => rest
    case TokenValue(before, after, token) => before + (['='] + (after + (token + rest)))
    case QuotedValue(before, after, quoted) => before + (['='] + (after + (['"'] + (quoted + (['"'] + rest)))))
  }

  function ExtText(e: ChunkExt, rest: string): string {
    e.before + ([';'] + (e.after + (e.name + ValueText(e.value, rest))))
  }

  function ExtsText(exts: seq<ChunkExt>, rest: string): string {
    if exts == [] then rest else ExtText(exts[0], ExtsText(exts[1..], rest))
  }

  function SizeText(size: string, exts: seq<ChunkExt>, rest: string): string { size + ExtsText(exts, Crlf(rest)) }

  function StandardChunksText(chunks: seq<StandardChunk>, rest: string): string {
    if chunks == [] then rest
    else SizeText(chunks[0].size, chunks[0].exts, chunks[0].data + Crlf(StandardChunksText(chunks[1..], rest)))
  }

  function StandardText(b: StandardBody, rest: string): string {
    StandardChunksText(b.chunks, SizeText(b.last, b.lastExts, TrailersText(b.trailers, Crlf(rest))))
  }

  function StandardData(chunks: seq<StandardChunk>): string {
    if chunks == [] then "" else chunks[0].data + StandardData(chunks[1..])
  }

  // ---- what the parser takes of it ---------------------------------------------------------------

  predicate ValueTaken(v: ExtValue) {
    match v
    case NoValue => true
    case TokenValue(before, after, token) => AllSkipped(before) && AllSkipped(after) && AllSkipped(token)
    case QuotedValue(_, _, _) => false
  }

  /** At most one extension, with nothing before its semicolon, no tab and no token character but letters and digits. */
  predicate ExtsTaken(exts: seq<ChunkExt>) {
    exts == [] ||
    (|exts| == 1 && exts[0].before == "" && AllSkipped(exts[0].after) && AllSkipped(exts[0].name)
     && ValueTaken(exts[0].value))
  }

  predicate BodyTaken(b: StandardBody) {
    && (forall i :: 0 <= i < |b.chunks| ==> ExtsTaken(b.chunks[i].exts))
    && ExtsTaken(b.lastExts)
    && (forall i :: 0 <= i < |b.trailers| ==> TrailerOk(b.trailers[i]))
  }

  // ---- what is taken, in the parser's grammar ----------------------------------------------------

  function TakenExtension(exts: seq<ChunkExt>): Extension {
    if exts == [] then NoExtension
    else
      var e := exts[0];
      match e.value
      case TokenValue(before, after, token) => Valued(e.after + (e.name + before), after + token)
      case _ => Named(e.after + e.name)
  }

  lemma SkippedTogether(a: string, b: string)
    requires AllSkipped(a) && AllSkipped(b)
    ensures AllSkipped(a + b)
  {
  }

  lemma TakenText(exts: seq<ChunkExt>, rest: string)
    requires ExtsTaken(exts)
    ensures ExtensionOk(TakenExtension(exts))
    ensures ExtsText(exts, rest) == ExtensionText(TakenExtension(exts), rest)
  {
    hide AllSkipped;
    if exts != [] {
      var e := exts[0];
      assert exts[1..] == [];
      assert "" + ([';'] + (e.after + (e.name + ValueText(e.value, rest)))) ==
             [';'] + (e.after + (e.name + ValueText(e.value, rest)));
      match e.value {
        case NoValue =>
          SkippedTogether(e.after, e.name);
          assert e.after + (e.name + rest) == (e.after + e.name) + rest;
        case TokenValue(before, after, token) =>
          SkippedTogether(e.name, before);
          SkippedTogether(e.after, e.name + before);
          SkippedTogether(after, token);
          var value := (after + token) + rest;
          assert after + (token + rest) == value;
          assert e.name + (before + (['='] + value)) == (e.name + before) + (['='] + value);
          assert e.after + ((e.name + before) + (['='] + value)) == (e.after + (e.name + before)) + (['='] + value);
        case QuotedValue(_, _, _) =>
      }
    }
  }

  function TakenLine(size: string, exts: seq<ChunkExt>): SizeLine { SizeLine(size, TakenExtension(exts)) }

  lemma TakenSizeLine(size: string, exts: seq<ChunkExt>, rest: string)
    requires SizeLegal(size) && ExtsTaken(exts)
    ensures SizeLineOk(TakenLine(size, exts)) && SizeText(size, exts, rest) == SizeLineText(TakenLine(size, exts), rest)
  {
    hide ExtsTaken;
    TakenText(exts, Crlf(rest));
  }

  /** A hexadecimal size is read as its value. */
  lemma SizeRead(size: string)
    requires SizeLegal(size) && Magnitude(size, 16, 0) < TWO_63
    ensures AllAlnum(size) && Strtol(size, 16) == Magnitude(size, 16, 0)
  {
    assert forall i :: 0 <= i < |size| ==> DigitValue(size[i]) < 16;
    assert SkipSpace(size) == size;
    assert StripHexPrefix(size) == size;
  }

  lemma {:induction false} Zeros(s: string)
    requires forall i :: 0 <= i < |s| ==> s[i] == '0'
    ensures Magnitude(s, 16, 0) == 0 && AllDigitsOf(s, 16)
  {
    if s != "" {
      Zeros(s[1..]);
    }
  }

  // ---- refused bytes -----------------------------------------------------------------------------

  predicate InExtension(s: State) { s.ChunkExtensionName? || s.ChunkExtensionValue? }

  /** Inside an extension a text is passed over, or ends in an error. */
  lemma PassOver(c: Snapshot, t: string, rest: string)
    requires InExtension(c.state) && '\r' !in t && '=' !in t
    ensures if AllSkipped(t) then Run(c, t + rest) == Run(c, rest) else Run(c, t + rest).result == ParsingError
  {
    hide Run, Step;
    if AllSkipped(t) {
      AbsorbRun(c, t, rest);
    } else {
      assert !AbsorbsAll(c.state, t);
      var front, b, more := StopsInside(c, t, rest);
      SeparatorStep(c, b);
    }
  }

  lemma NoSeparators(s: string)
    requires AllBlanks(s) || AllTokenChars(s)
    ensures '\r' !in s && '=' !in s
  {
  }

  /** A second extension is an error. */
  lemma SecondRefused(c: Snapshot, exts: seq<ChunkExt>, rest: string)
    requires InExtension(c.state) && exts != [] && ExtsLegal(exts)
    ensures Run(c, ExtsText(exts, rest)).result == ParsingError
  {
    hide Run, Step, ValueText, AllBlanks, AllSkipped, AllTokenChars;
    var e := exts[0];
    var more := e.after + (e.name + ValueText(e.value, ExtsText(exts[1..], rest)));
    NoSeparators(e.before);
    PassOver(c, e.before, [';'] + more);
    OneByte(c, ';', more);
  }

  lemma ValueRefused(c: Snapshot, v: ExtValue, exts: seq<ChunkExt>, rest: string)
    requires c.state.ChunkExtensionName? && ValueLegal(v) && ExtsLegal(exts)
    requires !(exts == [] && ValueTaken(v))
    ensures Run(c, ValueText(v, ExtsText(exts, rest))).result == ParsingError
  {
    hide Run, Step, ExtsText, ExtsLegal, AllBlanks, AllTokenChars, AllSkipped, QuotedLegal;
    var tail := ExtsText(exts, rest);
    if v.NoValue? {
      SecondRefused(c, exts, rest);
    } else {
      var inside := if v.TokenValue? then v.token + tail else ['"'] + (v.quoted + (['"'] + tail));
      var valuing := c.(state := ChunkExtensionValue);
      NoSeparators(v.before);
      PassOver(c, v.before, ['='] + (v.after + inside));
      if AllSkipped(v.before) {
        OneByte(c, '=', v.after + inside);
        NoSeparators(v.after);
        PassOver(valuing, v.after, inside);
        if AllSkipped(v.after) {
          if v.TokenValue? {
            NoSeparators(v.token);
            PassOver(valuing, v.token, tail);
            if AllSkipped(v.token) {
              SecondRefused(valuing, exts, rest);
            }
          } else {
            OneByte(valuing, '"', v.quoted + (['"'] + tail));
          }
        }
      }
    }
  }

  lemma ExtsRefused(c: Snapshot, exts: seq<ChunkExt>, rest: string)
    requires c.state.ChunkSize? && ExtsLegal(exts) && !ExtsTaken(exts)
    ensures Run(c, ExtsText(exts, rest)).result == ParsingError
  {
    hide Run, Step, ValueText, ValueLegal, ValueTaken, AllTokenChars, AllSkipped;
    var e, tail := exts[0], ExtsText(exts[1..], rest);
    var more := e.after + (e.name + ValueText(e.value, tail));
    if e.before != "" {
      assert e.before + ([';'] + more) == [e.before[0]] + (e.before[1..] + ([';'] + more));
      OneByte(c, e.before[0], e.before[1..] + ([';'] + more));
    } else {
      assert "" + ([';'] + more) == [';'] + more;
      OneByte(c, ';', more);
      var named := c.(state := ChunkExtensionName);
      NoSeparators(e.after);
      PassOver(named, e.after, e.name + ValueText(e.value, tail));
      if AllSkipped(e.after) {
        NoSeparators(e.name);
        PassOver(named, e.name, ValueText(e.value, tail));
        if AllSkipped(e.name) {
          assert exts[1..] == [] <==> |exts| == 1;
          ValueRefused(named, e.value, exts[1..], rest);
        }
      }
    }
  }

  lemma SizeLineRefused(c: Snapshot, size: string, exts: seq<ChunkExt>, rest: string)
    requires AtChunkSize(c) && SizeLegal(size) && ExtsLegal(exts) && !ExtsTaken(exts)
    ensures Run(c, SizeText(size, exts, rest)).result == ParsingError
  {
    hide Run, Step, ExtsLegal, ExtsTaken, ExtsText;
    assert AbsorbsAll(c.state, size);
    AbsorbRun(c, size, ExtsText(exts, Crlf(rest)));
    ExtsRefused(Absorb(c, size), exts, Crlf(rest));
  }

  // ---- refused trailers --------------------------------------------------------------------------

  lemma TrailerRefused(c: Snapshot, t: Trailer, rest: string)
    requires AtTrailers(c) && TrailerLegal(t) && !TrailerOk(t)
    ensures Run(c, TrailerText(t, rest)).result == ParsingError
  {
    hide Run, Step, AllFieldChars, Absorb, AllTokenChars;
    TokenParts(t.name);
    var name, tail := t.name[1..], t.value + Crlf(rest);
    assert TrailerText(t, rest) == [t.name[0]] + (name + ([':'] + tail));
    TrailerNameSteps(c, t.name[0]);
    RunStep(c, t.name[0], name + ([':'] + tail));
    if IsAlpha(t.name[0]) {
      if !AbsorbsAll(ChunkTrailerName, name) {
        TrailerNameRefused(c, name, [':'] + tail);
      } else {
        ValueNotSkipped(t);
        TrailerNameSteps(c, ':');
        AbsorbThenStep(c.(state := ChunkTrailerName), name, ':', tail);
        AbsorbsNothing(c, name);
        TrailerValueRefused(c, t.value, Crlf(rest));
      }
    }
  }

  lemma TokenParts(s: string)
    requires IsToken(s)
    ensures s[0] != '\r' && AllTokenChars(s[1..])
  {
  }

  lemma AbsorbsNothing(c: Snapshot, name: string)
    requires AbsorbsAll(ChunkTrailerName, name)
    ensures Absorb(c.(state := ChunkTrailerName), name) == c.(state := ChunkTrailerName)
  {
  }

  lemma TrailerNameRefused(c: Snapshot, name: string, rest: string)
    requires AtTrailers(c) && AllTokenChars(name) && !AbsorbsAll(ChunkTrailerName, name)
    ensures Run(c.(state := ChunkTrailerName), name + rest).result == ParsingError
  {
    hide Run, Step;
    var front, b, more := StopsInside(c.(state := ChunkTrailerName), name, rest);
    TrailerNameSteps(c, b);
  }

  lemma TrailerValueRefused(c: Snapshot, value: string, rest: string)
    requires AtTrailers(c) && AllFieldChars(value) && !AllSkipped(value)
    ensures Run(c.(state := ChunkTrailerValue), value + rest).result == ParsingError
  {
    hide Run, Step;
    assert !AbsorbsAll(ChunkTrailerValue, value);
    var front, b, more := StopsInside(c.(state := ChunkTrailerValue), value, rest);
    TrailerValueSteps(c, b);
  }

  lemma ValueNotSkipped(t: Trailer)
    requires |t.name| > 0 && !TrailerOk(t) && IsAlpha(t.name[0]) && AbsorbsAll(ChunkTrailerName, t.name[1..])
    ensures !AllSkipped(t.value)
  {
    assert forall i :: 0 < i < |t.name| ==> t.name[i] == t.name[1..][i - 1];
  }

  lemma {:induction false} TrailersRefused(c: Snapshot, trailers: seq<Trailer>, rest: string)
    requires AtTrailers(c) && forall i :: 0 <= i < |trailers| ==> TrailerLegal(trailers[i])
    requires exists i :: 0 <= i < |trailers| && !TrailerOk(trailers[i])
    ensures Run(c, TrailersText(trailers, rest)).result == ParsingError
    decreases |trailers|
  {
    hide Run, Step, TrailerOk, TrailerLegal, TrailerText;
    if TrailerOk(trailers[0]) {
      TrailerRun(c, trailers[0], TrailersText(trailers[1..], rest));
      var i :| 0 <= i < |trailers| && !TrailerOk(trailers[i]);
      assert trailers[1..][i - 1] == trailers[i];
      TrailersRefused(c, trailers[1..], rest);
    } else {
      TrailerRefused(c, trailers[0], TrailersText(trailers[1..], rest));
    }
  }

  // ---- the whole body ----------------------------------------------------------------------------

  /** The parser after a body of the standard. */
  function AfterStandard(c: Snapshot, b: StandardBody): Snapshot {
    c.(state := ChunkSizeNewLine_3, chunkSize := 0, content := c.content + StandardData(b.chunks))
  }

  /** From the size line of the last chunk on. */
  lemma LastOutcome(c: Snapshot, b: StandardBody, rest: string)
    requires AtChunkSize(c) && |c.content| <= MAX_SIZE && b.chunks == [] && BodyLegal(b)
    ensures var o := Run(c, StandardText(b, rest));
            if BodyTaken(b) then o == Outcome(ParsingCompleted, AfterStandard(c, b), rest) else o.result == ParsingError
  {
    hide Run, Step, After, ExtsTaken, ExtsLegal, TrailerOk, TrailerLegal, SizeLineText, SizeText, TrailersText, Strtol;
    var tail := TrailersText(b.trailers, Crlf(rest));
    Zeros(b.last);
    SizeRead(b.last);
    assert c.content + StandardData(b.chunks) == c.content;
    if !ExtsTaken(b.lastExts) {
      SizeLineRefused(c, b.last, b.lastExts, tail);
    } else {
      TakenSizeLine(b.last, b.lastExts, tail);
      var l := TakenLine(b.last, b.lastExts);
      if BodyTaken(b) {
        LastChunkRun(c, l, b.trailers, rest);
      } else {
        SizeLineRun(c, l, tail);
        EndOfSizeLine(c, b.last, tail);
        TrailersRefused(c.(state := ChunkSizeNewLine_2, chunkSize := 0), b.trailers, Crlf(rest));
      }
    }
  }

  /** One chunk: its data is appended, or its extensions are an error. */
  lemma ChunkOutcome(c: Snapshot, k: StandardChunk, rest: string)
    requires AtChunkSize(c) && ChunkLegal(k) && |c.content| + |k.data| <= MAX_SIZE
    ensures var text := SizeText(k.size, k.exts, k.data + Crlf(rest));
            if ExtsTaken(k.exts) then Run(c, text) == Run(c.(content := c.content + k.data, chunkSize := 0), rest)
            else Run(c, text).result == ParsingError
  {
    hide Run, Step, ExtsTaken, ExtsLegal, SizeLineText, SizeText, Strtol;
    SizeRead(k.size);
    if ExtsTaken(k.exts) {
      TakenSizeLine(k.size, k.exts, k.data + Crlf(rest));
      ChunkRun(c, Chunk(TakenLine(k.size, k.exts), k.data), rest);
    } else {
      SizeLineRefused(c, k.size, k.exts, k.data + Crlf(rest));
    }
  }

  lemma FirstChunk(b: StandardBody)
    requires b.chunks != []
    ensures BodyTaken(b) <==> ExtsTaken(b.chunks[0].exts) && BodyTaken(b.(chunks := b.chunks[1..]))
    ensures BodyLegal(b) <==> ChunkLegal(b.chunks[0]) && BodyLegal(b.(chunks := b.chunks[1..]))
  {
    hide ExtsTaken, ExtsLegal, ChunkLegal, TrailerOk, TrailerLegal;
    assert b.chunks == [b.chunks[0]] + b.chunks[1..];
  }

  /** A chunked body in the syntax of the standard is accepted up to its last byte, with the data of its chunks as
      content, if and only if each size line has at most one extension, of the kind the parser takes, and trailers are
      made of letters, digits and spaces and their names begin with a letter; any other is an error. */
  lemma {:induction false} LegalChunked(c: Snapshot, b: StandardBody, rest: string)
    requires AtChunkSize(c) && BodyLegal(b) && |c.content| + |StandardData(b.chunks)| <= MAX_SIZE
    ensures Run(c, StandardText(b, rest)) == Outcome(ParsingCompleted, AfterStandard(c, b), rest) <==> BodyTaken(b)
    ensures !BodyTaken(b) ==> Run(c, StandardText(b, rest)).result == ParsingError
    decreases |b.chunks|
  {
    hide Run, BodyTaken, BodyLegal, ExtsTaken, ChunkLegal, SizeText, TrailersText;
    if b.chunks == [] {
      LastOutcome(c, b, rest);
    } else {
      var k, others := b.chunks[0], b.(chunks := b.chunks[1..]);
      FirstChunk(b);
      ChunkOutcome(c, k, StandardText(others, rest));
      var next := c.(content := c.content + k.data, chunkSize := 0);
      assert next.content + StandardData(others.chunks) == c.content + StandardData(b.chunks);
      if ExtsTaken(k.exts) {
        LegalChunked(next, others, rest);
      }
    }
  }

  /** An empty chunked body with the trailer "X-Sum: 1" is legal and refused. */
  lemma HyphenIsRefused(c: Snapshot, rest: string)
    requires AtChunkSize(c) && |c.content| <= MAX_SIZE
    ensures var b := StandardBody([], "0", [], [Trailer("X-Sum", " 1")]);
            BodyLegal(b) && Run(c, StandardText(b, rest)).result == ParsingError
  {
    hide Run, StandardText;
    var b := StandardBody([], "0", [], [Trailer("X-Sum", " 1")]);
    assert b.trailers[0].name[1] == '-';
    assert !TrailerOk(b.trailers[0]);
    LegalChunked(c, b, rest);
  }

  /** So is one whose last chunk has the extension "a" with the quoted value "b". */
  lemma QuotedIsRefused(c: Snapshot, rest: string)
    requires AtChunkSize(c) && |c.content| <= MAX_SIZE
    ensures var b := StandardBody([], "0", [ChunkExt("", "", "a", QuotedValue("", "", "b"))], []);
            BodyLegal(b) && Run(c, StandardText(b, rest)).result == ParsingError
  {
    hide Run, StandardText;
    var b := StandardBody([], "0", [ChunkExt("", "", "a", QuotedValue("", "", "b"))], []);
    assert QuotedLegal("b");
    assert !ExtsTaken(b.lastExts);
    LegalChunked(c, b, rest);
  }
}
