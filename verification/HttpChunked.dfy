/** Chunked bodies (RFC 9112, section 7.1): from the state that expects a chunk size, the parser completes on
    exactly the texts of the chunked grammar, and appends the data of the chunks in order. */
module HttpChunked {
  import opened Text
  import opened HttpParser
  import opened HttpGrammar
  import opened HttpWalk
  import HttpRuns

  predicate AtChunkSize(c: Snapshot) { c.state.ChunkSize? && c.chunkSizeStr == "" }

  predicate AtTrailers(c: Snapshot) {
    c.state.ChunkSizeNewLine_2? && c.chunkSizeStr == "" && c.chunkSize == 0 && |c.content| <= MAX_SIZE
  }

  /** The parser after a chunked body: the content is longer by the data of the chunks. */
  function AfterChunked(c: Snapshot, b: ChunkedBody): Snapshot {
    c.(state := ChunkSizeNewLine_3, chunkSize := 0, content := c.content + Data(b.chunks))
  }

  // ---- size lines --------------------------------------------------------------------------------

  predicate InSizeLine(s: State) { s.ChunkSize? || s.ChunkExtensionName? || s.ChunkExtensionValue? }

  function WithToken(c: Snapshot, t: string): Snapshot {
    if c.state.ChunkSize? then c.(chunkSizeStr := c.chunkSizeStr + t) else c
  }

  /** Where the byte that ends a token, an extension name or an extension value leads. */
  function AfterSeparator(c: Snapshot, b: char): (ParseResult, Snapshot) {
    if b == '\r' then (ParsingIncompleted, c.(state := ChunkSizeNewLine))
    else if c.state.ChunkSize? && b == ';' then (ParsingIncompleted, c.(state := ChunkExtensionName))
    else if c.state.ChunkExtensionName? && b == '=' then (ParsingIncompleted, c.(state := ChunkExtensionValue))
    else (ParsingError, c)
  }

  lemma SeparatorStep(c: Snapshot, b: char)
    requires InSizeLine(c.state) && !Absorbs(c.state, b)
    ensures Step(c, b) == AfterSeparator(c, b)
  {
  }

  lemma Separator(c: Snapshot, t: string, b: char, rest: string)
    requires InSizeLine(c.state) && AbsorbsAll(c.state, t) && !Absorbs(c.state, b)
    ensures var (result, next) := AfterSeparator(WithToken(c, t), b);
            Run(c, t + ([b] + rest)) ==
              if result == ParsingIncompleted then Run(next, rest) else Outcome(result, next, rest)
  {
    hide Step, Run, AfterSeparator;
    AbsorbThenStep(c, t, b, rest);
    assert Absorb(c, t) == WithToken(c, t);
    SeparatorStep(WithToken(c, t), b);
  }

  /** One byte that ends an extension name or value, or a size without an extension. */
  lemma OneByte(c: Snapshot, b: char, rest: string)
    requires InSizeLine(c.state) && !Absorbs(c.state, b)
    ensures var (result, next) := AfterSeparator(c, b);
            Run(c, [b] + rest) == if result == ParsingIncompleted then Run(next, rest) else Outcome(result, next, rest)
  {
    hide Run, Step;
    SeparatorStep(c, b);
    RunStep(c, b, rest);
  }

  lemma LeaveSizeLine(c: Snapshot, s: string) returns (t: string, b: char, rest: string)
    requires InSizeLine(c.state) && Run(c, s).result == ParsingCompleted
    ensures s == t + ([b] + rest) && AbsorbsAll(c.state, t)
    ensures AfterSeparator(WithToken(c, t), b).0 == ParsingIncompleted
    ensures Run(c, s) == Run(AfterSeparator(WithToken(c, t), b).1, rest)
  {
    hide Run, Step, After;
    t, b, rest := Leave(c, s);
    Separator(c, t, b, rest);
  }

  /** The rest of a size line after its token, up to the carriage return. */
  lemma ExtensionRun(c: Snapshot, e: Extension, rest: string)
    requires c.state.ChunkSize? && ExtensionOk(e)
    ensures Run(c, ExtensionText(e, ['\r'] + rest)) == Run(c.(state := ChunkSizeNewLine), rest)
  {
    hide Run, AllSkipped;
    if e.NoExtension? {
      OneByte(c, '\r', rest);
    } else {
      var named := c.(state := ChunkExtensionName);
      OneByte(c, ';', e.name + (if e.Named? then ['\r'] + rest else ['='] + (e.value + (['\r'] + rest))));
      SkippedIsAbsorbed(named, e.name);
      if e.Named? {
        Separator(named, e.name, '\r', rest);
      } else {
        var valuing := c.(state := ChunkExtensionValue);
        Separator(named, e.name, '=', e.value + (['\r'] + rest));
        SkippedIsAbsorbed(valuing, e.value);
        Separator(valuing, e.value, '\r', rest);
      }
    }
  }

  lemma SkippedIsAbsorbed(c: Snapshot, s: string)
    requires c.state.ChunkExtensionName? || c.state.ChunkExtensionValue? || c.state.ChunkTrailerValue?
    ensures AllSkipped(s) <==> AbsorbsAll(c.state, s)
  {
  }

  function AtSizeLineEnd(c: Snapshot, token: string): Snapshot {
    c.(state := ChunkSizeNewLine, chunkSizeStr := token)
  }

  lemma SizeLineRun(c: Snapshot, l: SizeLine, rest: string)
    requires AtChunkSize(c) && SizeLineOk(l)
    ensures Run(c, SizeLineText(l, rest)) == After(AtSizeLineEnd(c, l.token), '\n', rest)
  {
    hide Run, After, Step;
    AbsorbRun(c, l.token, ExtensionText(l.extension, Crlf(rest)));
    assert c.chunkSizeStr + l.token == l.token;
    ExtensionRun(c.(chunkSizeStr := l.token), l.extension, ['\n'] + rest);
    RunStep(AtSizeLineEnd(c, l.token), '\n', rest);
  }

  /** What follows the semicolon of a size line. */
  lemma ExtensionSplit(c: Snapshot, s: string) returns (e: Extension, rest: string)
    requires c.state.ChunkExtensionName? && Run(c, s).result == ParsingCompleted
    ensures ExtensionOk(e) && [';'] + s == ExtensionText(e, Crlf(rest))
  {
    hide Run, Step, After, AllSkipped;
    var name, b, more := LeaveSizeLine(c, s);
    SkippedIsAbsorbed(c, name);
    if b == '\r' {
      rest := Expect(c.(state := ChunkSizeNewLine), more);
      e := Named(name);
    } else {
      var valuing := c.(state := ChunkExtensionValue);
      var value, b', more' := LeaveSizeLine(valuing, more);
      SkippedIsAbsorbed(valuing, value);
      rest := Expect(c.(state := ChunkSizeNewLine), more');
      e := Valued(name, value);
    }
  }

  lemma SizeLineSplit(c: Snapshot, s: string) returns (l: SizeLine, rest: string)
    requires AtChunkSize(c) && Run(c, s).result == ParsingCompleted
    ensures SizeLineOk(l) && s == SizeLineText(l, rest)
  {
    hide Run, Step, After, ExtensionOk;
    var token, b, more := LeaveSizeLine(c, s);
    assert c.chunkSizeStr + token == token;
    var e := NoExtension;
    if b == '\r' {
      rest := Expect(AtSizeLineEnd(c, token), more);
      assert ExtensionOk(NoExtension) by {
        NoExtensionOk();
      }
    } else {
      e, rest := ExtensionSplit(c.(chunkSizeStr := token, state := ChunkExtensionName), more);
    }
    l := SizeLine(token, e);
  }

  lemma NoExtensionOk()
    ensures ExtensionOk(NoExtension)
  {
  }

  /** The line feed of a size line. */
  lemma EndOfSizeLine(c: Snapshot, token: string, rest: string)
    requires AtChunkSize(c) && AllAlnum(token)
    ensures var size := Strtol(token, 16);
            var o := After(AtSizeLineEnd(c, token), '\n', rest);
            var next := c.(chunkSize := size, chunkSizeStr := "");
            && size >= 0
            && (|c.content| <= MAX_SIZE < |c.content| + size ==> o.result == LengthError)
            && (|c.content| + size <= MAX_SIZE ==>
                  o == Run(next.(state := if size == 0 then ChunkSizeNewLine_2 else ChunkData), rest))
  {
    HttpRuns.ChunkSizeInRange(AtSizeLineEnd(c, token));
  }

  // ---- one chunk ---------------------------------------------------------------------------------

  lemma AfterDataStep(c: Snapshot)
    requires c.state.ChunkDataNewLine_1?
    ensures Step(c, '\r') == (ParsingIncompleted, c.(state := ChunkDataNewLine_2))
    ensures Step(c.(state := ChunkDataNewLine_2), '\n') == (ParsingIncompleted, c.(state := ChunkSize))
  {
  }

  lemma AfterData(c: Snapshot, rest: string)
    requires c.state.ChunkDataNewLine_1?
    ensures Run(c, Crlf(rest)) == Run(c.(state := ChunkSize), rest)
  {
    hide Step, Run;
    AfterDataStep(c);
    RunStep(c, '\r', ['\n'] + rest);
    RunStep(c.(state := ChunkDataNewLine_2), '\n', rest);
  }

  lemma ChunkRun(c: Snapshot, k: Chunk, rest: string)
    requires AtChunkSize(c) && ChunkOk(k) && |c.content| + |k.data| <= MAX_SIZE
    ensures Run(c, ChunkText(k, rest)) == Run(c.(content := c.content + k.data, chunkSize := 0), rest)
  {
    hide Run, After, Step;
    var counting := c.(state := ChunkData, chunkSize := |k.data|);
    SizeLineRun(c, k.size, k.data + Crlf(rest));
    EndOfSizeLine(c, k.size.token, k.data + Crlf(rest));
    ReceiveAll(counting, k.data, Crlf(rest));
    AfterData(Receive(counting, k.data).(state := ChunkDataNewLine_1), rest);
  }

  // ---- the trailers ------------------------------------------------------------------------------

  lemma TrailerNameSteps(c: Snapshot, b: char)
    requires AtTrailers(c)
    ensures IsAlpha(b) ==> Step(c, b) == (ParsingIncompleted, c.(state := ChunkTrailerName))
    ensures !IsAlpha(b) && b != '\r' ==> Step(c, b).0 == ParsingError
    ensures Step(c.(state := ChunkTrailerName), ':') == (ParsingIncompleted, c.(state := ChunkTrailerValue))
    ensures !IsAlnum(b) && b != ':' ==> Step(c.(state := ChunkTrailerName), b).0 == ParsingError
  {
  }

  lemma TrailerValueSteps(c: Snapshot, b: char)
    requires AtTrailers(c)
    ensures Step(c.(state := ChunkTrailerValue), '\r') == (ParsingIncompleted, c.(state := ChunkSizeNewLine))
    ensures !IsSkipped(b) && b != '\r' ==> Step(c.(state := ChunkTrailerValue), b).0 == ParsingError
  {
  }

  /** The end of a trailer line is read like the end of a size line with an empty token. */
  lemma TrailerEndSteps(c: Snapshot)
    requires AtTrailers(c)
    ensures Step(c, '\r') == (ParsingIncompleted, c.(state := ChunkSizeNewLine_3))
    ensures Step(c.(state := ChunkSizeNewLine), '\n') == (ParsingIncompleted, c)
    ensures Step(c.(state := ChunkSizeNewLine_3), '\n') == (ParsingCompleted, c.(state := ChunkSizeNewLine_3))
  {
    EmptySize();
    hide Strtol;
  }

  lemma EmptySize()
    ensures Strtol("", 16) == 0
  {
  }

  lemma TrailerValueRun(c: Snapshot, value: string, rest: string)
    requires AtTrailers(c) && AllSkipped(value)
    ensures Run(c.(state := ChunkTrailerValue), value + Crlf(rest)) == Run(c, rest)
  {
    hide Step, Run, AllSkipped;
    var valuing := c.(state := ChunkTrailerValue);
    SkippedIsAbsorbed(valuing, value);
    TrailerValueSteps(c, '\r');
    TrailerEndSteps(c);
    AbsorbThenStep(valuing, value, '\r', ['\n'] + rest);
    RunStep(c.(state := ChunkSizeNewLine), '\n', rest);
  }

  lemma TrailerRun(c: Snapshot, t: Trailer, rest: string)
    requires AtTrailers(c) && TrailerOk(t)
    ensures Run(c, TrailerText(t, rest)) == Run(c, rest)
  {
    hide Step, Run, AllSkipped;
    var name, tail := t.name[1..], t.value + Crlf(rest);
    TrailerNameSteps(c, t.name[0]);
    RunStep(c, t.name[0], name + ([':'] + tail));
    AbsorbThenStep(c.(state := ChunkTrailerName), name, ':', tail);
    TrailerValueRun(c, t.value, rest);
    assert TrailerText(t, rest) == [t.name[0]] + (name + ([':'] + tail));
  }

  lemma {:induction false} TrailersRun(c: Snapshot, trailers: seq<Trailer>, rest: string)
    requires AtTrailers(c) && forall i :: 0 <= i < |trailers| ==> TrailerOk(trailers[i])
    ensures Run(c, TrailersText(trailers, Crlf(rest))) ==
              Outcome(ParsingCompleted, c.(state := ChunkSizeNewLine_3), rest)
    decreases |trailers|
  {
    hide Step, Run;
    if trailers == [] {
      TrailerEndSteps(c);
      RunStep(c, '\r', ['\n'] + rest);
      RunStep(c.(state := ChunkSizeNewLine_3), '\n', rest);
    } else {
      TrailersRun(c, trailers[1..], rest);
      TrailerRun(c, trailers[0], TrailersText(trailers[1..], Crlf(rest)));
    }
  }

  lemma TrailerSplit(c: Snapshot, s: string) returns (t: Trailer, rest: string)
    requires AtTrailers(c) && Run(c, s).result == ParsingCompleted && s[0] != '\r'
    ensures TrailerOk(t) && s == TrailerText(t, rest)
  {
    hide Step, Run;
    var b, more := Take(c, s);
    TrailerNameSteps(c, b);
    var name, colon, more' := Leave(c.(state := ChunkTrailerName), more);
    TrailerNameSteps(c, colon);
    var value;
    value, rest := TrailerValueSplit(c, more');
    t := Trailer([b] + name, value);
    assert [b] + (name + ([':'] + (value + Crlf(rest)))) == TrailerText(t, rest);
  }

  lemma TrailerValueSplit(c: Snapshot, s: string) returns (value: string, rest: string)
    requires AtTrailers(c) && Run(c.(state := ChunkTrailerValue), s).result == ParsingCompleted
    ensures AllSkipped(value) && s == value + Crlf(rest)
  {
    hide Step, Run;
    var b, more;
    value, b, more := Leave(c.(state := ChunkTrailerValue), s);
    TrailerValueSteps(c, b);
    rest := Expect(c.(state := ChunkSizeNewLine), more);
  }

  lemma {:induction false} TrailersSplit(c: Snapshot, s: string) returns (trailers: seq<Trailer>, rest: string)
    requires AtTrailers(c) && Run(c, s).result == ParsingCompleted
    ensures forall i :: 0 <= i < |trailers| ==> TrailerOk(trailers[i])
    ensures s == TrailersText(trailers, Crlf(rest))
    decreases |s|
  {
    hide Step, Run;
    var b, more := Take(c, s);
    if b == '\r' {
      TrailerEndSteps(c);
      rest := Expect(c.(state := ChunkSizeNewLine_3), more);
      trailers := [];
    } else {
      var t, tail := TrailerSplit(c, s);
      TrailerRun(c, t, tail);
      var others;
      others, rest := TrailersSplit(c, tail);
      trailers := [t] + others;
    }
  }

  // ---- the whole body ----------------------------------------------------------------------------

  lemma LastChunkRun(c: Snapshot, l: SizeLine, trailers: seq<Trailer>, rest: string)
    requires AtChunkSize(c) && |c.content| <= MAX_SIZE && SizeLineOk(l) && Strtol(l.token, 16) == 0
    requires forall i :: 0 <= i < |trailers| ==> TrailerOk(trailers[i])
    ensures Run(c, SizeLineText(l, TrailersText(trailers, Crlf(rest)))) ==
              Outcome(ParsingCompleted, c.(state := ChunkSizeNewLine_3, chunkSize := 0), rest)
  {
    hide Run, Step, After, SizeLineText, TrailersText;
    var tail := TrailersText(trailers, Crlf(rest));
    SizeLineRun(c, l, tail);
    EndOfSizeLine(c, l.token, tail);
    TrailersRun(c.(state := ChunkSizeNewLine_2, chunkSize := 0), trailers, rest);
  }

  /** Completeness: every chunked body is accepted up to its last byte, whatever its partition, extensions and
      trailers, and its data is appended. */
  lemma {:induction false} ChunkedComplete(c: Snapshot, b: ChunkedBody, rest: string)
    requires AtChunkSize(c) && ChunkedOk(b) && |c.content| + |Data(b.chunks)| <= MAX_SIZE
    ensures Run(c, ChunkedText(b, rest)) == Outcome(ParsingCompleted, AfterChunked(c, b), rest)
    decreases |b.chunks|
  {
    hide Run, ChunkOk, SizeLineOk, TrailerOk, SizeLineText, TrailersText;
    if b.chunks == [] {
      LastChunkRun(c, b.last, b.trailers, rest);
      assert c.content + Data(b.chunks) == c.content;
    } else {
      var k, others := b.chunks[0], b.(chunks := b.chunks[1..]);
      var next := c.(content := c.content + k.data, chunkSize := 0);
      ChunkRun(c, k, ChunkedText(others, rest));
      assert next.content + Data(others.chunks) == c.content + Data(b.chunks);
      ChunkedComplete(next, others, rest);
    }
  }

  lemma AfterDataSplit(c: Snapshot, s: string) returns (rest: string)
    requires c.state.ChunkDataNewLine_1? && Run(c, s).result == ParsingCompleted
    ensures s == Crlf(rest)
  {
    hide Run, Step;
    AfterDataStep(c);
    var tail := Expect(c, s);
    rest := Expect(c.(state := ChunkDataNewLine_2), tail);
  }

  /** A chunk of positive size at the head of a run that completes. */
  lemma ChunkSplit(c: Snapshot, l: SizeLine, more: string) returns (k: Chunk, rest: string)
    requires AtChunkSize(c) && |c.content| <= MAX_SIZE && SizeLineOk(l) && Strtol(l.token, 16) > 0
    requires Run(c, SizeLineText(l, more)).result == ParsingCompleted
    ensures ChunkOk(k) && k.size == l && more == k.data + Crlf(rest)
    ensures |c.content| + |k.data| <= MAX_SIZE
  {
    hide Run, Step, After;
    var size := Strtol(l.token, 16);
    SizeLineRun(c, l, more);
    EndOfSizeLine(c, l.token, more);
    var counting := c.(state := ChunkData, chunkSize := size);
    ReceivesAll(counting, more);
    var data, tail := more[..size], more[size..];
    assert more == data + tail;
    ReceiveAll(counting, data, tail);
    rest := AfterDataSplit(Receive(counting, data).(state := ChunkDataNewLine_1), tail);
    k := Chunk(l, data);
  }

  /** Soundness: a run that completes has consumed a chunked body. */
  lemma {:induction false} ChunkedSound(c: Snapshot, s: string) returns (b: ChunkedBody, rest: string)
    requires AtChunkSize(c) && |c.content| <= MAX_SIZE && Run(c, s).result == ParsingCompleted
    ensures ChunkedOk(b) && |c.content| + |Data(b.chunks)| <= MAX_SIZE
    ensures s == ChunkedText(b, rest)
    decreases |s|
  {
    hide Run, Step, After;
    var l, more := SizeLineSplit(c, s);
    if Strtol(l.token, 16) == 0 {
      SizeLineRun(c, l, more);
      EndOfSizeLine(c, l.token, more);
      var trailers;
      trailers, rest := TrailersSplit(c.(state := ChunkSizeNewLine_2, chunkSize := 0), more);
      b := ChunkedBody([], l, trailers);
    } else {
      EndOfSizeLine(c, l.token, more);
      var k, tail := ChunkSplit(c, l, more);
      ChunkRun(c, k, tail);
      var others;
      others, rest := ChunkedSound(c.(content := c.content + k.data, chunkSize := 0), tail);
      b := others.(chunks := [k] + others.chunks);
    }
  }
}
