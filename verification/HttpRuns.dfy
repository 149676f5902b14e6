/** What holds of every run of the response parser: feeding in fragments, the invariants of its states, and
    where the body bytes go. */
module HttpRuns {
  import opened Text
  import opened HttpParser

  // ---- streaming ---------------------------------------------------------------------------------

  /** One call on `a + b` is a call on `a` followed, while incomplete, by a call on `b`. */
  lemma {:induction false} RunAppend(c: Snapshot, a: string, b: string)
    requires HasOpenHeader(c)
    ensures var o := Run(c, a);
            Run(c, a + b) ==
              if o.result == ParsingIncompleted then Run(o.end, b) else o.(rest := o.rest + b)
    decreases |a|
  {
    if a == "" {
      assert a + b == b;
    } else {
      assert (a + b)[1..] == a[1..] + b;
      var (result, next) := Step(c, a[0]);
      if result == ParsingIncompleted {
        RunAppend(next, a[1..], b);
      }
    }
  }

  function Concat(fragments: seq<string>): string {
    if fragments == [] then "" else fragments[0] + Concat(fragments[1..])
  }

  /** What a caller does with a connection: parse fragment after fragment while the result is incomplete. */
  function Feed(c: Snapshot, fragments: seq<string>): (o: Outcome)
    requires HasOpenHeader(c)
    ensures HasOpenHeader(o.end)
    decreases |fragments|
  {
    if fragments == [] then Outcome(ParsingIncompleted, c, "")
    else
      var o := Run(c, fragments[0]);
      if o.result == ParsingIncompleted then Feed(o.end, fragments[1..])
      else o.(rest := o.rest + Concat(fragments[1..]))
  }

  /** However the bytes are cut into fragments, result, response, parser state and unread bytes are those of one
      call on the whole string. */
  lemma {:induction false} Streaming(c: Snapshot, fragments: seq<string>)
    requires HasOpenHeader(c)
    ensures Feed(c, fragments) == Run(c, Concat(fragments))
    decreases |fragments|
  {
    if fragments != [] {
      RunAppend(c, fragments[0], Concat(fragments[1..]));
      var o := Run(c, fragments[0]);
      if o.result == ParsingIncompleted {
        Streaming(o.end, fragments[1..]);
      }
    }
  }

  /** A connection loop over the classes: each fragment is handed to the same parser and response. */
  method ParseFragments(parser: HttpResponseParser, resp: Response, fragments: seq<string>)
    returns (result: ParseResult)
    requires HasOpenHeader(parser.View(resp))
    modifies parser, resp
    ensures result == Run(old(parser.View(resp)), Concat(fragments)).result
    ensures parser.View(resp) == Run(old(parser.View(resp)), Concat(fragments)).end
  {
    ghost var start := parser.View(resp);
    Streaming(start, fragments);
    var i := 0;
    result := ParsingIncompleted;
    while i < |fragments| && result == ParsingIncompleted
      invariant 0 <= i <= |fragments|
      invariant HasOpenHeader(parser.View(resp))
      invariant result == ParsingIncompleted ==>
                  Feed(start, fragments) == Feed(parser.View(resp), fragments[i..])
      invariant result != ParsingIncompleted ==>
                  result == Feed(start, fragments).result && parser.View(resp) == Feed(start, fragments).end
    {
      assert fragments[i..][0] == fragments[i] && fragments[i..][1..] == fragments[i + 1..];
      result := parser.Parse(resp, fragments[i]);
      i := i + 1;
    }
  }

  /** A response read from a connection by a new parser: what the theorems about `Initial` say holds of it. */
  method ReadResponse(fragments: seq<string>) returns (result: ParseResult, resp: Response)
    ensures var o := Run(Initial, Concat(fragments));
            && result == o.result
            && resp.versionMajor == o.end.versionMajor && resp.versionMinor == o.end.versionMinor
            && resp.statusCode == o.end.statusCode && resp.status == o.end.status
            && resp.headers == o.end.headers && resp.content == o.end.content && resp.keepAlive == o.end.keepAlive
  {
    var parser := new HttpResponseParser();
    resp := new Response();
    result := ParseFragments(parser, resp, fragments);
  }

  // ---- invariant ---------------------------------------------------------------------------------

  predicate InChunkSizeLine(s: State) {
    s.ChunkSize? || s.ChunkExtensionName? || s.ChunkExtensionValue? || s.ChunkSizeNewLine?
  }

  predicate AfterStatusCode(s: State) {
    s.ResponseHttpVersion_statusTextStart? || s.ResponseHttpVersion_statusText? || s.ResponseHttpVersion_newLine?
    || !InStatusLine(s)
  }

  /** The states a run from a new parser can be in between two calls. */
  predicate Consistent(c: Snapshot) {
    && HasOpenHeader(c)
    && (c.state.Post? ==> c.contentSize >= 1)
    && (c.state.ChunkData? ==> c.chunkSize >= 1)
    && (!c.state.ChunkData? ==> c.chunkSize == 0)
    && (!InChunkSizeLine(c.state) ==> c.chunkSizeStr == "")
    && AllAlnum(c.chunkSizeStr)
    && (AfterStatusCode(c.state) ==>
          100 <= c.statusCode <= 999 && (c.status == "" ==> c.state.ResponseHttpVersion_statusTextStart?))
    && c.contentSize <= MAX_SIZE
    && c.chunkSize <= MAX_SIZE
    && (!InStatusLine(c.state) && !InHeader(c.state) ==> (c.chunked <==> !c.state.Post?))
  }

  lemma StatusLineConsistent(c: Snapshot, b: char)
    requires Consistent(c) && InStatusLine(c.state) && StepStatusLine(c, b).0 == ParsingIncompleted
    ensures Consistent(StepStatusLine(c, b).1)
  {
    hide AllAlnum, IsSpace, IsAlpha;
  }

  lemma EndOfValueConsistent(c: Snapshot, b: char)
    requires Consistent(c) && c.state.HeaderValue? && StepHeader(c, b).0 == ParsingIncompleted
    ensures Consistent(StepHeader(c, b).1)
  {
  }

  lemma HeaderConsistent(c: Snapshot, b: char)
    requires Consistent(c) && InHeader(c.state) && StepHeader(c, b).0 == ParsingIncompleted
    ensures Consistent(StepHeader(c, b).1)
  {
    if c.state.HeaderValue? {
      EndOfValueConsistent(c, b);
    }
  }

  /** The size token has no sign, so the chunk size is not negative. */
  lemma ChunkSizeInRange(c: Snapshot)
    requires AllAlnum(c.chunkSizeStr)
    ensures 0 <= Strtol(c.chunkSizeStr, 16) == ToSizeT(Strtol(c.chunkSizeStr, 16)) <= MAX_SIZE
  {
    assert SkipSpace(c.chunkSizeStr) == c.chunkSizeStr;
  }

  lemma BodyConsistent(c: Snapshot, b: char)
    requires Consistent(c) && !InStatusLine(c.state) && !InHeader(c.state) && StepBody(c, b).0 == ParsingIncompleted
    ensures Consistent(StepBody(c, b).1)
  {
    match c.state
    case Post =>
    case ChunkSize =>
    case ChunkExtensionName =>
    case ChunkExtensionValue =>
    case ChunkSizeNewLine => ChunkSizeInRange(c);
    case ChunkSizeNewLine_2 =>
    case ChunkSizeNewLine_3 =>
    case ChunkTrailerName =>
    case ChunkTrailerValue =>
    case ChunkDataNewLine_1 =>
    case ChunkDataNewLine_2 =>
    case ChunkData =>
  }

  lemma StepConsistent(c: Snapshot, b: char)
    requires Consistent(c) && Step(c, b).0 == ParsingIncompleted
    ensures Consistent(Step(c, b).1)
  {
    if InStatusLine(c.state) {
      StatusLineConsistent(c, b);
    } else if InHeader(c.state) {
      HeaderConsistent(c, b);
    } else {
      BodyConsistent(c, b);
    }
  }

  /** Every state reached by incomplete calls is consistent: no `headers.back()` on an empty vector, and neither
      `--contentSize` nor `--chunkSize` ever starts from zero. */
  lemma {:induction false} RunConsistent(c: Snapshot, s: string)
    requires Consistent(c) && Run(c, s).result == ParsingIncompleted
    ensures Consistent(Run(c, s).end)
    decreases |s|
  {
    if s != "" {
      StepConsistent(c, s[0]);
      RunConsistent(Step(c, s[0]).1, s[1..]);
    }
  }

  lemma ReachableConsistent(s: string)
    requires Run(Initial, s).result == ParsingIncompleted
    ensures Consistent(Run(Initial, s).end)
  {
    RunConsistent(Initial, s);
  }

  // ---- the announced length ----------------------------------------------------------------------

  predicate IsContentLength(h: HeaderItem) { EqualIgnoringCase(h.name, "Content-Length") }

  /** The value of the last Content-Length header, or nothing. */
  function LengthText(headers: seq<HeaderItem>): string {
    if headers == [] then ""
    else if IsContentLength(Back(headers)) then Back(headers).value
    else LengthText(headers[..|headers| - 1])
  }

  /** What the parser makes of it. */
  function LengthRead(headers: seq<HeaderItem>): nat { ToSizeT(Atoi(LengthText(headers))) }

  lemma LengthTextSnoc(headers: seq<HeaderItem>, h: HeaderItem)
    ensures LengthText(headers + [h]) == if IsContentLength(h) then h.value else LengthText(headers)
  {
    assert (headers + [h])[..|headers|] == headers;
  }

  /** Up to the blank line the counter is what was read from the last Content-Length header; a header whose line is
      not finished does not count yet. */
  ghost predicate CounterIsLength(c: Snapshot)
    requires HasOpenHeader(c)
  {
    if InStatusLine(c.state) then c.headers == [] && c.contentSize == 0
    else if c.state.HeaderName? || c.state.SpaceBeforeHeaderValue? then
      c.contentSize == LengthRead(c.headers[..|c.headers| - 1])
    else if c.state.HeaderValue? then
      !IsContentLength(Back(c.headers)) ==> c.contentSize == LengthRead(c.headers[..|c.headers| - 1])
    else InHeader(c.state) ==> c.contentSize == LengthRead(c.headers)
  }

  lemma NoLength()
    ensures LengthRead([]) == 0
  {
    assert SkipSpace("") == "" && Magnitude("", 10, 0) == 0;
  }

  lemma EndOfHeaderLength(c: Snapshot)
    requires |c.headers| > 0
    requires !IsContentLength(Back(c.headers)) ==> c.contentSize == LengthRead(c.headers[..|c.headers| - 1])
    ensures Evaluate(c).1.contentSize == LengthRead(c.headers)
  {
    assert c.headers == c.headers[..|c.headers| - 1] + [Back(c.headers)];
    LengthTextSnoc(c.headers[..|c.headers| - 1], Back(c.headers));
    hide Atoi;
  }

  lemma StatusLineKeepsCounter(c: Snapshot, b: char)
    requires InStatusLine(c.state) && c.headers == [] && c.contentSize == 0
    requires StepStatusLine(c, b).0 == ParsingIncompleted
    ensures var next := StepStatusLine(c, b).1;
            next.headers == [] && next.contentSize == 0 && (InStatusLine(next.state) || next.state.HeaderLineStart?)
  {
    hide IsDigit, IsChar, ShiftInt, ShiftUnsigned;
  }

  lemma ContinuedKeepsCounter(c: Snapshot, b: char)
    requires c.state.HeaderLws? && HasOpenHeader(c) && CounterIsLength(c) && StepHeader(c, b).0 == ParsingIncompleted
    ensures CounterIsLength(StepHeader(c, b).1)
  {
    hide EqualIgnoringCase, LengthRead, IsControl;
    var n := |c.headers|;
    var v := AppendToValue(c.headers, [b]);
    assert v[..n - 1] == c.headers[..n - 1] && Back(v).name == Back(c.headers).name;
    assert c.headers == c.headers[..n - 1] + [Back(c.headers)];
    if !IsContentLength(Back(c.headers)) {
      SameLength(c.headers[..n - 1], Back(c.headers));
    }
  }

  lemma ValueKeepsCounter(c: Snapshot, b: char)
    requires c.state.HeaderValue? && HasOpenHeader(c) && CounterIsLength(c) && StepHeader(c, b).0 == ParsingIncompleted
    ensures CounterIsLength(StepHeader(c, b).1)
  {
    hide Evaluate, EqualIgnoringCase, LengthRead, IsControl;
    var n := |c.headers|;
    assert AppendToValue(c.headers, [b])[..n - 1] == c.headers[..n - 1];
    assert Back(AppendToValue(c.headers, [b])).name == Back(c.headers).name;
    EndOfHeaderLength(c);
  }

  lemma NameKeepsCounter(c: Snapshot, b: char)
    requires c.state.HeaderLineStart? || c.state.HeaderName? || c.state.SpaceBeforeHeaderValue?
    requires HasOpenHeader(c) && CounterIsLength(c) && StepHeader(c, b).0 == ParsingIncompleted
    ensures CounterIsLength(StepHeader(c, b).1)
  {
    hide IsContentLength, LengthRead, IsNameChar;
    var n := |c.headers|;
    assert (c.headers + [HeaderItem([b], "")])[..n] == c.headers;
    if c.state.HeaderName? {
      assert AppendToName(c.headers, [b])[..n - 1] == c.headers[..n - 1];
    }
  }

  lemma NewlineKeepsCounter(c: Snapshot, b: char)
    requires c.state.ExpectingNewline_2? || c.state.ExpectingNewline_3?
    requires HasOpenHeader(c) && CounterIsLength(c) && StepHeader(c, b).0 == ParsingIncompleted
    ensures CounterIsLength(StepHeader(c, b).1)
  {
    hide LengthRead, KeepAlive;
  }

  lemma HeaderKeepsCounter(c: Snapshot, b: char)
    requires InHeader(c.state) && HasOpenHeader(c) && CounterIsLength(c) && StepHeader(c, b).0 == ParsingIncompleted
    ensures CounterIsLength(StepHeader(c, b).1)
  {
    hide CounterIsLength, StepHeader;
    if c.state.HeaderLws? {
      ContinuedKeepsCounter(c, b);
    } else if c.state.HeaderValue? {
      ValueKeepsCounter(c, b);
    } else if c.state.ExpectingNewline_2? || c.state.ExpectingNewline_3? {
      NewlineKeepsCounter(c, b);
    } else {
      NameKeepsCounter(c, b);
    }
  }

  lemma BodyStays(c: Snapshot, b: char)
    requires !InStatusLine(c.state) && !InHeader(c.state)
    ensures !InStatusLine(StepBody(c, b).1.state) && !InHeader(StepBody(c, b).1.state)
  {
    hide Strtol, IsAlnum, IsAlpha, Decrement, ToSizeT;
    var next := StepBody(c, b).1.state;
    assert next == c.state || InBody(next) by {
      hide InStatusLine, InHeader;
      NextInBody(c, b);
    }
  }

  predicate InBody(s: State) {
    || s.Post? || s.ChunkSize? || s.ChunkExtensionName? || s.ChunkExtensionValue? || s.ChunkSizeNewLine?
    || s.ChunkSizeNewLine_2? || s.ChunkSizeNewLine_3? || s.ChunkTrailerName? || s.ChunkTrailerValue?
    || s.ChunkData? || s.ChunkDataNewLine_1? || s.ChunkDataNewLine_2?
  }

  lemma NextInBody(c: Snapshot, b: char)
    requires !InStatusLine(c.state) && !InHeader(c.state)
    ensures StepBody(c, b).1.state == c.state || InBody(StepBody(c, b).1.state)
  {
    hide InBody;
    InBodyStates();
  }

  lemma InBodyStates()
    ensures InBody(ChunkExtensionName) && InBody(ChunkExtensionValue) && InBody(ChunkSizeNewLine)
    ensures InBody(ChunkSizeNewLine_2) && InBody(ChunkSizeNewLine_3) && InBody(ChunkTrailerName)
    ensures InBody(ChunkTrailerValue) && InBody(ChunkData) && InBody(ChunkDataNewLine_1)
    ensures InBody(ChunkDataNewLine_2) && InBody(ChunkSize)
  {
  }

  lemma StepKeepsCounter(c: Snapshot, b: char)
    requires HasOpenHeader(c) && CounterIsLength(c) && Step(c, b).0 == ParsingIncompleted
    ensures CounterIsLength(Step(c, b).1)
  {
    hide StepStatusLine, StepHeader, StepBody, Atoi;
    NoLength();
    if InStatusLine(c.state) {
      StatusLineKeepsCounter(c, b);
    } else if InHeader(c.state) {
      HeaderKeepsCounter(c, b);
    } else {
      BodyStays(c, b);
    }
  }

  lemma SameLength(headers: seq<HeaderItem>, h: HeaderItem)
    requires !IsContentLength(h)
    ensures LengthRead(headers + [h]) == LengthRead(headers)
  {
    LengthTextSnoc(headers, h);
  }

  // ---- conservation of body bytes ----------------------------------------------------------------

  /** Body bytes received plus body bytes still owed. */
  function Account(c: Snapshot): nat {
    |c.content| + (if c.state.Post? then c.contentSize else c.chunkSize)
  }

  /** What a step adds to the account: the counter when a sized body begins, the size of each chunk when its size
      line ends, nothing otherwise. */
  function Counted(c: Snapshot, b: char): nat {
    if c.state.ExpectingNewline_3? && !c.chunked then c.contentSize
    else if c.state.ChunkSizeNewLine? && b == '\n' then ToSizeT(Strtol(c.chunkSizeStr, 16))
    else 0
  }

  function TotalCounted(c: Snapshot, s: string): nat
    requires HasOpenHeader(c)
    decreases |s|
  {
    if s == "" then 0
    else
      var (result, next) := Step(c, s[0]);
      Counted(c, s[0]) + (if result == ParsingIncompleted then TotalCounted(next, s[1..]) else 0)
  }

  /** The number that stands in the message at that place, whatever its size: in the last Content-Length header, or in
      the size line. */
  function Announced(c: Snapshot, b: char): int {
    if c.state.ExpectingNewline_3? && !c.chunked then Number(LengthText(c.headers), 10)
    else if c.state.ChunkSizeNewLine? && b == '\n' then Number(c.chunkSizeStr, 16)
    else 0
  }

  function TotalAnnounced(c: Snapshot, s: string): int
    requires HasOpenHeader(c)
    decreases |s|
  {
    if s == "" then 0
    else
      var (result, next) := Step(c, s[0]);
      Announced(c, s[0]) + (if result == ParsingIncompleted then TotalAnnounced(next, s[1..]) else 0)
  }

  /** The number is one that the code can hold: a Content-Length in an `int`, a chunk size in a `long`. */
  predicate Holdable(c: Snapshot, b: char) {
    if c.state.ExpectingNewline_3? && !c.chunked then 0 <= Announced(c, b) < TWO_31
    else Announced(c, b) < TWO_63
  }

  predicate AllHoldable(c: Snapshot, s: string)
    requires HasOpenHeader(c)
    decreases |s|
  {
    s == "" ||
    (&& Holdable(c, s[0])
     && (Step(c, s[0]).0 == ParsingIncompleted ==> AllHoldable(Step(c, s[0]).1, s[1..])))
  }

  lemma HeaderConserves(c: Snapshot, b: char)
    requires Consistent(c) && InHeader(c.state)
    requires StepHeader(c, b).0 == ParsingIncompleted || StepHeader(c, b).0 == ParsingCompleted
    ensures Account(StepHeader(c, b).1) == Account(c) + Counted(c, b)
  {
  }

  lemma BodyConserves(c: Snapshot, b: char)
    requires Consistent(c) && !InStatusLine(c.state) && !InHeader(c.state)
    requires StepBody(c, b).0 == ParsingIncompleted || StepBody(c, b).0 == ParsingCompleted
    ensures Account(StepBody(c, b).1) == Account(c) + Counted(c, b)
  {
    hide Strtol, KeepAlive, AllAlnum;
    match c.state
    case Post =>
    case ChunkSizeNewLine => ChunkSizeInRange(c);
    case ChunkData =>
    case _ =>
  }

  lemma StatusLineConserves(c: Snapshot, b: char)
    requires InStatusLine(c.state)
    requires StepStatusLine(c, b).0 == ParsingIncompleted || StepStatusLine(c, b).0 == ParsingCompleted
    ensures Account(StepStatusLine(c, b).1) == Account(c) + Counted(c, b)
  {
  }

  lemma StepConserves(c: Snapshot, b: char)
    requires Consistent(c) && (Step(c, b).0 == ParsingIncompleted || Step(c, b).0 == ParsingCompleted)
    ensures Account(Step(c, b).1) == Account(c) + Counted(c, b)
  {
    hide Consistent, Account, Counted, StepBody, StepHeader, StepStatusLine;
    if InStatusLine(c.state) {
      StatusLineConserves(c, b);
    } else if InHeader(c.state) {
      HeaderConserves(c, b);
    } else {
      BodyConserves(c, b);
    }
  }

  /** The parser throws exactly where it asks for room: at the end of a Content-Length header that `atoi` makes
      negative, and at the end of a size line whose chunk does not fit beside the content. */
  lemma ThrowsExactly(c: Snapshot, b: char)
    requires Consistent(c) && |c.content| <= MAX_SIZE
    ensures Step(c, b).0 == LengthError <==>
            || (c.state.HeaderValue? && b == '\r'
                && IsContentLength(Back(c.headers)) && Atoi(Back(c.headers).value) < 0)
            || (c.state.ChunkSizeNewLine? && b == '\n' && |c.content| + Strtol(c.chunkSizeStr, 16) > MAX_SIZE)
  {
    hide KeepAlive, EqualIgnoringCase, Strtol, Atoi;
    if c.state.ChunkSizeNewLine? {
      ChunkSizeInRange(c);
    }
    if c.state.HeaderValue? {
      AtoiInRange(Back(c.headers).value);
    }
  }

  predicate GoesOn(r: ParseResult) { r == ParsingIncompleted || r == ParsingCompleted }

  lemma {:induction false} CountedConservation(c: Snapshot, s: string)
    requires Consistent(c) && GoesOn(Run(c, s).result)
    ensures Account(Run(c, s).end) == Account(c) + TotalCounted(c, s)
    decreases |s|
  {
    hide Account, Counted, AllAlnum, AfterStatusCode;
    if s != "" {
      StepConserves(c, s[0]);
      if Step(c, s[0]).0 == ParsingIncompleted {
        StepConsistent(c, s[0]);
        CountedConservation(Step(c, s[0]).1, s[1..]);
      }
    }
  }

  /** What is counted at one place is the number that stands there if and only if the code can hold it. */
  lemma LengthCounted(c: Snapshot, b: char)
    requires Consistent(c) && CounterIsLength(c) && c.state.ExpectingNewline_3?
    ensures Announced(c, b) == Counted(c, b) <==> Holdable(c, b)
  {
    hide Number, Atoi;
    AtoiExact(LengthText(c.headers));
    AtoiInRange(LengthText(c.headers));
  }

  lemma AtoiInRange(s: string)
    ensures -TWO_31 <= Atoi(s) < TWO_31
  {
  }

  lemma ChunkCounted(c: Snapshot, b: char)
    requires Consistent(c) && !InStatusLine(c.state) && !InHeader(c.state)
    ensures Counted(c, b) <= Announced(c, b)
    ensures Counted(c, b) == Announced(c, b) <==> Holdable(c, b)
  {
    if c.state.ChunkSizeNewLine? {
      ChunkSizeInRange(c);
      hide Number;
    }
  }

  lemma {:induction false} SizedTotals(c: Snapshot, s: string)
    requires Consistent(c) && c.state.Post?
    ensures TotalAnnounced(c, s) == 0 == TotalCounted(c, s) && AllHoldable(c, s)
    decreases |s|
  {
    hide Number, Strtol;
    if s != "" && Step(c, s[0]).0 == ParsingIncompleted {
      StepConsistent(c, s[0]);
      SizedTotals(Step(c, s[0]).1, s[1..]);
    }
  }

  lemma {:induction false} BodyTotals(c: Snapshot, s: string)
    requires Consistent(c) && !InStatusLine(c.state) && !InHeader(c.state)
    ensures TotalCounted(c, s) <= TotalAnnounced(c, s)
    ensures TotalCounted(c, s) == TotalAnnounced(c, s) <==> AllHoldable(c, s)
    decreases |s|
  {
    hide Counted, Announced, Holdable, StepBody, AllAlnum, AfterStatusCode, HasOpenHeader;
    if s != "" {
      ChunkCounted(c, s[0]);
      if Step(c, s[0]).0 == ParsingIncompleted {
        StepConsistent(c, s[0]);
        BodyStays(c, s[0]);
        BodyTotals(Step(c, s[0]).1, s[1..]);
      }
    }
  }

  lemma BeforeBody(c: Snapshot, b: char)
    requires HasOpenHeader(c) && (InStatusLine(c.state) || InHeader(c.state))
    ensures c.state.ExpectingNewline_3? && Step(c, b).0 == ParsingIncompleted ==>
              (if c.chunked then !InStatusLine(Step(c, b).1.state) && !InHeader(Step(c, b).1.state)
               else Step(c, b).1.state.Post?)
    ensures !c.state.ExpectingNewline_3? || c.chunked ==>
              Counted(c, b) == 0 == Announced(c, b) && Holdable(c, b)
  {
    hide KeepAlive, Evaluate;
  }

  lemma {:induction false} RunTotals(c: Snapshot, s: string)
    requires Consistent(c) && CounterIsLength(c)
    ensures TotalCounted(c, s) == TotalAnnounced(c, s) <==> AllHoldable(c, s)
    decreases |s|
  {
    assert HasOpenHeader(c);
    hide Consistent, CounterIsLength, Counted, Announced, Holdable, InStatusLine, InHeader, Step, HasOpenHeader;
    if !InStatusLine(c.state) && !InHeader(c.state) {
      BodyTotals(c, s);
    } else if s != "" {
      var (result, next) := Step(c, s[0]);
      BeforeBody(c, s[0]);
      if result == ParsingIncompleted {
        StepConsistent(c, s[0]);
      }
      if c.state.ExpectingNewline_3? && !c.chunked {
        LengthCounted(c, s[0]);
        if result == ParsingIncompleted {
          SizedTotals(next, s[1..]);
        }
      } else if result == ParsingIncompleted {
        StepKeepsCounter(c, s[0]);
        RunTotals(next, s[1..]);
      }
    }
  }

  /** Over a whole run, bytes received plus bytes owed grow by exactly the numbers that the message announces, if and
      only if every one of them is one that the code can hold: below 2^31 and not negative for a Content-Length, below
      2^63 for a chunk. */
  lemma Conservation(c: Snapshot, s: string)
    requires Consistent(c) && CounterIsLength(c) && GoesOn(Run(c, s).result)
    ensures Account(Run(c, s).end) == Account(c) + TotalAnnounced(c, s) <==> AllHoldable(c, s)
  {
    CountedConservation(c, s);
    RunTotals(c, s);
  }

  /** In particular the content of a completed response is as long as the message announces, if and only if the code
      can hold every number in it. */
  lemma CompletedContentLength(s: string)
    requires Run(Initial, s).result == ParsingCompleted
    ensures |Run(Initial, s).end.content| == TotalAnnounced(Initial, s) <==> AllHoldable(Initial, s)
  {
    Conservation(Initial, s);
    CompletedOwesNothing(Initial, s);
  }

  lemma {:induction false} CompletedOwesNothing(c: Snapshot, s: string)
    requires Consistent(c) && Run(c, s).result == ParsingCompleted
    ensures Account(Run(c, s).end) == |Run(c, s).end.content|
    decreases |s|
  {
    var (result, next) := Step(c, s[0]);
    if result == ParsingIncompleted {
      StepConsistent(c, s[0]);
      CompletedOwesNothing(next, s[1..]);
    }
  }

  // ---- no second message -------------------------------------------------------------------------

  /** The parser is not reset by completion: after a sized body its counter is zero, and the next byte wraps it
      round instead of starting a new message. */
  lemma NotReusable(c: Snapshot, b: char, next: char)
    requires Consistent(c) && c.state.Post? && Step(c, b).0 == ParsingCompleted
    ensures var done := Step(c, b).1;
            Step(done, next) ==
              (ParsingIncompleted, done.(contentSize := TWO_64 - 1, content := done.content + [next]))
  {
  }
}
