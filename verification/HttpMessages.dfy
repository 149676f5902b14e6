/** Whole messages: a new parser completes on exactly the texts of the grammar, and what it leaves behind is the
    meaning of the message. */
module HttpMessages {
  import opened Text
  import opened HttpParser
  import opened HttpGrammar
  import opened HttpWalk
  import opened HttpChunked

  // ---- the status line ---------------------------------------------------------------------------

  lemma ProtocolSteps(c: Snapshot)
    requires c.state.ResponseStatusStart?
    ensures Step(c, 'H') == (ParsingIncompleted, c.(state := ResponseHttpVersion_ht))
    ensures Step(c.(state := ResponseHttpVersion_ht), 'T') == (ParsingIncompleted, c.(state := ResponseHttpVersion_htt))
    ensures Step(c.(state := ResponseHttpVersion_htt), 'T') ==
              (ParsingIncompleted, c.(state := ResponseHttpVersion_http))
    ensures Step(c.(state := ResponseHttpVersion_http), 'P') ==
              (ParsingIncompleted, c.(state := ResponseHttpVersion_slash))
    ensures Step(c.(state := ResponseHttpVersion_slash), '/') ==
              (ParsingIncompleted, c.(versionMajor := 0, versionMinor := 0, state := ResponseHttpVersion_majorStart))
  {
  }

  lemma ProtocolRun(c: Snapshot, rest: string)
    requires c.state.ResponseStatusStart?
    ensures Run(c, ['H'] + (['T'] + (['T'] + (['P'] + (['/'] + rest))))) ==
              Run(c.(versionMajor := 0, versionMinor := 0, state := ResponseHttpVersion_majorStart), rest)
  {
    hide Run, Step;
    ProtocolSteps(c);
    RunStep(c, 'H', ['T'] + (['T'] + (['P'] + (['/'] + rest))));
    RunStep(c.(state := ResponseHttpVersion_ht), 'T', ['T'] + (['P'] + (['/'] + rest)));
    RunStep(c.(state := ResponseHttpVersion_htt), 'T', ['P'] + (['/'] + rest));
    RunStep(c.(state := ResponseHttpVersion_http), 'P', ['/'] + rest);
    RunStep(c.(state := ResponseHttpVersion_slash), '/', rest);
  }

  lemma ProtocolSplit(c: Snapshot, s: string) returns (rest: string)
    requires c.state.ResponseStatusStart? && Run(c, s).result == ParsingCompleted
    ensures s == ['H'] + (['T'] + (['T'] + (['P'] + (['/'] + rest))))
  {
    hide Run, Step;
    ProtocolSteps(c);
    var s1 := Expect(c, s);
    var s2 := Expect(c.(state := ResponseHttpVersion_ht), s1);
    var s3 := Expect(c.(state := ResponseHttpVersion_htt), s2);
    var s4 := Expect(c.(state := ResponseHttpVersion_http), s3);
    rest := Expect(c.(state := ResponseHttpVersion_slash), s4);
  }

  /** The three states that wait for the first digit of a number. */
  predicate AtNumber(s: State) {
    s.ResponseHttpVersion_majorStart? || s.ResponseHttpVersion_minorStart? || s.ResponseHttpVersion_statusCodeStart?
  }

  /** The parser after the first digits of a number. */
  function InNumber(c: Snapshot, t: string): (r: Snapshot)
    requires AtNumber(c.state) && NumberOk(t)
    ensures HasOpenHeader(r)
  {
    match c.state
    case ResponseHttpVersion_majorStart => c.(state := ResponseHttpVersion_major, versionMajor := ReadInt(0, t))
    case ResponseHttpVersion_minorStart => c.(state := ResponseHttpVersion_minor, versionMinor := ReadInt(0, t))
    case ResponseHttpVersion_statusCodeStart =>
      c.(state := ResponseHttpVersion_statusCode, statusCode := ReadUnsigned(0, t))
  }

  /** Where the byte after a number leads. */
  function AfterNumber(c: Snapshot, b: char): (ParseResult, Snapshot) {
    if c.state.ResponseHttpVersion_major? && b == '.' then
      (ParsingIncompleted, c.(state := ResponseHttpVersion_minorStart))
    else if c.state.ResponseHttpVersion_minor? && b == ' ' then
      (ParsingIncompleted, c.(state := ResponseHttpVersion_statusCodeStart, statusCode := 0))
    else if c.state.ResponseHttpVersion_statusCode? && b == ' ' && 100 <= c.statusCode <= 999 then
      (ParsingIncompleted, c.(state := ResponseHttpVersion_statusTextStart))
    else
      (ParsingError, c)
  }

  lemma FirstDigit(c: Snapshot, b: char)
    requires AtNumber(c.state)
    ensures if IsDigit(b) then Step(c, b) == (ParsingIncompleted, InNumber(c, [b])) else Step(c, b).0 == ParsingError
  {
    if IsDigit(b) {
      ReadOneDigit(b);
    }
    hide ReadInt, ReadUnsigned, ShiftInt, ShiftUnsigned;
  }

  lemma ReadOneDigit(b: char)
    requires IsDigit(b)
    ensures ReadInt(0, [b]) == ShiftInt(0, b) == b as int - '0' as int
    ensures ReadUnsigned(0, [b]) == ShiftUnsigned(0, b) == b as int - '0' as int
  {
    assert [b][1..] == "";
  }

  lemma EndOfNumber(c: Snapshot, b: char)
    requires || c.state.ResponseHttpVersion_major? || c.state.ResponseHttpVersion_minor?
             || c.state.ResponseHttpVersion_statusCode?
    requires !IsDigit(b)
    ensures Step(c, b).0 == AfterNumber(c, b).0 != ParsingCompleted
    ensures Step(c, b).0 == ParsingIncompleted ==> Step(c, b).1 == AfterNumber(c, b).1
  {
  }

  lemma MoreDigits(c: Snapshot, first: char, more: string)
    requires AtNumber(c.state) && IsDigit(first) && AllDigits(more)
    ensures NumberOk([first] + more)
    ensures AbsorbsAll(InNumber(c, [first]).state, more)
    ensures Absorb(InNumber(c, [first]), more) == InNumber(c, [first] + more)
  {
    var t := [first] + more;
    assert t[0] == first && t[1..] == more && [first][1..] == "";
    assert ReadInt(0, t) == ReadInt(ShiftInt(0, first), more);
    assert ReadInt(0, [first]) == ShiftInt(0, first);
    assert ReadUnsigned(0, t) == ReadUnsigned(ShiftUnsigned(0, first), more);
    assert ReadUnsigned(0, [first]) == ShiftUnsigned(0, first);
  }

  lemma NumberRun(c: Snapshot, t: string, b: char, rest: string)
    requires AtNumber(c.state) && NumberOk(t) && AfterNumber(InNumber(c, t), b).0 == ParsingIncompleted
    ensures Run(c, t + ([b] + rest)) == Run(AfterNumber(InNumber(c, t), b).1, rest)
  {
    hide Run, Step, AfterNumber, ReadInt, ReadUnsigned;
    FirstDigit(c, t[0]);
    assert t == [t[0]] + t[1..];
    MoreDigits(c, t[0], t[1..]);
    RunStep(c, t[0], t[1..] + ([b] + rest));
    assert t + ([b] + rest) == [t[0]] + (t[1..] + ([b] + rest));
    NumberSeparator(InNumber(c, t), b);
    AbsorbThenStep(InNumber(c, [t[0]]), t[1..], b, rest);
    EndOfNumber(InNumber(c, t), b);
  }

  lemma NumberSeparator(c: Snapshot, b: char)
    requires AfterNumber(c, b).0 == ParsingIncompleted
    ensures !IsDigit(b)
  {
  }

  lemma NumberSplit(c: Snapshot, s: string) returns (t: string, b: char, rest: string)
    requires AtNumber(c.state) && Run(c, s).result == ParsingCompleted
    ensures NumberOk(t) && s == t + ([b] + rest)
    ensures AfterNumber(InNumber(c, t), b).0 == ParsingIncompleted
    ensures Run(c, s) == Run(AfterNumber(InNumber(c, t), b).1, rest)
  {
    hide Run, Step, AfterNumber, ReadInt, ReadUnsigned;
    var first, s' := Take(c, s);
    FirstDigit(c, first);
    var more;
    more, b, rest := Leave(InNumber(c, [first]), s');
    t := [first] + more;
    MoreDigits(c, first, more);
    EndOfNumber(InNumber(c, t), b);
    assert s == t + ([b] + rest);
    NumberRun(c, t, b, rest);
  }

  lemma ReasonSteps(c: Snapshot, b: char)
    ensures c.state.ResponseHttpVersion_statusTextStart? ==>
              Step(c, b) == if IsChar(b) then
                              (ParsingIncompleted,
                               c.(status := c.status + [b], state := ResponseHttpVersion_statusText))
                            else (ParsingError, c)
    ensures c.state.ResponseHttpVersion_statusText? && !(IsChar(b) && b != '\r') ==>
              Step(c, b) == if b == '\r' then (ParsingIncompleted, c.(state := ResponseHttpVersion_newLine))
                            else (ParsingError, c)
    ensures c.state.ResponseHttpVersion_newLine? ==>
              Step(c, '\n') == (ParsingIncompleted, c.(state := HeaderLineStart))
  {
  }

  lemma ReasonRun(c: Snapshot, reason: string, rest: string)
    requires c.state.ResponseHttpVersion_statusTextStart? && ReasonOk(reason)
    ensures Run(c, reason + Crlf(rest)) == Run(c.(status := c.status + reason, state := HeaderLineStart), rest)
  {
    hide Run, Step;
    var more := reason[1..];
    var start := c.(status := c.status + [reason[0]], state := ResponseHttpVersion_statusText);
    ReasonSteps(c, reason[0]);
    RunStep(c, reason[0], more + Crlf(rest));
    assert reason + Crlf(rest) == [reason[0]] + (more + Crlf(rest));
    AbsorbThenStep(start, more, '\r', ['\n'] + rest);
    assert c.status + [reason[0]] + more == c.status + reason;
    ReasonSteps(Absorb(start, more), '\r');
    var end := c.(status := c.status + reason, state := ResponseHttpVersion_newLine);
    ReasonSteps(end, '\n');
    RunStep(end, '\n', rest);
  }

  /** A reason with a byte from 128 up; the first byte may also be a carriage return. */
  lemma ReasonRefused(c: Snapshot, reason: string, rest: string)
    requires c.state.ResponseHttpVersion_statusTextStart? && reason != ""
    requires forall i :: 0 < i < |reason| ==> reason[i] != '\r'
    requires exists i :: 0 <= i < |reason| && !IsChar(reason[i])
    ensures Run(c, reason + rest).result == ParsingError
  {
    hide Run, Step;
    var more := reason[1..];
    var start := c.(status := c.status + [reason[0]], state := ResponseHttpVersion_statusText);
    ReasonSteps(c, reason[0]);
    RunStep(c, reason[0], more + rest);
    assert reason + rest == [reason[0]] + (more + rest);
    if IsChar(reason[0]) {
      var i :| 0 <= i < |reason| && !IsChar(reason[i]);
      assert more[i - 1] == reason[i];
      var front, b, tail := StopsInside(start, more, rest);
      ReasonSteps(Absorb(start, front), b);
    }
  }

  lemma ReasonSplit(c: Snapshot, s: string) returns (reason: string, rest: string)
    requires c.state.ResponseHttpVersion_statusTextStart? && Run(c, s).result == ParsingCompleted
    ensures ReasonOk(reason) && s == reason + Crlf(rest)
  {
    hide Run, Step;
    var first, s' := Take(c, s);
    ReasonSteps(c, first);
    var start := c.(status := c.status + [first], state := ResponseHttpVersion_statusText);
    var more, b, s'' := Leave(start, s');
    ReasonSteps(Absorb(start, more), b);
    rest := Expect(Absorb(start, more).(state := ResponseHttpVersion_newLine), s'');
    reason := [first] + more;
    assert s == reason + Crlf(rest);
  }

  lemma NumbersRun(c: Snapshot, m: Message, rest: string)
    requires c.state.ResponseStatusStart? && NumbersOk(m)
    ensures Run(c, StatusLineText(m, rest)) == Run(ReadNumbers(c, m), m.reason + Crlf(rest))
  {
    hide Run, ReadInt, ReadUnsigned;
    var afterCode := ReasonText(m, rest);
    var afterMinor := [' '] + (m.code + afterCode);
    ProtocolRun(c, m.major + (['.'] + (m.minor + afterMinor)));
    var c1 := c.(versionMajor := 0, versionMinor := 0, state := ResponseHttpVersion_majorStart);
    NumberRun(c1, m.major, '.', m.minor + afterMinor);
    var c2 := c1.(versionMajor := ReadInt(0, m.major), state := ResponseHttpVersion_minorStart);
    NumberRun(c2, m.minor, ' ', m.code + afterCode);
    var c3 := c2.(versionMinor := ReadInt(0, m.minor), statusCode := 0, state := ResponseHttpVersion_statusCodeStart);
    NumberRun(c3, m.code, ' ', m.reason + Crlf(rest));
  }

  lemma StatusLineRun(c: Snapshot, m: Message, rest: string)
    requires c.state.ResponseStatusStart? && StatusLineOk(m)
    ensures Run(c, StatusLineText(m, rest)) == Run(ReadStatusLine(c, m), rest)
  {
    hide Run, NumbersOk, ReasonOk, StatusLineText;
    NumbersRun(c, m, rest);
    ReasonRun(ReadNumbers(c, m), m.reason, rest);
  }

  /** The message `m` gets its status line from; its other parts are still to be found. */
  lemma StatusLineSplit(c: Snapshot, s: string) returns (m: Message, rest: string)
    requires c.state.ResponseStatusStart? && Run(c, s).result == ParsingCompleted
    ensures StatusLineOk(m) && s == StatusLineText(m, rest)
  {
    hide Run, ReadInt, ReadUnsigned, ReasonOk;
    var s1 := ProtocolSplit(c, s);
    ProtocolRun(c, s1);
    var c1 := c.(versionMajor := 0, versionMinor := 0, state := ResponseHttpVersion_majorStart);
    var major, dot, s2 := NumberSplit(c1, s1);
    var c2 := c1.(versionMajor := ReadInt(0, major), state := ResponseHttpVersion_minorStart);
    var minor, space, s3 := NumberSplit(c2, s2);
    var c3 := c2.(versionMinor := ReadInt(0, minor), statusCode := 0, state := ResponseHttpVersion_statusCodeStart);
    var code, space', s4 := NumberSplit(c3, s3);
    var c4 := c3.(statusCode := ReadUnsigned(0, code), state := ResponseHttpVersion_statusTextStart);
    var reason;
    reason, rest := ReasonSplit(c4, s4);
    m := Message(major, minor, code, reason, [], '\n', Empty);
  }

  // ---- header lines ------------------------------------------------------------------------------

  lemma HeaderSteps(c: Snapshot, b: char)
    requires HasOpenHeader(c)
    ensures c.state.HeaderLineStart? ==>
              Step(c, b) == if b == '\r' then (ParsingIncompleted, c.(state := ExpectingNewline_3))
                            else if |c.headers| > 0 && (b == ' ' || b == '\t') then
                              (ParsingIncompleted, c.(state := HeaderLws))
                            else if IsNameChar(b) then
                              (ParsingIncompleted,
                               c.(headers := c.headers + [HeaderItem([b], "")], state := HeaderName))
                            else (ParsingError, c)
    ensures c.state.HeaderName? && !IsNameChar(b) ==>
              Step(c, b) == if b == ':' then (ParsingIncompleted, c.(state := SpaceBeforeHeaderValue))
                            else (ParsingError, c)
    ensures c.state.SpaceBeforeHeaderValue? ==> Step(c, ' ') == (ParsingIncompleted, c.(state := HeaderValue))
    ensures c.state.ExpectingNewline_2? ==> Step(c, '\n') == (ParsingIncompleted, c.(state := HeaderLineStart))
    ensures c.state.HeaderLws? && b != ' ' && b != '\t' ==>
              Step(c, b) == if b == '\r' then (ParsingIncompleted, c.(state := ExpectingNewline_2))
                            else if IsControl(b) then (ParsingError, c)
                            else (ParsingIncompleted,
                                  c.(state := HeaderValue, headers := AppendToValue(c.headers, [b])))
  {
  }

  lemma EndOfValueStep(c: Snapshot, b: char)
    requires c.state.HeaderValue? && |c.headers| > 0 && IsControl(b)
    ensures Step(c, b) ==
              if b != '\r' then (ParsingError, c)
              else if Evaluate(c).0 == LengthError then Evaluate(c)
              else (ParsingIncompleted, Evaluate(c).1.(state := ExpectingNewline_2))
  {
  }

  /** What a header line makes of its header does not depend on where the parser is. */
  lemma EvaluateAnywhere(c: Snapshot, s: State)
    requires |c.headers| > 0
    ensures Evaluate(c.(state := s)) == (Evaluate(c).0, Evaluate(c).1.(state := s))
  {
  }

  /** The end of a header value, from the last value byte to the next line. */
  lemma EndOfValueRun(c: Snapshot, value: string, rest: string)
    requires c.state.HeaderLineStart? && |c.headers| > 0 && NoControls(value)
    ensures var full := c.(headers := AppendToValue(c.headers, value));
            var (result, next) := Evaluate(full);
            Run(c.(state := HeaderValue), value + Crlf(rest)) ==
              if result == LengthError then Outcome(LengthError, next.(state := HeaderValue), ['\n'] + rest)
              else Run(next, rest)
  {
    hide Run, Step, Evaluate, EqualIgnoringCase;
    var full := c.(headers := AppendToValue(c.headers, value));
    var open := c.(state := HeaderValue);
    AbsorbThenStep(open, value, '\r', ['\n'] + rest);
    EndOfValueStep(full.(state := HeaderValue), '\r');
    EvaluateAnywhere(full, HeaderValue);
    var next := Evaluate(full).1;
    HeaderSteps(next.(state := ExpectingNewline_2), '\n');
    RunStep(next.(state := ExpectingNewline_2), '\n', rest);
  }

  lemma EndOfValueSplit(c: Snapshot, s: string) returns (value: string, rest: string)
    requires c.state.HeaderLineStart? && |c.headers| > 0 && Run(c.(state := HeaderValue), s).result == ParsingCompleted
    ensures NoControls(value) && s == value + Crlf(rest)
    ensures Evaluate(c.(headers := AppendToValue(c.headers, value))).0 == ParsingIncompleted
  {
    hide Run, Step, Evaluate;
    var b, s';
    value, b, s' := Leave(c.(state := HeaderValue), s);
    var full := c.(headers := AppendToValue(c.headers, value));
    EndOfValueStep(full.(state := HeaderValue), b);
    EvaluateAnywhere(full, HeaderValue);
    rest := Expect(Evaluate(full).1.(state := ExpectingNewline_2), s');
  }

  /** A header name up to its colon. */
  lemma NameColonRun(c: Snapshot, name: string, rest: string)
    requires c.state.HeaderLineStart? && |name| > 0 && AllNameChars(name)
    ensures Run(c, name + ([':'] + rest)) ==
              Run(c.(headers := c.headers + [HeaderItem(name, "")], state := SpaceBeforeHeaderValue), rest)
  {
    hide Run, Step, IsNameChar;
    var tail := [':'] + rest;
    Uncons(name, tail);
    NameStart(c, name[0]);
    RunStep(c, name[0], name[1..] + tail);
    AfterIncomplete(c, name[0], name[1..] + tail);
    hide After;
    RestOfNameRun(c, name[0], name[1..], rest);
  }

  /** And up to the space after it. */
  lemma NameRun(c: Snapshot, name: string, rest: string)
    requires c.state.HeaderLineStart? && |name| > 0 && AllNameChars(name)
    ensures Run(c, name + ([':'] + ([' '] + rest))) ==
              Run(c.(headers := c.headers + [HeaderItem(name, "")], state := HeaderValue), rest)
  {
    hide Run, Step, AllNameChars;
    var named := c.(headers := c.headers + [HeaderItem(name, "")], state := SpaceBeforeHeaderValue);
    NameColonRun(c, name, [' '] + rest);
    HeaderSteps(named, ' ');
    RunStep(named, ' ', rest);
  }

  lemma NameStart(c: Snapshot, b: char)
    requires c.state.HeaderLineStart? && IsNameChar(b)
    ensures Step(c, b) == (ParsingIncompleted, c.(headers := c.headers + [HeaderItem([b], "")], state := HeaderName))
  {
  }

  lemma RestOfNameRun(c: Snapshot, b: char, more: string, rest: string)
    requires c.state.HeaderLineStart? && AllNameChars(more)
    ensures Run(c.(headers := c.headers + [HeaderItem([b], "")], state := HeaderName), more + ([':'] + rest)) ==
              Run(c.(headers := c.headers + [HeaderItem([b] + more, "")], state := SpaceBeforeHeaderValue), rest)
  {
    hide Run, Step;
    var first := c.(headers := c.headers + [HeaderItem([b], "")], state := HeaderName);
    var named := c.(headers := c.headers + [HeaderItem([b] + more, "")], state := SpaceBeforeHeaderValue);
    NameAppended(c.headers, b, more);
    AbsorbThenStep(first, more, ':', rest);
    assert Absorb(first, more) == named.(state := HeaderName);
    HeaderSteps(named.(state := HeaderName), ':');
  }

  lemma NameAppended(headers: seq<HeaderItem>, b: char, more: string)
    ensures AppendToName(headers + [HeaderItem([b], "")], more) == headers + [HeaderItem([b] + more, "")]
  {
  }

  lemma NameSplit(c: Snapshot, s: string) returns (name: string, rest: string)
    requires c.state.HeaderLineStart? && Run(c, s).result == ParsingCompleted
    requires s[0] != '\r' && !(|c.headers| > 0 && (s[0] == ' ' || s[0] == '\t'))
    ensures |name| > 0 && AllNameChars(name) && s == name + ([':'] + ([' '] + rest))
  {
    hide Run, Step;
    var b, s' := Take(c, s);
    HeaderSteps(c, b);
    var first := c.(headers := c.headers + [HeaderItem([b], "")], state := HeaderName);
    var more, colon, s'' := Leave(first, s');
    HeaderSteps(Absorb(first, more), colon);
    rest := Expect(Absorb(first, more).(state := SpaceBeforeHeaderValue), s'');
    name := [b] + more;
    assert s == name + ([':'] + ([' '] + rest));
  }

  lemma ValueAppended(headers: seq<HeaderItem>, name: string, value: string)
    ensures AppendToValue(headers + [HeaderItem(name, "")], value) == headers + [HeaderItem(name, value)]
  {
    assert "" + value == value;
  }

  lemma FieldRun(c: Snapshot, name: string, value: string, rest: string)
    requires c.state.HeaderLineStart? && LineOk(Field(name, value))
    ensures var (result, next) := ReadLine(c, Field(name, value));
            Run(c, LineText(Field(name, value), rest)) ==
              if result == LengthError then Outcome(LengthError, next.(state := HeaderValue), ['\n'] + rest)
              else Run(next, rest)
  {
    hide Run, Step, Evaluate;
    NameRun(c, name, value + Crlf(rest));
    EndOfValueRun(c.(headers := c.headers + [HeaderItem(name, "")]), value, rest);
    ValueAppended(c.headers, name, value);
  }

  lemma FieldSplit(c: Snapshot, s: string) returns (l: Line, rest: string)
    requires c.state.HeaderLineStart? && Run(c, s).result == ParsingCompleted
    requires s[0] != '\r' && !(|c.headers| > 0 && (s[0] == ' ' || s[0] == '\t'))
    ensures l.Field? && LineOk(l) && s == LineText(l, rest)
    ensures ReadLine(c, l).0 == ParsingIncompleted
  {
    hide Run, Step, Evaluate;
    var name, s' := NameSplit(c, s);
    NameRun(c, name, s');
    var value;
    value, rest := EndOfValueSplit(c.(headers := c.headers + [HeaderItem(name, "")]), s');
    ValueAppended(c.headers, name, value);
    l := Field(name, value);
  }

  /** The blanks that start a continuation line, and the byte after them. */
  lemma BlanksRun(c: Snapshot, blank: string, b: char, rest: string)
    requires c.state.HeaderLineStart? && |c.headers| > 0 && |blank| > 0 && AllBlanks(blank)
    ensures Run(c, blank + ([b] + rest)) == After(c.(state := HeaderLws), b, rest)
  {
    hide Run, Step, After, Absorb;
    var lws, more := c.(state := HeaderLws), blank[1..];
    Uncons(blank, [b] + rest);
    FirstBlank(c, blank[0], more + ([b] + rest));
    BlanksLeaveNothing(lws, more);
    AbsorbThenStep(lws, more, b, rest);
  }

  lemma FirstBlank(c: Snapshot, b: char, rest: string)
    requires c.state.HeaderLineStart? && |c.headers| > 0 && (b == ' ' || b == '\t')
    ensures Run(c, [b] + rest) == Run(c.(state := HeaderLws), rest)
  {
    hide Run, Step;
    HeaderSteps(c, b);
    RunStep(c, b, rest);
  }

  lemma BlanksLeaveNothing(c: Snapshot, blank: string)
    requires c.state.HeaderLws? && |c.headers| > 0 && AllBlanks(blank)
    ensures AbsorbsAll(c.state, blank) && Absorb(c, blank) == c
  {
  }

  lemma AfterIncomplete(c: Snapshot, b: char, rest: string)
    requires HasOpenHeader(c) && Step(c, b).0 == ParsingIncompleted
    ensures After(c, b, rest) == Run(Step(c, b).1, rest)
  {
  }

  lemma ContinuedValue(headers: seq<HeaderItem>, b: char, more: string)
    requires |headers| > 0
    ensures AppendToValue(AppendToValue(headers, [b]), more) == AppendToValue(headers, [b] + more)
  {
    assert Back(headers).value + [b] + more == Back(headers).value + ([b] + more);
  }

  lemma FoldRun(c: Snapshot, blank: string, text: string, rest: string)
    requires c.state.HeaderLineStart? && |c.headers| > 0 && LineOk(Fold(blank, text))
    requires ReadLine(c, Fold(blank, text)).0 == ParsingIncompleted
    ensures Run(c, LineText(Fold(blank, text), rest)) == Run(ReadLine(c, Fold(blank, text)).1, rest)
  {
    hide Run, Step, Evaluate;
    var lws := c.(state := HeaderLws);
    if text == "" {
      BlanksRun(c, blank, '\r', ['\n'] + rest);
      assert text + Crlf(rest) == Crlf(rest);
      HeaderSteps(lws, '\r');
      HeaderSteps(c.(state := ExpectingNewline_2), '\n');
      RunStep(c.(state := ExpectingNewline_2), '\n', rest);
    } else {
      BlanksRun(c, blank, text[0], text[1..] + Crlf(rest));
      assert text + Crlf(rest) == [text[0]] + (text[1..] + Crlf(rest));
      HeaderSteps(lws, text[0]);
      EndOfValueRun(c.(headers := AppendToValue(c.headers, [text[0]])), text[1..], rest);
      ContinuedValue(c.headers, text[0], text[1..]);
      assert text == [text[0]] + text[1..];
    }
  }

  /** The text of a continuation line from its first byte on. */
  lemma FoldTextSplit(c: Snapshot, b: char, s: string) returns (text: string, rest: string)
    requires c.state.HeaderLineStart? && |c.headers| > 0 && !IsControl(b)
    requires Run(c.(headers := AppendToValue(c.headers, [b]), state := HeaderValue), s).result == ParsingCompleted
    ensures text != "" && text[0] == b && NoControls(text) && [b] + s == text + Crlf(rest)
    ensures Evaluate(c.(headers := AppendToValue(c.headers, text))).0 == ParsingIncompleted
  {
    hide Run, Step, Evaluate;
    var value;
    value, rest := EndOfValueSplit(c.(headers := AppendToValue(c.headers, [b])), s);
    ContinuedValue(c.headers, b, value);
    text := [b] + value;
    assert [b] + (value + Crlf(rest)) == text + Crlf(rest);
  }

  lemma FoldSplit(c: Snapshot, s: string) returns (l: Line, rest: string)
    requires c.state.HeaderLineStart? && |c.headers| > 0 && Run(c, s).result == ParsingCompleted
    requires s[0] == ' ' || s[0] == '\t'
    ensures l.Fold? && LineOk(l) && s == LineText(l, rest)
    ensures ReadLine(c, l).0 == ParsingIncompleted
  {
    hide Run, Step, Evaluate;
    var b, s' := Take(c, s);
    HeaderSteps(c, b);
    var lws := c.(state := HeaderLws);
    var more, b', s'' := Leave(lws, s');
    var blank := [b] + more;
    assert s == blank + ([b'] + s'');
    HeaderSteps(lws, b');
    if b' == '\r' {
      rest := Expect(c.(state := ExpectingNewline_2), s'');
      l := Fold(blank, "");
      assert s == blank + ("" + Crlf(rest));
    } else {
      var text;
      text, rest := FoldTextSplit(c, b', s'');
      l := Fold(blank, text);
    }
  }

  lemma LineRun(c: Snapshot, l: Line, rest: string)
    requires c.state.HeaderLineStart? && LineOk(l) && (l.Fold? ==> |c.headers| > 0)
    requires ReadLine(c, l).0 == ParsingIncompleted
    ensures Run(c, LineText(l, rest)) == Run(ReadLine(c, l).1, rest)
    ensures ReadLine(c, l).1.state.HeaderLineStart?
  {
    hide Run, Step, Evaluate;
    match l {
      case Field(name, value) => FieldRun(c, name, value, rest);
      case Fold(blank, text) => FoldRun(c, blank, text, rest);
    }
  }

  lemma {:induction false} LinesRun(c: Snapshot, lines: seq<Line>, rest: string)
    requires c.state.HeaderLineStart? && LinesOk(c, lines)
    ensures ReadLines(c, lines).state.HeaderLineStart?
    ensures Run(c, LinesText(lines, rest)) == Run(ReadLines(c, lines), rest)
    decreases |lines|
  {
    hide Run, Step, ReadLine, LineOk;
    if lines != [] {
      LineRun(c, lines[0], LinesText(lines[1..], rest));
      LinesRun(ReadLine(c, lines[0]).1, lines[1..], rest);
    }
  }

  /** The header lines before the blank line. */
  lemma {:induction false} LinesSplit(c: Snapshot, s: string) returns (lines: seq<Line>, rest: string)
    requires c.state.HeaderLineStart? && Run(c, s).result == ParsingCompleted
    ensures LinesOk(c, lines) && s == LinesText(lines, ['\r'] + rest)
    decreases |s|
  {
    hide Run, Step, ReadLine, LineOk;
    var b, more := Take(c, s);
    if b == '\r' {
      lines, rest := [], more;
    } else {
      var l, tail;
      if |c.headers| > 0 && (b == ' ' || b == '\t') {
        l, tail := FoldSplit(c, s);
      } else {
        l, tail := FieldSplit(c, s);
      }
      LineRun(c, l, tail);
      LineNotEmpty(l, tail);
      var others;
      others, rest := LinesSplit(ReadLine(c, l).1, tail);
      lines := [l] + others;
      assert lines[1..] == others;
    }
  }

  lemma LineNotEmpty(l: Line, rest: string)
    ensures |LineText(l, rest)| > |rest|
  {
  }

  // ---- the blank line and the body ---------------------------------------------------------------

  lemma BlankSteps(c: Snapshot, b: char)
    ensures c.state.HeaderLineStart? ==> Step(c, '\r') == (ParsingIncompleted, c.(state := ExpectingNewline_3))
    ensures c.state.ExpectingNewline_3? ==>
              var k := c.(keepAlive := KeepAlive(c));
              Step(c, b) == if c.chunked then (ParsingIncompleted, k.(state := ChunkSize))
                            else if c.contentSize == 0 then (if b == '\n' then ParsingCompleted else ParsingError, k)
                            else (ParsingIncompleted, k.(state := Post))
  {
  }

  /** From the blank line on, for the head `c` of a message. */
  function AtBody(c: Snapshot): Snapshot {
    c.(keepAlive := KeepAlive(c),
       state := if c.chunked then ChunkSize else if c.contentSize == 0 then ExpectingNewline_3 else Post)
  }

  lemma BlankRun(c: Snapshot, b: char, rest: string)
    requires c.state.HeaderLineStart?
    ensures Run(c, ['\r'] + ([b] + rest)) ==
              if !c.chunked && c.contentSize == 0 then
                Outcome(if b == '\n' then ParsingCompleted else ParsingError, AtBody(c), rest)
              else Run(AtBody(c), rest)
  {
    hide Run, Step, KeepAlive;
    BlankSteps(c, '\r');
    RunStep(c, '\r', [b] + rest);
    var blank := c.(state := ExpectingNewline_3);
    BlankSteps(blank, b);
    KeepAliveAnywhere(c, ExpectingNewline_3);
    RunStep(blank, b, rest);
  }

  lemma KeepAliveAnywhere(c: Snapshot, s: State)
    ensures KeepAlive(c.(state := s)) == KeepAlive(c)
  {
  }

  /** Framing fields in range and no content yet, as at the end of every head. */
  predicate HeadDone(c: Snapshot) {
    c.state.HeaderLineStart? && c.content == [] && c.chunkSize == 0 && c.chunkSizeStr == "" && c.contentSize <= MAX_SIZE
  }

  lemma {:induction false} HeadIsDone(c: Snapshot, lines: seq<Line>)
    requires HeadDone(c) && LinesOk(c, lines)
    ensures HeadDone(ReadLines(c, lines))
    decreases |lines|
  {
    hide EqualIgnoringCase;
    if lines != [] {
      HeadIsDone(ReadLine(c, lines[0]).1, lines[1..]);
    }
  }

  /** The response and parser after the head `c` and the body `b`. */
  function AfterBody(c: Snapshot, b: Body): Snapshot {
    c.(keepAlive := KeepAlive(c),
       content := BodyData(b),
       contentSize := if b.Chunked? then c.contentSize else 0,
       state := match b case Empty => ExpectingNewline_3 case Sized(_) => Post case Chunked(_) => ChunkSizeNewLine_3)
  }

  lemma BodyRun(c: Snapshot, m: Message, rest: string)
    requires HeadDone(c) && BodyOk(c, m)
    ensures Run(c, ['\r'] + ([m.afterBlank] + BodyText(m.body, rest))) ==
              Outcome(ParsingCompleted, AfterBody(c, m.body), rest)
  {
    hide Run, Step, KeepAlive, ChunkedOk;
    BlankRun(c, m.afterBlank, BodyText(m.body, rest));
    match m.body {
      case Empty =>
      case Sized(data) =>
        ReceiveAll(AtBody(c), data, rest);
        assert c.content + data == data;
      case Chunked(chunked) =>
        assert c.content + Data(chunked.chunks) == Data(chunked.chunks);
        ChunkedComplete(AtBody(c), chunked, rest);
    }
  }

  lemma BodySplit(c: Snapshot, b: char, s: string) returns (body: Body, rest: string)
    requires HeadDone(c) && Run(c, ['\r'] + ([b] + s)).result == ParsingCompleted
    ensures forall m: Message :: m.body == body && m.afterBlank == b ==> BodyOk(c, m)
    ensures s == BodyText(body, rest)
  {
    hide Run, Step, KeepAlive, ChunkedOk;
    BlankRun(c, b, s);
    if c.chunked {
      var chunked;
      chunked, rest := ChunkedSound(AtBody(c), s);
      body := Chunked(chunked);
    } else if c.contentSize == 0 {
      body, rest := Empty, s;
    } else {
      ReceivesAll(AtBody(c), s);
      body, rest := Sized(s[..c.contentSize]), s[c.contentSize..];
    }
  }

  // ---- the language ------------------------------------------------------------------------------

  /** Completeness: a message of the grammar is accepted up to its last byte, and leaves its meaning. */
  lemma Complete(m: Message, rest: string)
    requires MessageOk(m)
    ensures Run(Initial, MessageText(m, rest)) == Outcome(ParsingCompleted, Meaning(m), rest)
  {
    hide Run, StatusLineOk, LinesOk, ReadLines, LinesText, StatusLineText;
    var tail := ['\r'] + ([m.afterBlank] + BodyText(m.body, rest));
    var start := ReadStatusLine(Initial, m);
    StatusLineRun(Initial, m, LinesText(m.lines, tail));
    LinesRun(start, m.lines, tail);
    HeadIsDone(start, m.lines);
    BodyRun(AfterHead(m), m, rest);
  }

  /** Soundness: whatever makes a new parser complete is a message of the grammar, followed by the bytes the
      parser did not look at. */
  lemma Sound(s: string) returns (m: Message)
    requires Run(Initial, s).result == ParsingCompleted
    ensures MessageOk(m)
    ensures s == MessageText(m, Run(Initial, s).rest)
    ensures Run(Initial, s).end == Meaning(m)
  {
    hide Run, StatusLineOk, LinesOk, ReadLines, LinesText, StatusLineText, ChunkedOk;
    var line, afterLine := StatusLineSplit(Initial, s);
    StatusLineRun(Initial, line, afterLine);
    var start := ReadStatusLine(Initial, line);
    var lines, afterCr := LinesSplit(start, afterLine);
    LinesRun(start, lines, ['\r'] + afterCr);
    HeadIsDone(start, lines);
    var head := ReadLines(start, lines);
    var b, afterBlank := BlankByte(head, afterCr);
    var body, rest := BodySplit(head, b, afterBlank);
    m := line.(lines := lines, afterBlank := b, body := body);
    SameStatusLine(line, m, afterLine);
    Complete(m, rest);
  }

  lemma BlankByte(c: Snapshot, s: string) returns (b: char, rest: string)
    requires c.state.HeaderLineStart? && Run(c, ['\r'] + s).result == ParsingCompleted
    ensures s == [b] + rest
  {
    hide Run, Step;
    BlankSteps(c, '\r');
    RunStep(c, '\r', s);
    b, rest := Take(c.(state := ExpectingNewline_3), s);
  }

  lemma SameStatusLine(m: Message, n: Message, rest: string)
    requires StatusLineOk(m) && n == m.(lines := n.lines, afterBlank := n.afterBlank, body := n.body)
    ensures StatusLineOk(n) && StatusLineText(m, rest) == StatusLineText(n, rest)
    ensures ReadStatusLine(Initial, m) == ReadStatusLine(Initial, n)
  {
  }

  /** The language of the parser is the language of the grammar, and the response is the meaning of the message:
      a new parser completes exactly on the last byte of `s` with fields `end` if and only if `s` is the text of a
      message that means `end`. */
  lemma AcceptsExactlyMessages(s: string, end: Snapshot)
    ensures Run(Initial, s) == Outcome(ParsingCompleted, end, "")
            <==> exists m :: MessageOk(m) && MessageText(m, "") == s && Meaning(m) == end
  {
    hide MessageOk, MessageText, Meaning;
    if Run(Initial, s) == Outcome(ParsingCompleted, end, "") {
      var m := Sound(s);
    }
    forall m | MessageOk(m) && MessageText(m, "") == s && Meaning(m) == end
      ensures Run(Initial, s) == Outcome(ParsingCompleted, end, "")
    {
      Complete(m, "");
    }
  }
}
