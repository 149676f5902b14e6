/** Round trips: printing a response, with a counted or a chunked body, and parsing it restores it. */
module HttpRoundTrip {
  import opened Text
  import opened HttpParser
  import opened HttpGrammar
  import opened HttpRuns
  import HttpMessages

  // ---- numbers -----------------------------------------------------------------------------------

  /** Below 2^31 the digits of a version number read as the number they print. */
  lemma {:induction false} ReadIntIsMagnitude(v: nat, s: string)
    requires AllDigits(s) && Magnitude(s, 10, v) < TWO_31
    ensures ReadInt(v, s) == Magnitude(s, 10, v)
    decreases |s|
  {
    if s != "" {
      MagnitudeAtLeast(s[1..], Shift(v, 10, s[0]));
      ReadIntIsMagnitude(Shift(v, 10, s[0]), s[1..]);
    }
  }

  lemma {:induction false} ReadUnsignedIsMagnitude(v: nat, s: string)
    requires AllDigits(s) && Magnitude(s, 10, v) < TWO_32
    ensures ReadUnsigned(v, s) == Magnitude(s, 10, v)
    decreases |s|
  {
    if s != "" {
      MagnitudeAtLeast(s[1..], Shift(v, 10, s[0]));
      ReadUnsignedIsMagnitude(Shift(v, 10, s[0]), s[1..]);
    }
  }

  lemma ShiftedBits(v: int, w: int, d: int, r: int)
    requires (w - v) % TWO_32 == 0 && (10 * v + d - r) % TWO_32 == 0
    ensures (10 * w + d - r) % TWO_32 == 0
  {
    var q := (w - v) / TWO_32;
    var p := (10 * v + d - r) / TWO_32;
    assert w - v == TWO_32 * q && 10 * v + d - r == TWO_32 * p;
    assert 10 * w + d - r == TWO_32 * (10 * q + p);
  }

  lemma {:induction false} ReadUnsignedBits(v: nat, w: nat, s: string)
    requires AllDigits(s) && v < TWO_32 && (w - v) % TWO_32 == 0
    ensures ReadUnsigned(v, s) < TWO_32 && (Magnitude(s, 10, w) - ReadUnsigned(v, s)) % TWO_32 == 0
    decreases |s|
  {
    if s != "" {
      var d := DigitValue(s[0]);
      ShiftedBits(v, w, d, ShiftUnsigned(v, s[0]));
      ReadUnsignedBits(ShiftUnsigned(v, s[0]), Shift(w, 10, s[0]), s[1..]);
    }
  }

  lemma {:induction false} ReadIntBits(v: int, w: nat, s: string)
    requires AllDigits(s) && -TWO_31 <= v < TWO_31 && (w - v) % TWO_32 == 0
    ensures -TWO_31 <= ReadInt(v, s) < TWO_31 && (Magnitude(s, 10, w) - ReadInt(v, s)) % TWO_32 == 0
    decreases |s|
  {
    if s != "" {
      var d := DigitValue(s[0]);
      ShiftedBits(v, w, d, ShiftInt(v, s[0]));
      ReadIntBits(ShiftInt(v, s[0]), Shift(w, 10, s[0]), s[1..]);
    }
  }

  /** Of a status code and of a version number of any length the low 32 bits are kept. */
  lemma NumbersKeepBits(s: string)
    requires AllDigits(s)
    ensures 0 <= ReadUnsigned(0, s) < TWO_32 && (Positional(s, 10) - ReadUnsigned(0, s)) % TWO_32 == 0
    ensures -TWO_31 <= ReadInt(0, s) < TWO_31 && (Positional(s, 10) - ReadInt(0, s)) % TWO_32 == 0
  {
    assert AllDigitsOf(s, 10);
    MagnitudeIsPositional(s, 10);
    ReadUnsignedBits(0, 0, s);
    ReadIntBits(0, 0, s);
  }

  lemma NumbersRoundTrip(n: nat)
    requires n < TWO_31
    ensures NumberOk(Decimal(n)) && ReadInt(0, Decimal(n)) == n && ReadUnsigned(0, Decimal(n)) == n
  {
    NumeralRoundTrip(n, 10);
    var s := Decimal(n);
    assert forall i :: 0 <= i < |s| ==> DigitValue(s[i]) < 10;
    ReadIntIsMagnitude(0, s);
    ReadUnsignedIsMagnitude(0, s);
  }

  // ---- heads -------------------------------------------------------------------------------------

  /** What stands before the body of a response. */
  datatype Head = Head(versionMajor: nat, versionMinor: nat, statusCode: nat, status: string, headers: seq<HeaderItem>)

  predicate IsChunkedEncoding(h: HeaderItem) {
    EqualIgnoringCase(h.name, "Transfer-Encoding") && EqualIgnoringCase(h.value, "chunked")
  }

  predicate HeaderOk(h: HeaderItem) { |h.name| > 0 && AllNameChars(h.name) && NoControls(h.value) }

  /** A Content-Length that `atoi` makes negative cannot be reserved. */
  predicate LengthOk(h: HeaderItem) { IsContentLength(h) ==> Atoi(h.value) >= 0 }

  predicate LengthsOk(headers: seq<HeaderItem>) { forall i :: 0 <= i < |headers| ==> LengthOk(headers[i]) }

  predicate HeadOk(h: Head) {
    && h.versionMajor < TWO_31 && h.versionMinor < TWO_31
    && 100 <= h.statusCode <= 999
    && (h.status != "" ==> ReasonOk(h.status))
    && forall i :: 0 <= i < |h.headers| ==> HeaderOk(h.headers[i])
  }

  function Fields(headers: seq<HeaderItem>): (lines: seq<Line>)
    ensures |lines| == |headers|
  {
    if headers == [] then [] else [Field(headers[0].name, headers[0].value)] + Fields(headers[1..])
  }

  /** The head as a message: numbers in decimal, every header on one line. */
  function ToMessage(h: Head, body: Body): Message {
    Message(Decimal(h.versionMajor), Decimal(h.versionMinor), Decimal(h.statusCode), h.status,
            Fields(h.headers), '\n', body)
  }

  predicate HasChunked(headers: seq<HeaderItem>) {
    exists i :: 0 <= i < |headers| && IsChunkedEncoding(headers[i])
  }

  lemma NamesDiffer(h: HeaderItem)
    requires IsChunkedEncoding(h)
    ensures !IsContentLength(h)
  {
  }

  function ReadHeaders(c: Snapshot, headers: seq<HeaderItem>): Snapshot {
    c.(headers := c.headers + headers, contentSize := LengthRead(c.headers + headers),
       chunked := c.chunked || HasChunked(headers))
  }

  lemma ReadHeader(c: Snapshot, h: HeaderItem)
    requires HeaderOk(h) && LengthOk(h) && c.contentSize == LengthRead(c.headers)
    ensures ReadLine(c, Field(h.name, h.value)) == (ParsingIncompleted, ReadHeaders(c, [h]))
  {
    hide Atoi;
    LengthTextSnoc(c.headers, h);
    AtoiInRange(h.value);
    assert Back(c.headers + [h]) == h;
    assert HasChunked([h]) == IsChunkedEncoding(h) by {
      assert [h][0] == h;
    }
    if IsChunkedEncoding(h) {
      NamesDiffer(h);
    }
  }

  lemma ReadHeadersSplit(c: Snapshot, headers: seq<HeaderItem>)
    requires headers != []
    ensures ReadHeaders(ReadHeaders(c, [headers[0]]), headers[1..]) == ReadHeaders(c, headers)
  {
    hide EqualIgnoringCase, LengthRead;
    assert c.headers + headers == c.headers + [headers[0]] + headers[1..];
    assert HasChunked(headers) == (HasChunked([headers[0]]) || HasChunked(headers[1..])) by {
      assert [headers[0]][0] == headers[0];
      if i :| 0 <= i < |headers| && IsChunkedEncoding(headers[i]) {
        assert i > 0 ==> headers[1..][i - 1] == headers[i];
      }
    }
  }

  lemma {:induction false} FieldsRead(c: Snapshot, headers: seq<HeaderItem>)
    requires forall i :: 0 <= i < |headers| ==> HeaderOk(headers[i])
    requires LengthsOk(headers) && c.contentSize == LengthRead(c.headers)
    ensures LinesOk(c, Fields(headers))
    ensures ReadLines(c, Fields(headers)) == ReadHeaders(c, headers)
    decreases |headers|
  {
    hide HeaderOk, LengthOk, EqualIgnoringCase, ReadLine, LengthRead;
    if headers == [] {
      assert c.headers + headers == c.headers;
    } else {
      var h := headers[0];
      ReadHeader(c, h);
      assert LineOk(Field(h.name, h.value)) by {
        HeaderLine(h);
      }
      FieldsRead(ReadHeaders(c, [h]), headers[1..]);
      ReadHeadersSplit(c, headers);
      assert Fields(headers)[1..] == Fields(headers[1..]);
    }
  }

  /** What one header line does: it is read, or its length cannot be reserved. */
  lemma HeaderResult(c: Snapshot, h: HeaderItem)
    requires HeaderOk(h)
    ensures ReadLine(c, Field(h.name, h.value)).0 == if LengthOk(h) then ParsingIncompleted else LengthError
  {
    hide Atoi;
    AtoiInRange(h.value);
    assert Back(c.headers + [h]) == h;
  }

  lemma {:induction false} FieldsThrow(c: Snapshot, headers: seq<HeaderItem>, rest: string)
    requires c.state.HeaderLineStart? && !LengthsOk(headers)
    requires forall i :: 0 <= i < |headers| ==> HeaderOk(headers[i])
    ensures Run(c, LinesText(Fields(headers), rest)).result == LengthError
    decreases |headers|
  {
    hide HeaderOk, LengthOk, ReadLine, Run, LineText;
    var h := headers[0];
    var after := LinesText(Fields(headers[1..]), rest);
    assert Fields(headers)[1..] == Fields(headers[1..]);
    HeaderLine(h);
    HeaderResult(c, h);
    if LengthOk(h) {
      HttpMessages.LineRun(c, Field(h.name, h.value), after);
      assert !LengthsOk(headers[1..]) by {
        var i :| 0 <= i < |headers| && !LengthOk(headers[i]);
        assert headers[1..][i - 1] == headers[i];
      }
      FieldsThrow(ReadLine(c, Field(h.name, h.value)).1, headers[1..], rest);
    } else {
      HttpMessages.FieldRun(c, h.name, h.value, after);
    }
  }

  lemma HeaderLine(h: HeaderItem)
    requires HeaderOk(h)
    ensures LineOk(Field(h.name, h.value))
  {
  }

  lemma NumbersAreOk(h: Head, m: Message)
    requires HeadOk(h)
    requires m.major == Decimal(h.versionMajor) && m.minor == Decimal(h.versionMinor) && m.code == Decimal(h.statusCode)
    ensures NumbersOk(m)
    ensures ReadNumbers(Initial, m) == Initial.(state := ResponseHttpVersion_statusTextStart,
                                                versionMajor := h.versionMajor, versionMinor := h.versionMinor,
                                                statusCode := h.statusCode)
  {
    hide ReadInt, ReadUnsigned, Decimal;
    NumbersRoundTrip(h.versionMajor);
    NumbersRoundTrip(h.versionMinor);
    NumbersRoundTrip(h.statusCode);
  }

  lemma HeadNumbers(h: Head, body: Body)
    requires HeadOk(h) && h.status != ""
    ensures StatusLineOk(ToMessage(h, body))
    ensures ReadStatusLine(Initial, ToMessage(h, body)) ==
              Initial.(state := HeaderLineStart, versionMajor := h.versionMajor, versionMinor := h.versionMinor,
                       statusCode := h.statusCode, status := h.status)
  {
    hide ReasonOk, NumbersOk, Decimal;
    NumbersAreOk(h, ToMessage(h, body));
    assert "" + h.status == h.status;
  }

  lemma HeadRead(h: Head, body: Body)
    requires HeadOk(h) && h.status != "" && LengthsOk(h.headers)
    ensures var m := ToMessage(h, body);
            StatusLineOk(m) && LinesOk(ReadStatusLine(Initial, m), m.lines) &&
            AfterHead(m) == Initial.(state := HeaderLineStart, versionMajor := h.versionMajor,
                                     versionMinor := h.versionMinor, statusCode := h.statusCode, status := h.status,
                                     headers := h.headers, contentSize := LengthRead(h.headers),
                                     chunked := HasChunked(h.headers))
  {
    hide LengthRead, LengthsOk, HasChunked, HeaderOk, ReasonOk, ReadInt, ReadUnsigned, Decimal;
    HeadNumbers(h, body);
    NoLength();
    var start := ReadStatusLine(Initial, ToMessage(h, body));
    FieldsRead(start, h.headers);
    assert start.headers + h.headers == h.headers;
  }

  // ---- an empty reason ---------------------------------------------------------------------------

  lemma {:induction false} LinesKeepStatus(c: Snapshot, lines: seq<Line>)
    requires LinesOk(c, lines)
    ensures ReadLines(c, lines).status == c.status
    decreases |lines|
  {
    hide EqualIgnoringCase, Atoi, LineOk;
    if lines != [] {
      LinesKeepStatus(ReadLine(c, lines[0]).1, lines[1..]);
    }
  }

  /** No response completes with an empty reason. */
  lemma CompletedHasReason(s: string)
    requires Run(Initial, s).result == ParsingCompleted
    ensures Run(Initial, s).end.status != ""
  {
    hide Run, MessageText, LinesOk, ReadLines, BodyOk;
    var m := HttpMessages.Sound(s);
    LinesKeepStatus(ReadStatusLine(Initial, m), m.lines);
    assert m.reason != "";
  }

  /** What a head with an empty reason is taken for: its first header becomes part of the reason. */
  function Swallowed(h: Head): Head
    requires h.headers != []
  {
    h.(status := ['\r'] + (['\n'] + (h.headers[0].name + ([':'] + ([' '] + h.headers[0].value)))),
       headers := h.headers[1..])
  }

  lemma SwallowedText(h: Head, rest: string)
    requires h.status == "" && h.headers != []
    ensures Crlf(LineText(Field(h.headers[0].name, h.headers[0].value), rest)) == Swallowed(h).status + Crlf(rest)
  {
    var name, value := h.headers[0].name, h.headers[0].value;
    var a := [':'] + ([' '] + value);
    assert a + Crlf(rest) == [':'] + ([' '] + (value + Crlf(rest)));
    assert (name + a) + Crlf(rest) == name + (a + Crlf(rest));
    assert (['\r'] + (['\n'] + (name + a))) + Crlf(rest) == ['\r'] + (['\n'] + ((name + a) + Crlf(rest)));
  }

  lemma SwallowedMessage(h: Head, body: Body, rest: string)
    requires h.status == "" && h.headers != []
    ensures MessageText(ToMessage(h, body), rest) == MessageText(ToMessage(Swallowed(h), body), rest)
  {
    hide Decimal, LineText, Crlf;
    var tail := LinesText(Fields(h.headers[1..]), ['\r'] + (['\n'] + BodyText(body, rest)));
    SwallowedText(h, tail);
    assert Fields(h.headers)[1..] == Fields(h.headers[1..]);
    assert "" + Crlf(LinesText(Fields(h.headers), ['\r'] + (['\n'] + BodyText(body, rest)))) ==
           Crlf(LinesText(Fields(h.headers), ['\r'] + (['\n'] + BodyText(body, rest))));
  }

  /** ASCII. */
  predicate AllChars(s: string) { forall i :: 0 <= i < |s| ==> s[i] as int < 128 }

  lemma SwallowedOk(h: Head)
    requires HeadOk(h) && h.status == "" && h.headers != []
    ensures forall i :: 0 < i < |Swallowed(h).status| ==> Swallowed(h).status[i] != '\r'
    ensures AllChars(Swallowed(h).status) <==> AllChars(h.headers[0].value)
    ensures HeadOk(Swallowed(h)) <==> AllChars(h.headers[0].value)
  {
    assert HeaderOk(h.headers[0]);
    var name, value, status := h.headers[0].name, h.headers[0].value, Swallowed(h).status;
    assert |status| == |name| + |value| + 4;
    assert forall i :: 0 <= i < |name| ==> status[i + 2] == name[i];
    assert forall i :: 2 <= i < |name| + 2 ==> status[i] == name[i - 2];
    assert forall i :: 0 <= i < |value| ==> status[i + |name| + 4] == value[i];
    assert forall i :: |name| + 4 <= i < |status| ==> status[i] == value[i - |name| - 4];
  }

  /** A response with an empty reason is read as one whose reason is the line break and its first header; it is an error
      if that header has a byte from 128 up. */
  lemma FirstHeaderIsSwallowed(h: Head, body: Body, rest: string)
    requires HeadOk(h) && h.status == "" && h.headers != []
    ensures MessageText(ToMessage(h, body), rest) == MessageText(ToMessage(Swallowed(h), body), rest)
    ensures if AllChars(h.headers[0].value) then HeadOk(Swallowed(h))
            else Run(Initial, MessageText(ToMessage(h, body), rest)).result == ParsingError
  {
    hide HeadOk, Run, StatusLineText, LinesText, NumbersOk, Decimal;
    SwallowedMessage(h, body, rest);
    SwallowedOk(h);
    if !AllChars(h.headers[0].value) {
      var m := ToMessage(Swallowed(h), body);
      var tail := LinesText(m.lines, ['\r'] + ([m.afterBlank] + BodyText(m.body, rest)));
      NumbersAreOk(h, m);
      HttpMessages.NumbersRun(Initial, m, tail);
      HttpMessages.ReasonRefused(ReadNumbers(Initial, m), m.reason, Crlf(tail));
    }
  }

  // ---- negative lengths --------------------------------------------------------------------------

  /** A negative Content-Length ends the run before the body, whatever stands beside it. */
  lemma HeadThrows(h: Head, body: Body, rest: string)
    requires HeadOk(h) && h.status != "" && !LengthsOk(h.headers)
    ensures Run(Initial, MessageText(ToMessage(h, body), rest)).result == LengthError
  {
    hide LengthsOk, HeaderOk, Run, StatusLineOk, StatusLineText, LinesText, ReadStatusLine;
    var m := ToMessage(h, body);
    var tail := ['\r'] + ([m.afterBlank] + BodyText(m.body, rest));
    HeadNumbers(h, body);
    HttpMessages.StatusLineRun(Initial, m, LinesText(m.lines, tail));
    FieldsThrow(ReadStatusLine(Initial, m), h.headers, tail);
  }

  /** The connection stays open: the first Connection header says keep-alive, or there is none and the version
      is at least 1.1. */
  predicate StaysOpen(h: Head) {
    || (exists i :: 0 <= i < |h.headers| && IsConnection(h.headers[i])
                    && (forall j :: 0 <= j < i ==> !IsConnection(h.headers[j]))
                    && EqualIgnoringCase(h.headers[i].value, "Keep-Alive"))
    || ((forall i :: 0 <= i < |h.headers| ==> !IsConnection(h.headers[i]))
        && (h.versionMajor > 1 || (h.versionMajor == 1 && h.versionMinor == 1)))
  }

  lemma KeepAliveIsStaysOpen(h: Head, c: Snapshot)
    requires c.headers == h.headers && c.versionMajor == h.versionMajor && c.versionMinor == h.versionMinor
    requires !c.keepAlive
    ensures KeepAlive(c) <==> StaysOpen(h)
  {
    hide EqualIgnoringCase, IsConnection;
    var i := FindConnection(c.headers);
    if i < |h.headers| {
      assert IsConnection(h.headers[i]);
    }
  }

  /** The response fields say what was printed. */
  predicate Restores(end: Snapshot, h: Head, body: string) {
    && end.versionMajor == h.versionMajor
    && end.versionMinor == h.versionMinor
    && end.statusCode == h.statusCode
    && end.status == h.status
    && end.headers == h.headers
    && end.content == body
    && (end.keepAlive <==> StaysOpen(h))
  }

  // ---- counted bodies ----------------------------------------------------------------------------

  /** The body is announced: every Content-Length says its length, there is one unless it is empty, and the body
      is not chunked. */
  predicate Announces(headers: seq<HeaderItem>, body: string) {
    && !HasChunked(headers)
    && (forall i :: 0 <= i < |headers| && IsContentLength(headers[i]) ==> headers[i].value == Decimal(|body|))
    && (body != "" ==> exists i :: 0 <= i < |headers| && IsContentLength(headers[i]))
  }

  lemma {:induction false} LengthTextAnnounced(headers: seq<HeaderItem>, text: string)
    requires forall i :: 0 <= i < |headers| && IsContentLength(headers[i]) ==> headers[i].value == text
    ensures LengthText(headers) ==
              if exists i :: 0 <= i < |headers| && IsContentLength(headers[i]) then text else ""
    decreases |headers|
  {
    hide IsContentLength;
    if headers != [] {
      var front := headers[..|headers| - 1];
      LengthTextAnnounced(front, text);
      assert headers == front + [Back(headers)];
      if IsContentLength(Back(headers)) {
        assert IsContentLength(headers[|headers| - 1]);
      } else if i :| 0 <= i < |headers| && IsContentLength(headers[i]) {
        assert front[i] == headers[i];
      }
    }
  }

  function CountedBody(body: string): Body { if body == "" then Empty else Sized(body) }

  /** The text of a body is the text of any part of it and then the rest. */
  lemma BodyTextSplit(body: string, n: nat, rest: string)
    requires n <= |body|
    ensures BodyText(CountedBody(body), rest) == BodyText(CountedBody(body[..n]), body[n..] + rest)
  {
    assert body + rest == body[..n] + (body[n..] + rest);
    assert "" + rest == rest;
  }

  lemma SameText(h: Head, a: Body, r: string, b: Body, s: string)
    requires BodyText(a, r) == BodyText(b, s)
    ensures MessageText(ToMessage(h, a), r) == MessageText(ToMessage(h, b), s)
  {
    hide BodyText;
  }

  /** What the announced length is read as; without a Content-Length header the body is empty. */
  lemma AnnouncedLength(headers: seq<HeaderItem>, body: string)
    requires Announces(headers, body)
    ensures LengthsOk(headers) <==>
            Atoi(Decimal(|body|)) >= 0 || forall i :: 0 <= i < |headers| ==> !IsContentLength(headers[i])
    ensures LengthsOk(headers) ==> LengthRead(headers) == Atoi(Decimal(|body|))
  {
    hide Atoi, Decimal, IsContentLength;
    LengthTextAnnounced(headers, Decimal(|body|));
    AtoiInRange(Decimal(|body|));
    AtoiOfDecimal(|body|);
    NoLength();
    if LengthsOk(headers) && body != "" {
      var i :| 0 <= i < |headers| && IsContentLength(headers[i]);
      assert LengthOk(headers[i]);
    }
  }

  /** What becomes of a printed response with a body of any length: `atoi` of the length decides. If it is negative,
      the length cannot be reserved; otherwise the parser completes after that many bytes of the body. If the reason is
      empty, something else is read as the reason. */
  lemma CountedOutcome(h: Head, body: string, rest: string)
    requires HeadOk(h) && Announces(h.headers, body)
    ensures var o := Run(Initial, MessageText(ToMessage(h, CountedBody(body)), rest));
            var n := Atoi(Decimal(|body|));
            if h.status == "" then o.result == ParsingCompleted ==> o.end.status != ""
            else if n < 0 then o.result == LengthError
            else
              && n <= |body| && o.result == ParsingCompleted
              && o.rest == body[n..] + rest && Restores(o.end, h, body[..n])
  {
    hide LengthRead, LengthsOk, HasChunked, HeaderOk, ReasonOk, Run, KeepAlive, StaysOpen, IsContentLength, Decimal,
         StatusLineOk, LinesOk, ReadLines, Atoi, Announces, LinesText, StatusLineText;
    AnnouncedLength(h.headers, body);
    AtoiOfDecimal(|body|);
    var n := Atoi(Decimal(|body|));
    if h.status == "" {
      if Run(Initial, MessageText(ToMessage(h, CountedBody(body)), rest)).result == ParsingCompleted {
        CompletedHasReason(MessageText(ToMessage(h, CountedBody(body)), rest));
      }
    } else if n < 0 {
      SomeLength(h.headers, body);
      HeadThrows(h, CountedBody(body), rest);
    } else {
      assert !HasChunked(h.headers) by {
        NotChunked(h.headers, body);
      }
      var m := ToMessage(h, CountedBody(body[..n]));
      BodyTextSplit(body, n, rest);
      SameText(h, CountedBody(body), rest, CountedBody(body[..n]), body[n..] + rest);
      HeadRead(h, CountedBody(body[..n]));
      KeepAliveIsStaysOpen(h, AfterHead(m));
      HttpMessages.Complete(m, body[n..] + rest);
    }
  }

  lemma SomeLength(headers: seq<HeaderItem>, body: string)
    requires Announces(headers, body) && Atoi(Decimal(|body|)) < 0
    ensures !LengthsOk(headers)
  {
    hide Atoi, Decimal, IsContentLength;
    AtoiOfDecimal(|body|);
    var i :| 0 <= i < |headers| && IsContentLength(headers[i]);
    assert !LengthOk(headers[i]);
  }

  lemma NotChunked(headers: seq<HeaderItem>, body: string)
    requires Announces(headers, body)
    ensures !HasChunked(headers)
  {
  }

  /** Printing a response and parsing it restores version, status, reason, headers, body and the keep-alive
      decision, and completes exactly on the last byte, if and only if an `int` holds the length of the body and the
      reason is not empty. */
  lemma CountedRoundTrip(h: Head, body: string, rest: string)
    requires HeadOk(h) && Announces(h.headers, body)
    ensures var o := Run(Initial, MessageText(ToMessage(h, CountedBody(body)), rest));
            o.result == ParsingCompleted && o.rest == rest && Restores(o.end, h, body)
            <==> |body| < TWO_31 && h.status != ""
  {
    hide Run, MessageText, Announces, Decimal, Atoi, HeadOk, StaysOpen;
    CountedOutcome(h, body, rest);
    AtoiOfDecimal(|body|);
    var n := Atoi(Decimal(|body|));
    if h.status == "" {
    } else if n == |body| {
      assert body[n..] + rest == rest && body[..n] == body;
    } else if 0 <= n {
      assert |body[n..] + rest| > |rest|;
    }
  }

  lemma LengthHeader(n: nat)
    ensures var h := HeaderItem("Content-Length", Decimal(n));
            HeaderOk(h) && IsContentLength(h) && !IsChunkedEncoding(h)
  {
    var s := Decimal(n);
    assert forall i :: 0 <= i < |s| ==> DigitValue(s[i]) < 10;
  }

  /** A head with one Content-Length header. */
  function PlainHead(n: nat): Head { Head(1, 1, 200, "OK", [HeaderItem("Content-Length", Decimal(n))]) }

  lemma PlainHeadOk(body: string)
    ensures HeadOk(PlainHead(|body|)) && Announces(PlainHead(|body|).headers, body)
  {
    hide HeaderOk, IsContentLength, IsChunkedEncoding, Decimal;
    LengthHeader(|body|);
    var headers := PlainHead(|body|).headers;
    assert IsContentLength(headers[0]);
    assert ReasonOk("OK");
  }

  /** A body of 2^32 bytes: its length is read as zero, so the response completes without it. */
  lemma LongBodyIsLost(body: string, rest: string)
    requires |body| == TWO_32
    ensures var o := Run(Initial, MessageText(ToMessage(PlainHead(TWO_32), Sized(body)), rest));
            && HeadOk(PlainHead(TWO_32)) && Announces(PlainHead(TWO_32).headers, body)
            && o.result == ParsingCompleted && o.end.content == "" && o.rest == body + rest
  {
    hide Run, MessageText, Announces, HeadOk, Decimal, Atoi, StaysOpen;
    PlainHeadOk(body);
    CountedOutcome(PlainHead(TWO_32), body, rest);
    AtoiOfDecimal(TWO_32);
    assert body[0..] == body;
  }

  /** A response with a length and an empty reason completes with the length in its reason, and without its body. */
  lemma LengthIsSwallowed(body: string, rest: string)
    requires body != ""
    ensures var h := PlainHead(|body|).(status := "");
            var o := Run(Initial, MessageText(ToMessage(h, Sized(body)), rest));
            && HeadOk(h) && Announces(h.headers, body)
            && o.result == ParsingCompleted && o.end.status == "\r\nContent-Length: " + Decimal(|body|)
            && o.end.headers == [] && o.end.content == "" && o.rest == body + rest
  {
    hide Run, MessageText, Announces, HeadOk, Decimal, Swallowed, IsContentLength, StaysOpen;
    PlainHeadOk(body);
    var h := PlainHead(|body|).(status := "");
    assert HeadOk(h) by {
      EmptyReasonOk(PlainHead(|body|));
    }
    SwallowedLength(|body|);
    FirstHeaderIsSwallowed(h, Sized(body), rest);
    assert body + rest == "" + (body + rest);
    SameText(Swallowed(h), Sized(body), rest, Empty, body + rest);
    UnframedIsEmpty(Swallowed(h), body + rest);
  }

  lemma SwallowedLength(n: nat)
    ensures var h := PlainHead(n).(status := "");
            && AllChars(h.headers[0].value)
            && Swallowed(h) == h.(status := "\r\nContent-Length: " + Decimal(n), headers := [])
  {
    DecimalIsChars(n);
    hide Decimal;
    assert "\r\nContent-Length: " + Decimal(n) ==
           ['\r'] + (['\n'] + ("Content-Length" + ([':'] + ([' '] + Decimal(n)))));
  }

  /** Without a length and without "chunked" there is no body: the response completes at the blank line. */
  lemma UnframedIsEmpty(h: Head, rest: string)
    requires HeadOk(h) && h.status != "" && LengthsOk(h.headers)
    requires !HasChunked(h.headers) && LengthRead(h.headers) == 0
    ensures var o := Run(Initial, MessageText(ToMessage(h, Empty), rest));
            o.result == ParsingCompleted && o.rest == rest && Restores(o.end, h, "")
  {
    hide LengthRead, LengthsOk, HasChunked, HeaderOk, ReasonOk, Run, KeepAlive, StaysOpen, Decimal,
         StatusLineOk, LinesOk, ReadLines, LinesText, StatusLineText;
    HeadRead(h, Empty);
    var m := ToMessage(h, Empty);
    KeepAliveIsStaysOpen(h, AfterHead(m));
    HttpMessages.Complete(m, rest);
  }

  lemma EmptyReasonOk(h: Head)
    requires HeadOk(h)
    ensures HeadOk(h.(status := ""))
  {
  }

  lemma DecimalIsChars(n: nat)
    ensures AllChars(Decimal(n))
  {
    NumeralRoundTrip(n, 10);
    assert forall i :: 0 <= i < |Decimal(n)| ==> DigitValue(Decimal(n)[i]) < 10;
  }

  // ---- names in any case -------------------------------------------------------------------------

  /** A head with one header. */
  function OneHeader(name: string, value: string): Head { Head(1, 1, 200, "OK", [HeaderItem(name, value)]) }

  lemma SameLettersOfName(name: string, other: string)
    requires SameLetters(name, other) && AllNameChars(other) && other != ""
    ensures name != "" && AllNameChars(name)
  {
    forall i | 0 <= i < |name|
      ensures IsNameChar(name[i])
    {
      assert SameLetter(name[i], other[i]) && IsNameChar(other[i]);
      LetterOrSame(name[i], other[i]);
    }
  }

  lemma LetterOrSame(x: char, y: char)
    requires SameLetter(x, y) && IsNameChar(y)
    ensures IsNameChar(x)
  {
  }

  lemma SameLength(a: string, b: string)
    requires SameLetters(a, b)
    ensures |a| == |b|
  {
  }

  /** A length header in any spelling by letters of either case announces the body: the parser completes after that
      many bytes. */
  lemma LengthInAnyCase(name: string, body: string, rest: string)
    requires SameLetters(name, "Content-Length") && |body| < TWO_31
    ensures var h := OneHeader(name, Decimal(|body|));
            var o := Run(Initial, MessageText(ToMessage(h, CountedBody(body)), rest));
            o.result == ParsingCompleted && o.rest == rest && o.end.content == body
  {
    hide Run, MessageText, HeadOk, Announces, Decimal, EqualIgnoringCase, SameLetters;
    var h := OneHeader(name, Decimal(|body|));
    AnyCaseOk(name, body);
    CountedRoundTrip(h, body, rest);
  }

  lemma AnyCaseOk(name: string, body: string)
    requires SameLetters(name, "Content-Length")
    ensures var h := OneHeader(name, Decimal(|body|)); HeadOk(h) && Announces(h.headers, body)
  {
    hide Decimal, EqualIgnoringCase, SameLetters, AllNameChars, NoControls;
    EqualIgnoringCaseExact(name, "Content-Length");
    assert |name| == 14 by {
      SameLength(name, "Content-Length");
    }
    LengthHeader(|body|);
    SameLettersOfName(name, "Content-Length");
    var h := HeaderItem(name, Decimal(|body|));
    assert !IsChunkedEncoding(h) by {
      OtherLength(name, "Transfer-Encoding");
    }
    assert [h][0] == h;
    assert ReasonOk("OK");
  }

  /** A Connection header in any spelling decides whether the connection stays open, by whether it says keep-alive in
      any spelling. */
  lemma ConnectionInAnyCase(name: string, value: string, rest: string)
    requires SameLetters(name, "Connection") && NoControls(value)
    ensures var o := Run(Initial, MessageText(ToMessage(OneHeader(name, value), Empty), rest));
            o.result == ParsingCompleted && o.rest == rest && (o.end.keepAlive <==> SameLetters(value, "Keep-Alive"))
  {
    hide Run, MessageText, EqualIgnoringCase, SameLetters, Decimal, HeaderOk;
    var h := OneHeader(name, value);
    ConnectionOk(name, value);
    assert h.headers[0] == HeaderItem(name, value);
    CountedRoundTrip(h, "", rest);
    EqualIgnoringCaseExact(value, "Keep-Alive");
  }

  lemma ConnectionOk(name: string, value: string)
    requires SameLetters(name, "Connection") && NoControls(value)
    ensures var h := OneHeader(name, value);
            HeadOk(h) && Announces(h.headers, "") && EqualIgnoringCase(name, "Connection")
  {
    EqualIgnoringCaseExact(name, "Connection");
    SameLettersOfName(name, "Connection");
    assert |name| == 10;
    hide EqualIgnoringCase, SameLetters;
    OtherLength(name, "Content-Length");
    OtherLength(name, "Transfer-Encoding");
    assert ReasonOk("OK");
  }

  lemma OtherLength(a: string, b: string)
    requires |a| != |b|
    ensures !EqualIgnoringCase(a, b)
  {
  }

  // ---- chunked bodies ----------------------------------------------------------------------------

  predicate AllNonEmpty(parts: seq<string>) { forall i :: 0 <= i < |parts| ==> parts[i] != "" }

  /** The parts as chunks: sizes in hexadecimal, each with its own extension. */
  function ToChunks(parts: seq<string>, extensions: seq<Extension>): (chunks: seq<Chunk>)
    requires |extensions| == |parts|
    ensures |chunks| == |parts|
    ensures forall i :: 0 <= i < |parts| ==>
              chunks[i] == Chunk(SizeLine(Numeral(|parts[i]|, 16), extensions[i]), parts[i])
  {
    if parts == [] then []
    else
      var c := Chunk(SizeLine(Numeral(|parts[0]|, 16), extensions[0]), parts[0]);
      assert forall i :: 0 < i < |parts| ==> parts[i] == parts[1..][i - 1] && extensions[i] == extensions[1..][i - 1];
      [c] + ToChunks(parts[1..], extensions[1..])
  }

  lemma {:induction false} DataOfChunks(parts: seq<string>, extensions: seq<Extension>)
    requires |extensions| == |parts|
    ensures Data(ToChunks(parts, extensions)) == Concat(parts)
    decreases |parts|
  {
    hide Numeral;
    if parts != [] {
      DataOfChunks(parts[1..], extensions[1..]);
      var chunks := ToChunks(parts, extensions);
      assert chunks[1..] == ToChunks(parts[1..], extensions[1..]);
    }
  }

  lemma {:induction false} PartNotLonger(parts: seq<string>, i: nat)
    requires i < |parts|
    ensures |parts[i]| <= |Concat(parts)|
    decreases |parts|
  {
    if i > 0 {
      PartNotLonger(parts[1..], i - 1);
    }
  }

  function ToChunkedBody(parts: seq<string>, extensions: seq<Extension>, last: Extension, trailers: seq<Trailer>)
    : ChunkedBody
    requires |extensions| == |parts|
  {
    ChunkedBody(ToChunks(parts, extensions), SizeLine(Numeral(0, 16), last), trailers)
  }

  predicate DecorationOk(extensions: seq<Extension>, last: Extension, trailers: seq<Trailer>) {
    && (forall i :: 0 <= i < |extensions| ==> ExtensionOk(extensions[i]))
    && ExtensionOk(last)
    && forall i :: 0 <= i < |trailers| ==> TrailerOk(trailers[i])
  }

  lemma PartIsChunk(part: string, e: Extension)
    requires 0 < |part| <= MAX_SIZE && ExtensionOk(e)
    ensures ChunkOk(Chunk(SizeLine(Numeral(|part|, 16), e), part))
  {
    StrtolOfHex(|part|);
    var s := Numeral(|part|, 16);
    assert forall i :: 0 <= i < |s| ==> DigitValue(s[i]) < 16;
  }

  lemma PartsAreChunks(parts: seq<string>, extensions: seq<Extension>, last: Extension, trailers: seq<Trailer>)
    requires AllNonEmpty(parts) && |extensions| == |parts| && DecorationOk(extensions, last, trailers)
    requires |Concat(parts)| <= MAX_SIZE
    ensures ChunkedOk(ToChunkedBody(parts, extensions, last, trailers))
  {
    hide ChunkOk, ExtensionOk, TrailerOk, Numeral;
    forall i | 0 <= i < |parts|
      ensures ChunkOk(ToChunks(parts, extensions)[i])
    {
      PartNotLonger(parts, i);
      PartIsChunk(parts[i], extensions[i]);
    }
    LastSizeLine(last);
  }

  lemma LastSizeLine(last: Extension)
    requires ExtensionOk(last)
    ensures SizeLineOk(SizeLine(Numeral(0, 16), last)) && Strtol(Numeral(0, 16), 16) == 0
  {
    StrtolOfHex(0);
  }

  /** A body is taken as chunked by a header in any spelling. */
  lemma ChunkedInAnyCase(name: string, value: string, parts: seq<string>, rest: string)
    requires SameLetters(name, "Transfer-Encoding") && SameLetters(value, "chunked")
    requires AllNonEmpty(parts) && |Concat(parts)| <= MAX_SIZE
    ensures var body := Chunked(ToChunkedBody(parts, seq(|parts|, _ => NoExtension), NoExtension, []));
            var o := Run(Initial, MessageText(ToMessage(OneHeader(name, value), body), rest));
            o.result == ParsingCompleted && o.rest == rest && o.end.content == Concat(parts)
  {
    hide Run, MessageText, EqualIgnoringCase, SameLetters, Decimal, Numeral, HeadOk;
    var h := OneHeader(name, value);
    ChunkedHeadOk(name, value);
    ChunkedRoundTrip(h, parts, seq(|parts|, _ => NoExtension), NoExtension, [], rest);
  }

  lemma ChunkedHeadOk(name: string, value: string)
    requires SameLetters(name, "Transfer-Encoding") && SameLetters(value, "chunked")
    ensures var h := OneHeader(name, value); HeadOk(h) && HasChunked(h.headers) && LengthsOk(h.headers)
  {
    EqualIgnoringCaseExact(name, "Transfer-Encoding");
    EqualIgnoringCaseExact(value, "chunked");
    SameLettersOfName(name, "Transfer-Encoding");
    SameLettersOfName(value, "chunked");
    NameHasNoControls(value);
    assert |name| == 17;
    hide EqualIgnoringCase, SameLetters, AllNameChars, NoControls;
    OtherLength(name, "Content-Length");
    var h := HeaderItem(name, value);
    assert [h][0] == h;
    assert ReasonOk("OK");
  }

  lemma NameHasNoControls(s: string)
    requires AllNameChars(s)
    ensures NoControls(s)
  {
  }

  /** For every body and every partition of it into non-empty chunks, with any extensions and trailers, the parser
      completes exactly on the last byte with the body as content, even when a Content-Length stands beside
      Transfer-Encoding, unless that one is negative or the reason is empty. */
  lemma ChunkedRoundTrip(h: Head, parts: seq<string>, extensions: seq<Extension>, last: Extension,
                         trailers: seq<Trailer>, rest: string)
    requires HeadOk(h) && HasChunked(h.headers)
    requires AllNonEmpty(parts) && |extensions| == |parts| && DecorationOk(extensions, last, trailers)
    requires |Concat(parts)| <= MAX_SIZE
    ensures var body := Chunked(ToChunkedBody(parts, extensions, last, trailers));
            var o := Run(Initial, MessageText(ToMessage(h, body), rest));
            o.result == ParsingCompleted && o.rest == rest && Restores(o.end, h, Concat(parts))
            <==> LengthsOk(h.headers) && h.status != ""
  {
    hide LengthRead, LengthsOk, HasChunked, HeaderOk, ReasonOk, Run, KeepAlive, StaysOpen, Decimal, Numeral,
         StatusLineOk, LinesOk, ReadLines, ChunkedOk;
    var body := Chunked(ToChunkedBody(parts, extensions, last, trailers));
    var m := ToMessage(h, body);
    if h.status == "" {
      if Run(Initial, MessageText(m, rest)).result == ParsingCompleted {
        CompletedHasReason(MessageText(m, rest));
      }
    } else if !LengthsOk(h.headers) {
      HeadThrows(h, body, rest);
    } else {
      HeadRead(h, body);
      PartsAreChunks(parts, extensions, last, trailers);
      DataOfChunks(parts, extensions);
      KeepAliveIsStaysOpen(h, AfterHead(m));
      HttpMessages.Complete(m, rest);
    }
  }
}
