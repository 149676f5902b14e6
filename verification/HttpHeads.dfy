/** Which response heads of RFC 9112, sections 4 and 5, the parser takes: it wants ASCII in the reason, a space
    after the colon of a field and no tab in its value. */
module HttpHeads {
  import opened Text
  import opened HttpParser
  import opened HttpGrammar
  import opened HttpWalk
  import opened HttpRuns
  import opened HttpRefused
  import opened HttpRoundTrip
  import HttpMessages

  // ---- heads in the syntax of the standard -------------------------------------------------------

  /** A field line: what stands between the colon and the line break is the value with the blanks around it. */
  datatype FieldLine = FieldLine(name: string, text: string)

  /** Status line and field lines, without the blank line. */
  datatype StandardHead =
    StandardHead(major: char, minor: char, code: string, reason: string, fields: seq<FieldLine>)

  predicate FieldLegal(f: FieldLine) { IsToken(f.name) && AllFieldChars(f.text) }

  /** Status codes have three digits and begin with 1 to 5 (section 15 of RFC 9110). */
  predicate CodeLegal(s: string) { |s| == 3 && AllDigits(s) && '1' <= s[0] <= '5' }

  predicate HeadLegal(h: StandardHead) {
    && IsDigit(h.major) && IsDigit(h.minor) && CodeLegal(h.code) && AllFieldChars(h.reason)
    && forall i :: 0 <= i < |h.fields| ==> FieldLegal(h.fields[i])
  }

  function FieldText(f: FieldLine, rest: string): string { f.name + ([':'] + (f.text + Crlf(rest))) }

  function FieldsText(fields: seq<FieldLine>, rest: string): string {
    if fields == [] then rest else FieldText(fields[0], FieldsText(fields[1..], rest))
  }

  /** The message that has this status line. */
  function StatusOf(h: StandardHead): Message { Message([h.major], [h.minor], h.code, h.reason, [], '\n', Empty) }

  function HeadText(h: StandardHead, rest: string): string {
    StatusLineText(StatusOf(h), FieldsText(h.fields, rest))
  }

  // ---- what the parser takes of it ---------------------------------------------------------------

  /** The header the parser makes of a field line: all but the first character of its text is the value. */
  function ItemOf(f: FieldLine): HeaderItem { HeaderItem(f.name, if f.text == "" then "" else f.text[1..]) }

  function Items(fields: seq<FieldLine>): seq<HeaderItem> {
    if fields == [] then [] else [ItemOf(fields[0])] + Items(fields[1..])
  }

  predicate FieldTaken(f: FieldLine) {
    f.text != "" && f.text[0] == ' ' && '\t' !in f.text && LengthOk(ItemOf(f))
  }

  predicate FieldsTaken(fields: seq<FieldLine>) { forall i :: 0 <= i < |fields| ==> FieldTaken(fields[i]) }

  predicate HeadTaken(h: StandardHead) { AllChars(h.reason) && FieldsTaken(h.fields) }

  predicate Refused(o: Outcome) { o.result == ParsingError || o.result == LengthError }

  // ---- fields ------------------------------------------------------------------------------------

  lemma TextRefused(c: Snapshot, name: string, text: string, rest: string)
    requires c.state.SpaceBeforeHeaderValue? && HasOpenHeader(c) && AllFieldChars(text)
    requires !(text != "" && text[0] == ' ' && '\t' !in text)
    ensures Run(c, text + Crlf(rest)).result == ParsingError
  {
    hide Run, Step;
    if text == "" || text[0] != ' ' {
      var whole := text + Crlf(rest);
      assert whole == [whole[0]] + whole[1..];
      assert whole[0] == if text == "" then '\r' else text[0];
      UnexpectedByte(c, whole[0]);
      RunStep(c, whole[0], whole[1..]);
    } else {
      var valuing := c.(state := HeaderValue);
      HttpMessages.HeaderSteps(c, ' ');
      assert text + Crlf(rest) == [' '] + (text[1..] + Crlf(rest));
      RunStep(c, ' ', text[1..] + Crlf(rest));
      var i :| 0 <= i < |text| && text[i] == '\t';
      assert text[1..][i - 1] == '\t';
      var front, b, more := StopsInside(valuing, text[1..], Crlf(rest));
      TabInValue(Absorb(valuing, front), b);
    }
  }

  lemma TabInValue(c: Snapshot, b: char)
    requires c.state.HeaderValue? && HasOpenHeader(c) && IsControl(b) && b != '\r'
    ensures Step(c, b).0 == ParsingError
  {
  }

  /** One field line: the header is added, or it is an error. */
  lemma FieldOutcome(c: Snapshot, f: FieldLine, rest: string)
    requires c.state.HeaderLineStart? && FieldLegal(f) && c.contentSize == LengthRead(c.headers)
    ensures var o := Run(c, FieldText(f, rest));
            if FieldTaken(f) then o == Run(ReadHeaders(c, [ItemOf(f)]), rest) else Refused(o)
  {
    hide Run, Step, AllNameChars, AllTokenChars, AllFieldChars, LengthOk, ReadLine, ReadHeaders, LengthRead, Crlf,
      NoControls;
    var h := ItemOf(f);
    NameIsToken(f.name);
    if f.text != "" && f.text[0] == ' ' && '\t' !in f.text {
      assert f.text + Crlf(rest) == [' '] + (h.value + Crlf(rest));
      ValueHasNoControls(f.text);
      HeaderResult(c, h);
      HttpMessages.FieldRun(c, h.name, h.value, rest);
      if LengthOk(h) {
        ReadHeader(c, h);
      }
    } else {
      HttpMessages.NameColonRun(c, f.name, f.text + Crlf(rest));
      var named := c.(headers := c.headers + [HeaderItem(f.name, "")], state := SpaceBeforeHeaderValue);
      TextRefused(named, f.name, f.text, rest);
    }
  }

  lemma ValueHasNoControls(text: string)
    requires AllFieldChars(text) && text != "" && '\t' !in text
    ensures NoControls(text[1..])
  {
    assert forall i :: 0 <= i < |text| ==> text[i] != '\t';
  }

  lemma {:induction false} FieldsOutcome(c: Snapshot, fields: seq<FieldLine>, rest: string)
    requires c.state.HeaderLineStart? && c.contentSize == LengthRead(c.headers)
    requires forall i :: 0 <= i < |fields| ==> FieldLegal(fields[i])
    ensures var o := Run(c, FieldsText(fields, rest));
            if FieldsTaken(fields) then o == Run(ReadHeaders(c, Items(fields)), rest) else Refused(o)
    decreases |fields|
  {
    hide Run, FieldLegal, FieldTaken, FieldText, LengthRead, HasChunked;
    if fields == [] {
      assert c.headers + [] == c.headers;
      NoneChunked();
    } else {
      var f, others := fields[0], fields[1..];
      FieldOutcome(c, f, FieldsText(others, rest));
      if FieldTaken(f) {
        FieldsOutcome(ReadHeaders(c, [ItemOf(f)]), others, rest);
        ReadHeadersSplit(c, Items(fields));
        assert FieldsTaken(fields) <==> FieldsTaken(others) by {
          assert fields == [f] + others;
        }
      }
    }
  }

  lemma NoneChunked()
    ensures !HasChunked([])
  {
  }

  // ---- the whole head ----------------------------------------------------------------------------

  /** The parser before the reason. */
  function AtReason(h: StandardHead): Snapshot
    requires HeadLegal(h)
  {
    Initial.(state := ResponseHttpVersion_statusTextStart, versionMajor := DigitValue(h.major),
             versionMinor := DigitValue(h.minor), statusCode := Magnitude(h.code, 10, 0))
  }

  /** The parser after a reason and fields. */
  function AfterFields(c: Snapshot, reason: string, fields: seq<FieldLine>): Snapshot {
    ReadHeaders(c.(state := HeaderLineStart, status := reason), Items(fields))
  }

  /** The parser after the head. */
  function ReadHead(h: StandardHead): Snapshot
    requires HeadLegal(h)
  {
    AfterFields(AtReason(h), h.reason, h.fields)
  }

  lemma NumbersTaken(h: StandardHead)
    requires HeadLegal(h)
    ensures NumbersOk(StatusOf(h))
    ensures ReadNumbers(Initial, StatusOf(h)) == AtReason(h)
  {
    OneDigit(h.major);
    OneDigit(h.minor);
    ThreeDigits(h.code);
  }

  lemma OneDigit(c: char)
    requires IsDigit(c)
    ensures NumberOk([c]) && ReadInt(0, [c]) == DigitValue(c)
  {
    assert [c][1..] == "";
  }

  lemma ThreeDigits(s: string)
    requires CodeLegal(s)
    ensures NumberOk(s) && ReadUnsigned(0, s) == Magnitude(s, 10, 0) && 100 <= Magnitude(s, 10, 0) <= 599
  {
    var a, b, c := DigitValue(s[0]), DigitValue(s[1]), DigitValue(s[2]);
    assert s[1..][1..] == [s[2]] && [s[2]][1..] == "";
    assert Magnitude([s[2]], 10, 10 * a + b) == 100 * a + 10 * b + c;
    assert Magnitude(s[1..], 10, a) == Magnitude([s[2]], 10, 10 * a + b);
    ReadUnsignedIsMagnitude(0, s);
  }

  /** A reason, which may begin with a line break, and the fields after it. */
  lemma ReasonAndFields(c: Snapshot, reason: string, fields: seq<FieldLine>, rest: string)
    requires c.state.ResponseHttpVersion_statusTextStart? && c.status == "" && c.headers == [] && c.contentSize == 0
    requires reason != "" && forall i :: 0 < i < |reason| ==> reason[i] != '\r'
    requires forall i :: 0 <= i < |fields| ==> FieldLegal(fields[i])
    ensures var o := Run(c, reason + Crlf(FieldsText(fields, rest)));
            if AllChars(reason) && FieldsTaken(fields) then o == Run(AfterFields(c, reason, fields), rest)
            else Refused(o)
  {
    hide Run, FieldsTaken, FieldLegal, FieldsText, ReadHeaders, LengthRead;
    var tail := FieldsText(fields, rest);
    if AllChars(reason) {
      HttpMessages.ReasonRun(c, reason, tail);
      assert "" + reason == reason;
      NoLength();
      FieldsOutcome(c.(state := HeaderLineStart, status := reason), fields, rest);
    } else {
      HttpMessages.ReasonRefused(c, reason, Crlf(tail));
    }
  }

  /** A head in the syntax of the standard, with a reason, is read up to its last byte if and only if the reason is
      ASCII, and each field has a space after its colon, no tab, and no length that is negative to `atoi`; any other
      is an error. The version, the code and the reason are those of the head, and each value is the text of the field
      without that one space. */
  lemma LegalHead(h: StandardHead, rest: string)
    requires HeadLegal(h) && h.reason != ""
    ensures var o := Run(Initial, HeadText(h, rest));
            if HeadTaken(h) then o == Run(ReadHead(h), rest) else Refused(o)
  {
    hide Run, FieldsTaken, FieldLegal, FieldsText, NumbersOk, StatusLineText, AllFieldChars, AfterFields;
    NumbersTaken(h);
    LegalReason(h.reason);
    HttpMessages.NumbersRun(Initial, StatusOf(h), FieldsText(h.fields, rest));
    ReasonAndFields(AtReason(h), h.reason, h.fields, rest);
  }

  /** A field line as a reason, after a line break. */
  function AsReason(f: FieldLine): string { "\r\n" + f.name + ":" + f.text }

  /** A head with an empty reason, legal too, is read with a line break and its first field as the reason, if that field
      is ASCII and the others can be read; otherwise it is an error. */
  lemma EmptyReason(h: StandardHead, rest: string)
    requires HeadLegal(h) && h.reason == "" && h.fields != []
    ensures var o := Run(Initial, HeadText(h, rest));
            if AllChars(h.fields[0].text) && FieldsTaken(h.fields[1..])
            then o == Run(AfterFields(AtReason(h), AsReason(h.fields[0]), h.fields[1..]), rest)
            else Refused(o)
  {
    hide Run, FieldsTaken, NumbersOk, StatusLineText, AfterFields, AllFieldChars, AllNameChars, AsReason, FieldText,
      Crlf, AllChars;
    var f, others := h.fields[0], h.fields[1..];
    var tail := FieldsText(others, rest);
    NumbersTaken(h);
    HttpMessages.NumbersRun(Initial, StatusOf(h), FieldsText(h.fields, rest));
    assert "" + Crlf(FieldText(f, tail)) == Crlf(FieldText(f, tail));
    ReasonFromField(f, tail);
    AsReasonChars(f);
    ReasonAndFields(AtReason(h), AsReason(f), others, rest);
  }

  lemma ReasonFromField(f: FieldLine, rest: string)
    ensures Crlf(FieldText(f, rest)) == AsReason(f) + Crlf(rest)
  {
  }

  lemma AsReasonChars(f: FieldLine)
    requires FieldLegal(f)
    ensures AsReason(f) != "" && forall i :: 0 < i < |AsReason(f)| ==> AsReason(f)[i] != '\r'
    ensures AllChars(AsReason(f)) <==> AllChars(f.text)
  {
    PlainPart(f.name);
    PlainPart(f.text);
    NameIsAscii(f.name);
    var reason := AsReason(f);
    hide AllTokenChars, AllFieldChars;
    assert forall i :: 2 <= i < |f.name| + 2 ==> reason[i] == f.name[i - 2];
    assert forall i :: 0 <= i < |f.text| ==> reason[i + |f.name| + 3] == f.text[i];
    assert forall i :: |f.name| + 3 <= i < |reason| ==> reason[i] == f.text[i - |f.name| - 3];
  }

  lemma PlainPart(s: string)
    requires AllTokenChars(s) || AllFieldChars(s)
    ensures forall i :: 0 <= i < |s| ==> s[i] != '\r'
  {
  }

  lemma NameIsAscii(s: string)
    requires AllTokenChars(s)
    ensures AllChars(s)
  {
    NameIsToken(s);
  }

  lemma LegalReason(reason: string)
    requires AllFieldChars(reason) && reason != ""
    ensures '\r' !in reason
    ensures AllChars(reason) <==> ReasonOk(reason)
  {
  }

  // ---- blanks around a value ---------------------------------------------------------------------

  predicate IsBlank(c: char) { c == ' ' || c == '\t' }

  /** A field text without the blanks around it: the value (section 5.5 of RFC 9110). */
  function Stripped(s: string): (r: string)
    ensures |r| <= |s|
    decreases |s|
  {
    if s != "" && IsBlank(s[0]) then Stripped(s[1..])
    else if s != "" && IsBlank(s[|s| - 1]) then Stripped(s[..|s| - 1])
    else s
  }

  /** Of a field that is taken, the parser keeps the value of the standard if and only if no other blank stands at
      either end of the text. */
  lemma ValueKept(f: FieldLine)
    requires FieldTaken(f)
    ensures var v := f.text[1..];
            ItemOf(f).value == Stripped(f.text) <==> v == "" || (!IsBlank(v[0]) && !IsBlank(v[|v| - 1]))
  {
    hide LengthOk;
    var v := f.text[1..];
    assert Stripped(f.text) == Stripped(v);
  }

  /** A tab between two words, and a word of another alphabet as the reason, are legal and refused. */
  lemma TabIsRefused(rest: string)
    ensures var h := StandardHead('1', '1', "200", "OK", [FieldLine("Server", " a\tb")]);
            HeadLegal(h) && Refused(Run(Initial, HeadText(h, rest)))
    ensures var h := StandardHead('1', '1', "200", [0xC4 as char], []);
            HeadLegal(h) && Refused(Run(Initial, HeadText(h, rest)))
  {
    hide Run, HeadText, Refused;
    var f := FieldLine("Server", " a\tb");
    var h := StandardHead('1', '1', "200", "OK", [f]);
    assert f.text[2] == '\t';
    assert !FieldTaken(h.fields[0]);
    LegalHead(h, rest);
    var k := StandardHead('1', '1', "200", [0xC4 as char], []);
    assert !IsChar(k.reason[0]);
    LegalHead(k, rest);
  }

  // ---- codings that are not seen -----------------------------------------------------------------

  function AfterLastComma(s: string): string { if ',' in s then AfterLastComma(s[1..]) else s }

  /** The last coding of the list is "chunked": the body is chunked (section 6.3 of RFC 9112). */
  predicate SaysChunked(h: HeaderItem) {
    && EqualIgnoringCase(h.name, "Transfer-Encoding")
    && EqualIgnoringCase(Stripped(AfterLastComma(h.value)), "chunked")
  }

  /** The parser sees that a body is chunked if and only if the value has no comma and no blank. */
  lemma CodingSeen(h: HeaderItem)
    ensures IsChunkedEncoding(h) ==> SaysChunked(h)
    ensures SaysChunked(h) ==>
              (IsChunkedEncoding(h) <==>
               forall i :: 0 <= i < |h.value| ==> h.value[i] != ',' && !IsBlank(h.value[i]))
  {
    var v := h.value;
    if IsChunkedEncoding(h) {
      forall i | 0 <= i < |v|
        ensures v[i] != ',' && !IsBlank(v[i])
      {
        assert ToLower(v[i]) == ToLower("chunked"[i]);
      }
    }
    if forall i :: 0 <= i < |v| ==> v[i] != ',' && !IsBlank(v[i]) {
      assert AfterLastComma(v) == v;
      assert Stripped(v) == v;
    }
  }

  /** Two ways to write a chunked body that the standard knows: "gzip, chunked", and a blank at the end of the line. The
      parser takes the head, sees no body, and completes at the blank line with the body unread. */
  lemma CodingNotSeen(value: string, rest: string)
    requires value == "gzip, chunked" || value == "chunked "
    ensures var h := StandardHead('1', '1', "200", "OK", [FieldLine("Transfer-Encoding", " " + value)]);
            var o := Run(Initial, HeadText(h, Crlf(rest)));
            && HeadLegal(h) && HeadTaken(h)
            && o.result == ParsingCompleted && o.rest == rest && o.end.content == ""
            && o.end.headers == [HeaderItem("Transfer-Encoding", value)]
  {
    hide Run, HeadText, HeadLegal, HeadTaken, FieldLegal, FieldTaken, IsChunkedEncoding, IsContentLength;
    var f := FieldLine("Transfer-Encoding", " " + value);
    assert f.text[1..] == value;
    CodingField(value);
    OnlyField(f, rest);
  }

  lemma CodingField(value: string)
    requires value == "gzip, chunked" || value == "chunked "
    ensures var f := FieldLine("Transfer-Encoding", " " + value);
            && FieldLegal(f) && FieldTaken(f)
            && !IsChunkedEncoding(ItemOf(f)) && !IsContentLength(ItemOf(f))
  {
    hide EqualIgnoringCase, IsToken, AllFieldChars;
    var f := FieldLine("Transfer-Encoding", " " + value);
    assert ItemOf(f) == HeaderItem("Transfer-Encoding", value);
    LengthsDiffer("Transfer-Encoding", "Content-Length");
    LengthsDiffer(value, "chunked");
    CodingName();
    CodingText(value);
  }

  lemma CodingName()
    ensures IsToken("Transfer-Encoding")
  {
    hide IsControl, IsSpecial;
    var name := "Transfer-Encoding";
    forall i | 0 <= i < |name|
      ensures IsNameChar(name[i])
    {
      assert IsAlpha(name[i]) || name[i] == '-';
      LetterInName(name[i]);
    }
  }

  lemma LetterInName(c: char)
    requires IsAlpha(c) || c == '-'
    ensures IsNameChar(c)
  {
  }

  lemma CodingText(value: string)
    requires value == "gzip, chunked" || value == "chunked "
    ensures AllFieldChars(" " + value) && '\t' !in " " + value
  {
    assert forall i :: 0 <= i < |value| ==> value[i] != '\t' && !IsControl(value[i]);
  }

  lemma LengthsDiffer(a: string, b: string)
    requires |a| != |b|
    ensures !EqualIgnoringCase(a, b)
  {
  }

  lemma OnlyField(f: FieldLine, rest: string)
    requires FieldLegal(f) && FieldTaken(f) && !IsChunkedEncoding(ItemOf(f)) && !IsContentLength(ItemOf(f))
    ensures var h := StandardHead('1', '1', "200", "OK", [f]);
            var o := Run(Initial, HeadText(h, Crlf(rest)));
            && HeadLegal(h) && HeadTaken(h)
            && o.result == ParsingCompleted && o.rest == rest && o.end.content == "" && o.end.headers == [ItemOf(f)]
  {
    hide Run, HeadText, HeadLegal, HeadTaken, FieldLegal, FieldTaken, KeepAlive, ReadHead;
    var h := StandardHead('1', '1', "200", "OK", [f]);
    OnlyFieldOk(h, f);
    LegalHead(h, Crlf(rest));
    OnlyFieldRead(h, f);
    HttpMessages.BlankRun(ReadHead(h), '\n', rest);
  }

  lemma OnlyFieldOk(h: StandardHead, f: FieldLine)
    requires FieldLegal(f) && FieldTaken(f) && h == StandardHead('1', '1', "200", "OK", [f])
    ensures HeadLegal(h) && HeadTaken(h)
  {
    hide FieldLegal, FieldTaken;
  }

  lemma OnlyFieldRead(h: StandardHead, f: FieldLine)
    requires HeadLegal(h) && h.fields == [f] && !IsChunkedEncoding(ItemOf(f)) && !IsContentLength(ItemOf(f))
    ensures var c := ReadHead(h);
            c.state.HeaderLineStart? && !c.chunked && c.contentSize == 0 && c.content == ""
            && c.headers == [ItemOf(f)]
  {
    hide HeadLegal, HasChunked, LengthRead, IsChunkedEncoding, IsContentLength;
    assert h.fields[1..] == [] && Items(h.fields) == [ItemOf(f)];
    assert [] + [ItemOf(f)] == [ItemOf(f)];
    OnlyHeader(ItemOf(f));
  }

  lemma OnlyHeader(h: HeaderItem)
    requires !IsChunkedEncoding(h) && !IsContentLength(h)
    ensures !HasChunked([h]) && LengthRead([h]) == 0
  {
    assert [h][..0] == [];
    NoLength();
  }

  // ---- continued values --------------------------------------------------------------------------

  /** A value that is continued on a second line: the text after the blanks is joined to it with nothing between. */
  lemma FoldIsJoined(name: string, value: string, blank: string, text: string, rest: string)
    requires IsToken(name) && !EqualIgnoringCase(name, "Content-Length")
    requires !EqualIgnoringCase(name, "Transfer-Encoding")
    requires NoControls(value) && LineOk(Fold(blank, text))
    ensures var m := Message("1", "1", "200", "OK", [Field(name, value), Fold(blank, text)], '\n', Empty);
            var o := Run(Initial, MessageText(m, rest));
            o.result == ParsingCompleted && o.rest == rest && o.end.headers == [HeaderItem(name, value + text)]
  {
    hide Run, MessageText, NoControls, AllBlanks, IsToken, EqualIgnoringCase, NumbersOk, AllNameChars, ReadInt,
      ReadUnsigned, KeepAlive, IsToken;
    var m := Message("1", "1", "200", "OK", [Field(name, value), Fold(blank, text)], '\n', Empty);
    PlainStatusLine(m);
    assert name != "" && AllNameChars(name) by {
      NameOfToken(name);
    }
    FoldRead(ReadStatusLine(Initial, m), name, value, blank, text);
    HttpMessages.Complete(m, rest);
  }

  lemma NameOfToken(s: string)
    requires IsToken(s)
    ensures s != "" && AllNameChars(s)
  {
    NameIsToken(s);
  }

  lemma PlainStatusLine(m: Message)
    requires m.major == "1" && m.minor == "1" && m.code == "200" && m.reason == "OK"
    ensures StatusLineOk(m)
  {
    ThreeDigits("200");
    OneDigit('1');
    assert ReasonOk("OK");
  }

  lemma FoldRead(c: Snapshot, name: string, value: string, blank: string, text: string)
    requires c.headers == [] && c.state.HeaderLineStart? && c.contentSize == 0 && !c.chunked
    requires LineOk(Field(name, value)) && LineOk(Fold(blank, text))
    requires !EqualIgnoringCase(name, "Content-Length") && !EqualIgnoringCase(name, "Transfer-Encoding")
    ensures var lines := [Field(name, value), Fold(blank, text)];
            LinesOk(c, lines) && ReadLines(c, lines) == c.(headers := [HeaderItem(name, value + text)])
  {
    hide EqualIgnoringCase, NoControls, AllBlanks, AllNameChars;
    var lines := [Field(name, value), Fold(blank, text)];
    var one := c.(headers := [HeaderItem(name, value)]);
    assert [] + [HeaderItem(name, value)] == [HeaderItem(name, value)];
    assert ReadLine(c, lines[0]) == (ParsingIncompleted, one);
    var two := c.(headers := [HeaderItem(name, value + text)]);
    assert AppendToValue(one.headers, text) == two.headers;
    assert text == "" ==> value + text == value;
    assert ReadLine(one, lines[1]) == (ParsingIncompleted, two);
    assert lines[1..] == [lines[1]] && lines[1..][1..] == [];
    assert LinesOk(two, []) && ReadLines(two, []) == two;
  }

  // ---- what a completed response is made of ------------------------------------------------------

  /** A name that is a token, and a value of visible characters, spaces and bytes from 128 up. */
  predicate ItemLegal(h: HeaderItem) { IsToken(h.name) && AllFieldChars(h.value) && '\t' !in h.value }

  predicate ItemsLegal(headers: seq<HeaderItem>) { forall i :: 0 <= i < |headers| ==> ItemLegal(headers[i]) }

  lemma TextIsLegal(s: string)
    ensures NoControls(s) <==> AllFieldChars(s) && '\t' !in s
  {
    if NoControls(s) {
      forall i | 0 <= i < |s|
        ensures IsFieldChar(s[i]) && s[i] != '\t'
      {
        assert !IsControl(s[i]);
      }
    }
    if AllFieldChars(s) && '\t' !in s {
      forall i | 0 <= i < |s|
        ensures !IsControl(s[i])
      {
        assert IsFieldChar(s[i]) && s[i] in s;
      }
    }
  }

  lemma TextsTogether(a: string, b: string)
    requires NoControls(a) && NoControls(b)
    ensures NoControls(a + b)
  {
  }

  lemma LineKeepsLegal(c: Snapshot, l: Line)
    requires LineOk(l) && (l.Fold? ==> |c.headers| > 0) && ItemsLegal(c.headers)
    ensures ItemsLegal(ReadLine(c, l).1.headers)
  {
    hide Evaluate, AllNameChars, NoControls, IsToken, AllFieldChars;
    match l {
      case Field(name, value) =>
        NameIsToken(name);
        TextIsLegal(value);
        assert ItemLegal(HeaderItem(name, value)) by {
          assert IsToken(name) by {
            TokenOfName(name);
          }
        }
      case Fold(_, text) =>
        var last := Back(c.headers);
        assert ItemLegal(last);
        TextIsLegal(last.value);
        TextsTogether(last.value, text);
        TextIsLegal(last.value + text);
    }
  }

  lemma TokenOfName(s: string)
    requires s != "" && AllNameChars(s)
    ensures IsToken(s)
  {
    NameIsToken(s);
  }

  lemma {:induction false} LinesKeepLegal(c: Snapshot, lines: seq<Line>)
    requires LinesOk(c, lines) && ItemsLegal(c.headers)
    ensures ItemsLegal(ReadLines(c, lines).headers)
    decreases |lines|
  {
    hide LineOk, ReadLine, ItemsLegal;
    if lines != [] {
      LineKeepsLegal(c, lines[0]);
      LinesKeepLegal(ReadLine(c, lines[0]).1, lines[1..]);
    }
  }

  /** Whatever makes the parser complete, the headers it leaves have tokens as names and no control characters in their
      values, and the reason is ASCII without a carriage return after its first character. */
  lemma CompletedIsLegal(s: string)
    requires Run(Initial, s).result == ParsingCompleted
    ensures ItemsLegal(Run(Initial, s).end.headers)
    ensures var status := Run(Initial, s).end.status;
            && status != "" && AllChars(status)
            && forall i :: 0 < i < |status| ==> status[i] != '\r'
  {
    hide Run, MessageText, LinesOk, ReadLines, BodyOk, ItemsLegal, NumbersOk;
    CompletedHasReason(s);
    var m := HttpMessages.Sound(s);
    var start := ReadStatusLine(Initial, m);
    assert ItemsLegal(start.headers) by {
      NoItems();
    }
    LinesKeepLegal(start, m.lines);
    LinesKeepStatus(start, m.lines);
    assert "" + m.reason == m.reason;
  }

  lemma NoItems()
    ensures ItemsLegal([])
  {
  }

  /** Of a status code of any length the low 32 bits count: the response completes if those are from 100 to 999. */
  lemma LongCode(n: nat, rest: string)
    requires 100 <= n % TWO_32 <= 999
    ensures var m := Message("1", "1", Decimal(n), "OK", [], '\n', Empty);
            var o := Run(Initial, MessageText(m, rest));
            o.result == ParsingCompleted && o.rest == rest && o.end.statusCode == n % TWO_32
  {
    hide Run, MessageText, Decimal, ReadUnsigned, ReadInt;
    var m := Message("1", "1", Decimal(n), "OK", [], '\n', Empty);
    CodeKeepsBits(n);
    assert NumbersOk(m);
    assert ReasonOk("OK");
    assert MessageOk(m);
    HttpMessages.Complete(m, rest);
  }

  lemma CodeKeepsBits(n: nat)
    ensures NumberOk(Decimal(n)) && ReadUnsigned(0, Decimal(n)) == n % TWO_32
  {
    hide Decimal, ReadUnsigned, Positional, Magnitude;
    var s := Decimal(n);
    DecimalIsNumber(n);
    NumbersKeepBits(s);
    SameBits(n, ReadUnsigned(0, s));
  }

  lemma DecimalIsNumber(n: nat)
    ensures NumberOk(Decimal(n)) && Positional(Decimal(n), 10) == n
  {
    var s := Decimal(n);
    assert forall i :: 0 <= i < |s| ==> DigitValue(s[i]) < 10;
    MagnitudeIsPositional(s, 10);
    NumeralRoundTrip(n, 10);
    hide Positional, Magnitude, Decimal;
    assert forall i :: 0 <= i < |s| ==> IsDigit(s[i]);
  }

  lemma SameBits(n: nat, r: nat)
    requires r < TWO_32 && (n - r) % TWO_32 == 0
    ensures r == n % TWO_32
  {
  }
}
