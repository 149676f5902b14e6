/** Walking through a text: the states of the response parser that loop over a class of bytes, the states that
    count bytes, and the single steps between them. */
module HttpWalk {
  import opened Text
  import opened HttpParser
  import opened HttpGrammar

  // ---- runs within one looping state -------------------------------------------------------------

  /** The bytes that keep the parser in a looping state. */
  predicate Absorbs(s: State, b: char) {
    match s
    case ResponseHttpVersion_major => IsDigit(b)
    case ResponseHttpVersion_minor => IsDigit(b)
    case ResponseHttpVersion_statusCode => IsDigit(b)
    case ResponseHttpVersion_statusText => IsChar(b) && b != '\r'
    case HeaderLws => b == ' ' || b == '\t'
    case HeaderName => IsNameChar(b)
    case HeaderValue => !IsControl(b)
    case ChunkSize => IsAlnum(b)
    case ChunkExtensionName => IsSkipped(b)
    case ChunkExtensionValue => IsSkipped(b)
    case ChunkTrailerName => IsAlnum(b)
    case ChunkTrailerValue => IsSkipped(b)
    case _ => false
  }

  predicate AbsorbsAll(s: State, t: string) { forall i :: 0 <= i < |t| ==> Absorbs(s, t[i]) }

  /** What the bytes absorbed by a looping state leave behind. */
  function Absorb(c: Snapshot, t: string): (r: Snapshot)
    requires HasOpenHeader(c) && AbsorbsAll(c.state, t)
    ensures HasOpenHeader(r) && r.state == c.state
  {
    match c.state
    case ResponseHttpVersion_major => c.(versionMajor := ReadInt(c.versionMajor, t))
    case ResponseHttpVersion_minor => c.(versionMinor := ReadInt(c.versionMinor, t))
    case ResponseHttpVersion_statusCode => c.(statusCode := ReadUnsigned(c.statusCode, t))
    case ResponseHttpVersion_statusText => c.(status := c.status + t)
    case HeaderName => c.(headers := AppendToName(c.headers, t))
    case HeaderValue => c.(headers := AppendToValue(c.headers, t))
    case ChunkSize => c.(chunkSizeStr := c.chunkSizeStr + t)
    case _ => c
  }

  lemma AbsorbNothing(c: Snapshot)
    requires HasOpenHeader(c)
    ensures Absorb(c, "") == c
  {
    if c.state.HeaderName? {
      assert Back(c.headers).name + "" == Back(c.headers).name;
    } else if c.state.HeaderValue? {
      assert Back(c.headers).value + "" == Back(c.headers).value;
    } else if c.state.ResponseHttpVersion_statusText? {
      assert c.status + "" == c.status;
    } else if c.state.ChunkSize? {
      assert c.chunkSizeStr + "" == c.chunkSizeStr;
    }
  }

  lemma AbsorbByte(c: Snapshot, b: char)
    requires HasOpenHeader(c) && Absorbs(c.state, b)
    ensures Step(c, b) == (ParsingIncompleted, Absorb(c, [b]))
  {
    assert [b][1..] == "";
    match c.state
    case ResponseHttpVersion_major => assert ReadInt(c.versionMajor, [b]) == ShiftInt(c.versionMajor, b);
    case ResponseHttpVersion_minor => assert ReadInt(c.versionMinor, [b]) == ShiftInt(c.versionMinor, b);
    case ResponseHttpVersion_statusCode => assert ReadUnsigned(c.statusCode, [b]) == ShiftUnsigned(c.statusCode, b);
    case _ =>
  }

  lemma AbsorbRest(c: Snapshot, t: string)
    requires HasOpenHeader(c) && t != "" && AbsorbsAll(c.state, t)
    ensures Absorb(Absorb(c, [t[0]]), t[1..]) == Absorb(c, t)
  {
    assert t == [t[0]] + t[1..];
    assert [t[0]][1..] == "";
    match c.state
    case ResponseHttpVersion_major => assert ReadInt(c.versionMajor, [t[0]]) == ShiftInt(c.versionMajor, t[0]);
    case ResponseHttpVersion_minor => assert ReadInt(c.versionMinor, [t[0]]) == ShiftInt(c.versionMinor, t[0]);
    case ResponseHttpVersion_statusCode =>
      assert ReadUnsigned(c.statusCode, [t[0]]) == ShiftUnsigned(c.statusCode, t[0]);
    case ResponseHttpVersion_statusText => assert c.status + t == c.status + [t[0]] + t[1..];
    case HeaderName => assert Back(c.headers).name + t == Back(c.headers).name + [t[0]] + t[1..];
    case HeaderValue => assert Back(c.headers).value + t == Back(c.headers).value + [t[0]] + t[1..];
    case ChunkSize => assert c.chunkSizeStr + t == c.chunkSizeStr + [t[0]] + t[1..];
    case _ =>
  }

  lemma {:induction false} AbsorbRun(c: Snapshot, t: string, rest: string)
    requires HasOpenHeader(c) && AbsorbsAll(c.state, t)
    ensures Run(c, t + rest) == Run(Absorb(c, t), rest)
    decreases |t|
  {
    hide Step;
    if t == "" {
      AbsorbNothing(c);
      assert t + rest == rest;
    } else {
      AbsorbByte(c, t[0]);
      AbsorbRest(c, t);
      AbsorbRun(Absorb(c, [t[0]]), t[1..], rest);
      assert (t + rest)[1..] == t[1..] + rest;
    }
  }

  function SpanLength(s: State, t: string): (n: nat)
    ensures n <= |t|
    ensures forall i :: 0 <= i < n ==> Absorbs(s, t[i])
    ensures n < |t| ==> !Absorbs(s, t[n])
  {
    if t == "" || !Absorbs(s, t[0]) then 0 else 1 + SpanLength(s, t[1..])
  }

  /** A run as its first step and the rest. */
  function After(c: Snapshot, b: char, rest: string): Outcome
    requires HasOpenHeader(c)
  {
    var (result, next) := Step(c, b);
    if result == ParsingIncompleted then Run(next, rest) else Outcome(result, next, rest)
  }

  lemma RunStep(c: Snapshot, b: char, rest: string)
    requires HasOpenHeader(c)
    ensures Run(c, [b] + rest) == After(c, b, rest)
  {
    hide Step;
    assert ([b] + rest)[1..] == rest;
  }

  /** Absorbed bytes and the byte after them. */
  lemma AbsorbThenStep(c: Snapshot, t: string, b: char, rest: string)
    requires HasOpenHeader(c) && AbsorbsAll(c.state, t)
    ensures Run(c, t + ([b] + rest)) == After(Absorb(c, t), b, rest)
  {
    hide Step;
    AbsorbRun(c, t, [b] + rest);
    RunStep(Absorb(c, t), b, rest);
  }

  /** The first byte of a text that a looping state does not take. */
  lemma StopsInside(c: Snapshot, t: string, rest: string) returns (front: string, b: char, more: string)
    requires HasOpenHeader(c) && !AbsorbsAll(c.state, t)
    ensures b in t && !Absorbs(c.state, b) && AbsorbsAll(c.state, front)
    ensures Run(c, t + rest) == After(Absorb(c, front), b, more)
  {
    hide Run, Step, After;
    var i := SpanLength(c.state, t);
    front, b, more := t[..i], t[i], t[i + 1..] + rest;
    assert t + rest == front + ([b] + more);
    AbsorbThenStep(c, front, b, more);
  }

  /** A run that completes leaves a looping state: some byte ends what the state absorbs. */
  lemma Leave(c: Snapshot, s: string) returns (t: string, b: char, rest: string)
    requires HasOpenHeader(c) && Run(c, s).result == ParsingCompleted
    ensures s == t + ([b] + rest)
    ensures AbsorbsAll(c.state, t) && !Absorbs(c.state, b)
    ensures Run(c, s) == After(Absorb(c, t), b, rest)
  {
    hide Step;
    hide After;
    var n := SpanLength(c.state, s);
    if n == |s| {
      assert s + "" == s;
      AbsorbRun(c, s, "");
    }
    t, b, rest := s[..n], s[n], s[n + 1..];
    assert s == t + ([b] + rest);
    AbsorbThenStep(c, t, b, rest);
  }

  /** A run that completes takes a byte in a state that does not loop. */
  lemma Take(c: Snapshot, s: string) returns (b: char, rest: string)
    requires HasOpenHeader(c) && Run(c, s).result == ParsingCompleted
    ensures s == [b] + rest && Run(c, s) == After(c, b, rest)
  {
    hide Step;
    b, rest := s[0], s[1..];
    assert s == [b] + rest;
    RunStep(c, b, rest);
  }

  /** The only byte that does not stop the parser in a state that waits for one byte. */
  function Expected(s: State): (b: string)
    ensures |b| <= 1
  {
    match s
    case ResponseStatusStart => "H"
    case ResponseHttpVersion_ht => "T"
    case ResponseHttpVersion_htt => "T"
    case ResponseHttpVersion_http => "P"
    case ResponseHttpVersion_slash => "/"
    case ResponseHttpVersion_newLine => "\n"
    case SpaceBeforeHeaderValue => " "
    case ExpectingNewline_2 => "\n"
    case ChunkSizeNewLine => "\n"
    case ChunkSizeNewLine_3 => "\n"
    case ChunkDataNewLine_1 => "\r"
    case ChunkDataNewLine_2 => "\n"
    case _ => ""
  }

  lemma Expect(c: Snapshot, s: string) returns (rest: string)
    requires HasOpenHeader(c) && Expected(c.state) != "" && Run(c, s).result == ParsingCompleted
    ensures s == Expected(c.state) + rest && Run(c, s) == After(c, Expected(c.state)[0], rest)
  {
    var b: char;
    b, rest := Take(c, s);
    if b != Expected(c.state)[0] {
      UnexpectedByte(c, b);
    }
  }

  lemma UnexpectedByte(c: Snapshot, b: char)
    requires HasOpenHeader(c) && Expected(c.state) != "" && b != Expected(c.state)[0]
    ensures Step(c, b).0 == ParsingError
  {
  }

  // ---- counted bytes -----------------------------------------------------------------------------

  function Owed(c: Snapshot): nat {
    if c.state.Post? then c.contentSize else c.chunkSize
  }

  function Receive(c: Snapshot, data: string): Snapshot
    requires (c.state.Post? || c.state.ChunkData?) && |data| <= Owed(c)
  {
    if c.state.Post? then c.(content := c.content + data, contentSize := c.contentSize - |data|)
    else c.(content := c.content + data, chunkSize := c.chunkSize - |data|)
  }

  lemma ReceiveOne(c: Snapshot, b: char)
    requires c.state.Post? || c.state.ChunkData?
    requires 1 <= Owed(c) < TWO_64
    ensures var next := Receive(c, [b]);
            Step(c, b) ==
              if Owed(c) > 1 then (ParsingIncompleted, next)
              else if c.state.Post? then (ParsingCompleted, next)
              else (ParsingIncompleted, next.(state := ChunkDataNewLine_1))
  {
    assert Step(c, b) == StepBody(c, b);
  }

  lemma {:induction false} ReceiveRun(c: Snapshot, data: string, rest: string)
    requires c.state.Post? || c.state.ChunkData?
    requires |data| < Owed(c) < TWO_64
    ensures Run(c, data + rest) == Run(Receive(c, data), rest)
    decreases |data|
  {
    hide Step, Run;
    if data == "" {
      assert data + rest == rest;
      assert c.content + data == c.content;
    } else {
      var next := Receive(c, [data[0]]);
      ReceiveOne(c, data[0]);
      ReceiveRun(next, data[1..], rest);
      RunStep(c, data[0], data[1..] + rest);
      assert data + rest == [data[0]] + (data[1..] + rest);
      assert next.content + data[1..] == c.content + data;
    }
  }

  /** Receiving all that is owed ends with the step of the last byte. */
  lemma ReceiveAll(c: Snapshot, data: string, rest: string)
    requires c.state.Post? || c.state.ChunkData?
    requires 1 <= |data| == Owed(c) < TWO_64
    ensures Run(c, data + rest) ==
              if c.state.Post? then Outcome(ParsingCompleted, Receive(c, data), rest)
              else Run(Receive(c, data).(state := ChunkDataNewLine_1), rest)
  {
    hide Step, Run;
    var n := |data| - 1;
    var last := Receive(c, data[..n]);
    ReceiveRun(c, data[..n], [data[n]] + rest);
    assert data + rest == data[..n] + ([data[n]] + rest);
    ReceiveOne(last, data[n]);
    RunStep(last, data[n], rest);
    assert c.content + data == c.content + data[..n] + [data[n]];
  }

  /** A run that completes has been given all that is owed. */
  lemma ReceivesAll(c: Snapshot, s: string)
    requires c.state.Post? || c.state.ChunkData?
    requires 1 <= Owed(c) < TWO_64 && Run(c, s).result == ParsingCompleted
    ensures |s| >= Owed(c)
  {
    if |s| < Owed(c) {
      assert s + "" == s;
      ReceiveRun(c, s, "");
    }
  }
}
