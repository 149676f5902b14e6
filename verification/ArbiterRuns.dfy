/** Runs of the arbiter protocol under any host: what two people who check quotes can be shown. */
module ArbiterRuns {
  import opened HostFiles
  import opened Arbiter
  import Text
  import Attestation
  import BigDecimal

  datatype Party = Party(hex: string, point: Point, wealth: string, savedKey: string)

  datatype Sealing = Sealing(key: string, text: string)

  /** A quote that the arbiter has made: what it was made for, and the user information it carries. */
  datatype Event =
    | Prepared(aliceHex: string, bobHex: string, key: string, token: string, time: nat, info: string)
    | Compared(token: string, result: string, time: nat, info: string, key: string, alice: Point, bob: Point,
               aliceCiphertext: string, bobCiphertext: string, aliceText: string, bobText: string)

  /** Signatures and encryption are ideal: `signed` holds what has been signed, `texts` what has been encrypted. */
  datatype World = World(
    decode: Decoder,
    parse: string -> Option<Dec>,
    enclave: Enclave,
    alice: Party,
    bob: Party,
    history: seq<Event>,
    tokens: set<string>,
    keys: set<string>,
    signed: set<(Point, string)>,
    texts: map<string, Sealing>,
    prepares: nat,
    comparisons: nat)

  /** One atomic call into the enclave, one step of a person, or one of the host on its own account. */
  datatype Action =
    | Prepare(aliceHex: string, bobHex: string, draw: Draw)
    | Compare(inputs: Inputs, now: Option<nat>, quotes: bool)
    | SaveKey(isAlice: bool, peer: string, key: string, token: string, time: nat, clock: nat)
    | SealWealth(isAlice: bool, ciphertext: string)
    | SealAnything(ciphertext: string, sealing: Sealing)
    | SignAnything(point: Point, ciphertext: string)
    | Recode(ciphertext: string, other: string)

  function CryptoOf(w: World): Crypto {
    var signed, texts := w.signed, w.texts;
    Crypto(w.decode,
           (p: Point, ciphertext: string, signature: string) => (p, ciphertext) in signed,
           (key: string, ciphertext: string) =>
             if ciphertext in texts && texts[ciphertext].key == key then Some(texts[ciphertext].text) else None,
           w.parse)
  }

  /** What a quote of the event says: its user information with the time. */
  function Statement(e: Event): string { Attestation.Stamped(e.info, e.time) }

  /** Some quote of the arbiter's enclave says `info` at time `t`. */
  ghost predicate Quotes(w: World, info: string, t: nat) {
    exists i :: 0 <= i < |w.history| && Statement(w.history[i]) == Attestation.Stamped(info, t)
  }

  ghost predicate AcceptsResult(w: World, token: string, result: string, t: nat) {
    Quotes(w, result + token, t)
  }

  ghost predicate AcceptsKey(w: World, mine: string, peer: string, key: string, token: string, t: nat) {
    Quotes(w, PrepareInfo(mine, peer, key, token), t)
  }

  /** Randomness is fresh, ciphertexts are new, and only the two people sign with their keys. */
  ghost predicate Enabled(w: World, a: Action) {
    match a
    case Prepare(_, _, draw) =>
      && draw.token !in w.tokens && |draw.token| == TOKEN_LENGTH
      && draw.key !in w.keys && |draw.key| == KEY_LENGTH
    case Compare(_, _, _) => true
    case SaveKey(isAlice, peer, key, token, time, clock) =>
      && AcceptsKey(w, (if isAlice then w.alice else w.bob).hex, peer, key, token, time)
      && Attestation.InTime(clock, time, 100)
    case SealWealth(isAlice, ciphertext) =>
      ciphertext !in w.texts && w.decode((if isAlice then w.alice else w.bob).savedKey).Some?
    case SealAnything(ciphertext, _) => ciphertext !in w.texts
    case SignAnything(point, _) => point != w.alice.point && point != w.bob.point
    case Recode(ciphertext, other) => ciphertext in w.texts && other !in w.texts
  }

  function AfterPrepare(w: World, aliceHex: string, bobHex: string, draw: Draw): World {
    var (reply, e) := PrepareStep(w.enclave, aliceHex, bobHex, draw, CryptoOf(w));
    var drawn := w.(enclave := e, tokens := w.tokens + {draw.token}, keys := w.keys + {draw.key});
    if reply.None? then drawn
    else drawn.(history := w.history + [Prepared(aliceHex, bobHex, reply.value.key, reply.value.token, reply.value.time,
                                                 reply.value.userInfo)],
                prepares := w.prepares + 1)
  }

  function AfterCompare(w: World, i: Inputs, now: Option<nat>, quotes: bool): World {
    var (answer, e) := WhoIsRicher(w.enclave, i, now, quotes, CryptoOf(w));
    var gated := w.(enclave := e, comparisons := w.comparisons + if w.enclave.isReady then 1 else 0);
    if answer.None? then gated
    else gated.(history := w.history + [
      Compared(w.enclave.token, answer.value.result, answer.value.time, answer.value.userInfo, w.enclave.key,
               w.enclave.alice.value, w.enclave.bob.value, i.aliceCiphertext, i.bobCiphertext,
               answer.value.aliceText, answer.value.bobText)])
  }

  function Next(w: World, a: Action): World {
    match a
    case Prepare(aliceHex, bobHex, draw) => AfterPrepare(w, aliceHex, bobHex, draw)
    case Compare(inputs, now, quotes) => AfterCompare(w, inputs, now, quotes)
    case SaveKey(isAlice, _, key, _, _, _) =>
      if isAlice then w.(alice := w.alice.(savedKey := key)) else w.(bob := w.bob.(savedKey := key))
    case SealWealth(isAlice, ciphertext) =>
      var p := if isAlice then w.alice else w.bob;
      w.(texts := w.texts[ciphertext := Sealing(p.savedKey, p.wealth)], signed := w.signed + {(p.point, ciphertext)})
    case SealAnything(ciphertext, sealing) => w.(texts := w.texts[ciphertext := sealing])
    case SignAnything(point, ciphertext) => w.(signed := w.signed + {(point, ciphertext)})
    case Recode(ciphertext, other) =>
      if ciphertext in w.texts then w.(texts := w.texts[other := w.texts[ciphertext]]) else w
  }

  ghost predicate Possible(w: World, run: seq<Action>)
    decreases |run|
  {
    run == [] || (Enabled(w, run[0]) && Possible(Next(w, run[0]), run[1..]))
  }

  function End(w: World, run: seq<Action>): World
    decreases |run|
  {
    if run == [] then w else End(Next(w, run[0]), run[1..])
  }

  /** Two people with different keys, and nothing done yet. */
  predicate Start(w: World) {
    && w.enclave == FRESH_ENCLAVE && w.history == [] && w.tokens == {} && w.keys == {}
    && w.signed == {} && w.texts == map[] && w.prepares == 0 && w.comparisons == 0
    && w.decode(w.alice.hex) == Some(w.alice.point) && w.decode(w.bob.hex) == Some(w.bob.point)
    && w.alice.point != w.bob.point
  }

  // ----- What every step keeps

  predicate IsResult(s: string) { s == RICHER || s == NOT_RICHER }

  predicate PreparedOk(w: World, e: Event)
    requires e.Prepared?
  {
    && |e.token| == TOKEN_LENGTH && e.token in w.tokens
    && |e.key| == KEY_LENGTH && e.key in w.keys
    && w.decode(e.aliceHex).Some? && w.decode(e.bobHex).Some?
    && e.info == PrepareInfo(e.aliceHex, e.bobHex, e.key, e.token)
  }

  /** The result is that of two texts signed under the two points and encrypted under the arbiter's key. */
  predicate ComparedOk(w: World, e: Event)
    requires e.Compared?
  {
    && |e.token| == TOKEN_LENGTH && e.token in w.tokens
    && (e.alice, e.aliceCiphertext) in w.signed && (e.bob, e.bobCiphertext) in w.signed
    && e.aliceCiphertext in w.texts && w.texts[e.aliceCiphertext] == Sealing(e.key, e.aliceText)
    && e.bobCiphertext in w.texts && w.texts[e.bobCiphertext] == Sealing(e.key, e.bobText)
    && VerdictOf(e.aliceText, e.bobText, w.parse) == Some(e.result)
    && e.info == e.result + e.token
  }

  predicate EventOk(w: World, e: Event) {
    if e.Prepared? then PreparedOk(w, e) else ComparedOk(w, e)
  }

  predicate HistoryOk(w: World) { forall i :: 0 <= i < |w.history| ==> EventOk(w, w.history[i]) }

  predicate OncePerToken(history: seq<Event>) {
    forall i, j :: 0 <= i < j < |history| && history[i].Compared? == history[j].Compared? ==>
      history[i].token != history[j].token
  }

  /** What one of the two people has signed is an encryption of that person's wealth. */
  ghost predicate OwnSignatures(signed: set<(Point, string)>, texts: map<string, Sealing>,
                                point: Point, wealth: string)
  {
    forall ciphertext :: (point, ciphertext) in signed ==> ciphertext in texts && texts[ciphertext].text == wealth
  }

  predicate EnclaveOk(w: World) {
    && (w.enclave.isReady ==>
          && |w.enclave.token| == TOKEN_LENGTH && w.enclave.token in w.tokens
          && w.enclave.alice.Some? && w.enclave.bob.Some?
          && forall i :: 0 <= i < |w.history| && w.history[i].Compared? ==> w.history[i].token != w.enclave.token)
    && w.comparisons + (if w.enclave.isReady then 1 else 0) <= w.prepares
  }

  ghost predicate Inv(w: World) {
    && EnclaveOk(w)
    && HistoryOk(w)
    && OncePerToken(w.history)
    && OwnSignatures(w.signed, w.texts, w.alice.point, w.alice.wealth)
    && OwnSignatures(w.signed, w.texts, w.bob.point, w.bob.wealth)
    && w.decode(w.alice.hex) == Some(w.alice.point) && w.decode(w.bob.hex) == Some(w.bob.point)
    && w.alice.point != w.bob.point
  }

  lemma StartInv(w: World)
    requires Start(w)
    ensures Inv(w)
  {
  }

  /** Tokens, signatures and encryptions are only ever added. */
  ghost predicate Grows(w: World, v: World) {
    && w.tokens <= v.tokens && w.keys <= v.keys && w.signed <= v.signed
    && (forall c :: c in w.texts ==> c in v.texts && v.texts[c] == w.texts[c])
    && w.decode == v.decode && w.parse == v.parse
  }

  lemma NextGrows(w: World, a: Action)
    requires Enabled(w, a)
    ensures Grows(w, Next(w, a)) && w.history <= Next(w, a).history
  {
    hide PrepareInfo, CompareStep;
  }

  lemma HistoryStaysOk(w: World, v: World)
    requires Grows(w, v) && HistoryOk(w) && w.history <= v.history
    requires forall i :: |w.history| <= i < |v.history| ==> EventOk(v, v.history[i])
    ensures HistoryOk(v)
  {
    forall i | 0 <= i < |w.history|
      ensures EventOk(v, v.history[i])
    {
      assert v.history[i] == w.history[i];
      EventStaysOk(w, v, w.history[i]);
    }
  }

  lemma EventStaysOk(w: World, v: World, e: Event)
    requires Grows(w, v) && EventOk(w, e)
    ensures EventOk(v, e)
  {
    hide BigDecimal.Compare;
  }

  lemma OnceMore(history: seq<Event>, e: Event)
    requires OncePerToken(history)
    requires forall i :: 0 <= i < |history| && history[i].Compared? == e.Compared? ==> history[i].token != e.token
    ensures OncePerToken(history + [e])
  {
  }

  ghost predicate SamePeople(w: World, v: World) {
    && w.decode == v.decode
    && w.alice.hex == v.alice.hex && w.bob.hex == v.bob.hex
    && w.alice.point == v.alice.point && w.alice.wealth == v.alice.wealth
    && w.bob.point == v.bob.point && w.bob.wealth == v.bob.wealth
  }

  lemma PrepareEffect(w: World, aliceHex: string, bobHex: string, draw: Draw)
    requires Enabled(w, Prepare(aliceHex, bobHex, draw)) && EnclaveOk(w)
    requires forall i :: 0 <= i < |w.history| ==> w.history[i].token in w.tokens
    ensures var v := AfterPrepare(w, aliceHex, bobHex, draw);
            && EnclaveOk(v) && SamePeople(w, v) && v.signed == w.signed && v.texts == w.texts
            && (v.history == w.history ||
                exists e: Event :: v.history == w.history + [e] && e.Prepared? && PreparedOk(v, e)
                                  && e.token == draw.token)
  {
    hide PrepareInfo;
    var v := AfterPrepare(w, aliceHex, bobHex, draw);
    if v.history != w.history {
      assert v.history == w.history + [v.history[|w.history|]];
    }
  }

  lemma PrepareKeeps(w: World, aliceHex: string, bobHex: string, draw: Draw)
    requires Inv(w) && Enabled(w, Prepare(aliceHex, bobHex, draw))
    ensures Inv(AfterPrepare(w, aliceHex, bobHex, draw))
  {
    hide AfterPrepare, ComparedOk, PreparedOk, EnclaveOk, OwnSignatures, OncePerToken, Grows, PrepareStep;
    var v := AfterPrepare(w, aliceHex, bobHex, draw);
    NextGrows(w, Prepare(aliceHex, bobHex, draw));
    TokensAreDrawn(w);
    PrepareEffect(w, aliceHex, bobHex, draw);
    if v.history != w.history {
      var e: Event :| v.history == w.history + [e] && e.Prepared? && PreparedOk(v, e) && e.token == draw.token;
      OnceMore(w.history, e);
    }
    HistoryStaysOk(w, v);
  }

  lemma TokensAreDrawn(w: World)
    requires HistoryOk(w)
    ensures forall i :: 0 <= i < |w.history| ==> |w.history[i].token| == TOKEN_LENGTH && w.history[i].token in w.tokens
  {
    hide VerdictOf;
    assert forall i :: 0 <= i < |w.history| ==> EventOk(w, w.history[i]);
  }

  lemma CompareEffect(w: World, i: Inputs, now: Option<nat>, quotes: bool)
    requires EnclaveOk(w)
    ensures var v := AfterCompare(w, i, now, quotes);
            && EnclaveOk(v) && SamePeople(w, v) && v.signed == w.signed && v.texts == w.texts
            && (v.history == w.history ||
                exists e: Event :: v.history == w.history + [e] && e.Compared? && ComparedOk(v, e)
                                  && e.token == w.enclave.token && w.enclave.isReady)
  {
    hide VerdictOf;
    var v := AfterCompare(w, i, now, quotes);
    if v.history != w.history {
      assert v.history == w.history + [v.history[|w.history|]];
    }
  }

  lemma CompareKeeps(w: World, i: Inputs, now: Option<nat>, quotes: bool)
    requires Inv(w)
    ensures Inv(AfterCompare(w, i, now, quotes))
  {
    hide AfterCompare, ComparedOk, PreparedOk, OwnSignatures, OncePerToken, Grows;
    var v := AfterCompare(w, i, now, quotes);
    NextGrows(w, Compare(i, now, quotes));
    CompareEffect(w, i, now, quotes);
    if v.history != w.history {
      var e: Event :| v.history == w.history + [e] && e.Compared? && ComparedOk(v, e) && e.token == w.enclave.token;
      OnceMore(w.history, e);
    }
    HistoryStaysOk(w, v);
  }

  lemma SigningKeeps(w: World, a: Action, p: Party)
    requires OwnSignatures(w.signed, w.texts, p.point, p.wealth) && Enabled(w, a) && !a.Prepare? && !a.Compare?
    requires p == w.alice || p == w.bob
    requires w.alice.point != w.bob.point
    ensures OwnSignatures(Next(w, a).signed, Next(w, a).texts, p.point, p.wealth)
  {
    hide Statement, AcceptsKey, AfterPrepare, AfterCompare;
  }

  lemma OthersEffect(w: World, a: Action)
    requires !a.Prepare? && !a.Compare?
    ensures var v := Next(w, a);
            && SamePeople(w, v) && v.enclave == w.enclave && v.history == w.history && v.tokens == w.tokens
            && v.prepares == w.prepares && v.comparisons == w.comparisons
  {
    hide AfterPrepare, AfterCompare;
  }

  lemma OthersKeep(w: World, a: Action)
    requires Inv(w) && Enabled(w, a) && !a.Prepare? && !a.Compare?
    ensures Inv(Next(w, a))
  {
    hide Enabled, OwnSignatures, EventOk, OncePerToken, Next, Grows;
    NextGrows(w, a);
    SigningKeeps(w, a, w.alice);
    SigningKeeps(w, a, w.bob);
    OthersEffect(w, a);
    HistoryStaysOk(w, Next(w, a));
  }

  lemma NextKeeps(w: World, a: Action)
    requires Inv(w) && Enabled(w, a)
    ensures Inv(Next(w, a))
  {
    hide Inv;
    match a
    case Prepare(aliceHex, bobHex, draw) => PrepareKeeps(w, aliceHex, bobHex, draw);
    case Compare(inputs, now, quotes) => CompareKeeps(w, inputs, now, quotes);
    case _ => OthersKeep(w, a);
  }

  lemma {:induction false} RunKeeps(w: World, run: seq<Action>)
    requires Inv(w) && Possible(w, run)
    ensures Inv(End(w, run))
    decreases |run|
  {
    hide Inv, Enabled, Next;
    if run != [] {
      NextKeeps(w, run[0]);
      RunKeeps(Next(w, run[0]), run[1..]);
    }
  }

  /** Each successful `Prepare` lets at most one call through to the comparison, and no token gets two results. */
  lemma OneComparison(w: World, run: seq<Action>)
    requires Start(w) && Possible(w, run)
    ensures End(w, run).comparisons <= End(w, run).prepares
    ensures OncePerToken(End(w, run).history)
  {
    StartInv(w);
    RunKeeps(w, run);
  }

  // ----- What a quote can be taken for

  lemma SplitEqual(a: string, s: string, b: string, t: string)
    requires a + s == b + t && |s| == |t|
    ensures a == b && s == t
  {
    assert a == (a + s)[..|a|] && b == (b + t)[..|b|];
    assert s == (a + s)[|a|..] && t == (b + t)[|b|..];
  }

  /** The front of a prepared quote's text: both keys and the arbiter's. */
  function KeyText(e: Event): string
    requires e.Prepared?
  {
    PrepareInfo(e.aliceHex, e.bobHex, e.key, "")
  }

  lemma PrepareInfoSplits(a: string, b: string, key: string, token: string)
    ensures PrepareInfo(a, b, key, token) == PrepareInfo(a, b, key, "") + token
  {
    var front := if StringLess(a, b) then a + b else b + a;
    assert (front + key) + "" == front + key;
  }

  lemma KeyTextIsNoResult(w: World, e: Event)
    requires e.Prepared? && PreparedOk(w, e)
    ensures !IsResult(KeyText(e))
  {
    hide StringLess;
    var first := if StringLess(e.aliceHex, e.bobHex) then e.aliceHex else e.bobHex;
    var second := if StringLess(e.aliceHex, e.bobHex) then e.bobHex else e.aliceHex;
    assert AllHex(first) && |first| == KEY_LENGTH;
    assert KeyText(e) == first + second + e.key + "";
    SecondLetter(KeyText(e));
  }

  lemma SecondLetter(s: string)
    requires |s| > 1 && Text.DigitValue(s[1]) < 16
    ensures !IsResult(s)
  {
    assert RICHER[1] == 'l' && NOT_RICHER[1] == 'l';
  }

  /** The part of an event's text in front of the token. */
  function Said(e: Event): string {
    if e.Compared? then e.result else KeyText(e)
  }

  predicate Says(e: Event, token: string, said: string, t: nat) {
    e.token == token && e.time == t && said == Said(e)
  }

  lemma StatementOfResult(w: World, e: Event, token: string, result: string, t: nat)
    requires EventOk(w, e) && |token| == TOKEN_LENGTH
    ensures Statement(e) == Attestation.Stamped(result + token, t) <==> Says(e, token, result, t)
  {
    hide PrepareInfo, Attestation.Stamped, VerdictOf;
    if e.Prepared? {
      PrepareInfoSplits(e.aliceHex, e.bobHex, e.key, e.token);
    }
    Attestation.StampedInjective(Said(e) + e.token, e.time, result + token, t);
    if Said(e) + e.token == result + token {
      SplitEqual(Said(e), e.token, result, token);
    }
  }

  /** Exactly what a person can be shown as a result for a token: the result the arbiter computed for it, or the key
      part of the quote that announced the token. */
  lemma AcceptedResult(w: World, token: string, result: string, t: nat)
    requires Inv(w) && |token| == TOKEN_LENGTH
    ensures AcceptsResult(w, token, result, t) <==>
            exists i :: 0 <= i < |w.history| && Says(w.history[i], token, result, t)
  {
    hide Statement, Says, EventOk, OncePerToken, EnclaveOk, OwnSignatures, Attestation.Stamped;
    TokensAreDrawn(w);
    forall i | 0 <= i < |w.history|
      ensures Statement(w.history[i]) == Attestation.Stamped(result + token, t) <==>
              Says(w.history[i], token, result, t)
    {
      StatementOfResult(w, w.history[i], token, result, t);
    }
  }

  lemma KindOfResult(w: World, e: Event)
    requires EventOk(w, e)
    ensures IsResult(Said(e)) <==> e.Compared?
  {
    hide KeyText, BigDecimal.Compare;
    if e.Prepared? {
      KeyTextIsNoResult(w, e);
    }
  }

  /** Two people who look only at the two possible results never accept different ones for the same token, and what
      they accept is what the arbiter computed for it; shown something else, they may differ. */
  lemma Agreement(w: World, token: string, r: string, t: nat, s: string, u: nat)
    requires Inv(w) && |token| == TOKEN_LENGTH
    requires AcceptsResult(w, token, r, t) && AcceptsResult(w, token, s, u)
    ensures r == s <==> IsResult(r) == IsResult(s)
    ensures IsResult(r) ==>
      exists i :: 0 <= i < |w.history| && w.history[i].Compared? && Says(w.history[i], token, r, t)
  {
    hide EventOk, KeyText, EnclaveOk, OwnSignatures, AcceptsResult, IsResult;
    AcceptedResult(w, token, r, t);
    AcceptedResult(w, token, s, u);
    var i :| 0 <= i < |w.history| && Says(w.history[i], token, r, t);
    var j :| 0 <= j < |w.history| && Says(w.history[j], token, s, u);
    KindOfResult(w, w.history[i]);
    KindOfResult(w, w.history[j]);
  }

  /** What was accepted once is acceptable for ever after. */
  lemma {:induction false} AcceptanceLasts(w: World, run: seq<Action>, info: string, t: nat)
    requires Possible(w, run) && Quotes(w, info, t)
    ensures Quotes(End(w, run), info, t)
    decreases |run|
  {
    hide Next, Enabled, Statement, Grows;
    if run != [] {
      NextGrows(w, run[0]);
      var i :| 0 <= i < |w.history| && Statement(w.history[i]) == Attestation.Stamped(info, t);
      assert Next(w, run[0]).history[i] == w.history[i];
      AcceptanceLasts(Next(w, run[0]), run[1..], info, t);
    }
  }

  lemma {:induction false} EndAppend(w: World, first: seq<Action>, second: seq<Action>)
    ensures End(w, first + second) == End(End(w, first), second)
    ensures Possible(w, first + second) <==> Possible(w, first) && Possible(End(w, first), second)
    decreases |first|
  {
    hide Next, Enabled;
    if first == [] {
      assert first + second == second;
    } else {
      assert (first + second)[0] == first[0] && (first + second)[1..] == first[1..] + second;
      EndAppend(Next(w, first[0]), first[1..], second);
    }
  }

  /** Over every run: whatever one person accepts for a token at one time and another person at any later time, the two
      are equal if and only if both or neither is one of the two possible results. */
  lemma AgreementOverRun(w: World, first: seq<Action>, second: seq<Action>, token: string,
                         r: string, t: nat, s: string, u: nat)
    requires Start(w) && Possible(w, first + second) && |token| == TOKEN_LENGTH
    requires AcceptsResult(End(w, first), token, r, t) && AcceptsResult(End(w, first + second), token, s, u)
    ensures r == s <==> IsResult(r) == IsResult(s)
  {
    StartInv(w);
    RunKeeps(w, first + second);
    EndAppend(w, first, second);
    hide Start, Possible, End, Inv, IsResult, Quotes;
    AcceptanceLasts(End(w, first), second, r + token, t);
    Agreement(End(w, first + second), token, r, t, s, u);
  }

  // ----- The arbiter's key

  /** `n` is where `a` first differs from `b`, or ends, and comes before it. */
  predicate ComesBefore(a: string, b: string, n: nat) {
    n <= |a| && n < |b| && a[..n] == b[..n] && (n < |a| ==> a[n] < b[n])
  }

  /** The order of strings is that of the first place where they differ. */
  lemma {:induction false} StringLessExact(a: string, b: string)
    ensures StringLess(a, b) <==> exists n: nat :: ComesBefore(a, b, n)
    decreases |a|
  {
    if b == "" {
    } else if a == "" {
      assert ComesBefore(a, b, 0);
    } else if a[0] != b[0] {
      assert StringLess(a, b) <==> ComesBefore(a, b, 0);
      forall n: nat | n > 0
        ensures !ComesBefore(a, b, n)
      {
        assert n <= |a| && n <= |b| ==> a[..n][0] == a[0] && b[..n][0] == b[0];
      }
    } else {
      StringLessExact(a[1..], b[1..]);
      assert !ComesBefore(a, b, 0);
      if n: nat :| ComesBefore(a, b, n) {
        ComesBeforeNext(a, b, n - 1);
        assert ComesBefore(a[1..], b[1..], n - 1);
      }
      if n: nat :| ComesBefore(a[1..], b[1..], n) {
        ComesBeforeNext(a, b, n);
        assert ComesBefore(a, b, n + 1);
      }
    }
  }

  lemma ComesBeforeNext(a: string, b: string, n: nat)
    requires a != "" && b != "" && a[0] == b[0]
    ensures ComesBefore(a, b, n + 1) <==> ComesBefore(a[1..], b[1..], n)
  {
    if n + 1 <= |a| && n + 1 <= |b| {
      assert a[..n + 1] == [a[0]] + a[1..][..n] && b[..n + 1] == [b[0]] + b[1..][..n];
      assert a[1..][..n] == a[..n + 1][1..] && b[1..][..n] == b[..n + 1][1..];
    }
  }

  lemma {:induction false} StringLessTotal(a: string, b: string)
    ensures !(StringLess(a, b) && StringLess(b, a))
    ensures StringLess(a, b) || StringLess(b, a) || a == b
    decreases |a|
  {
    if a != "" && b != "" {
      StringLessTotal(a[1..], b[1..]);
      assert a == [a[0]] + a[1..] && b == [b[0]] + b[1..];
    }
  }

  /** Two accounts of the same text agree on the pair of keys, the arbiter's key and the token, but not on the order of
      the pair. */
  lemma PrepareInfoExact(a: string, b: string, key: string, token: string,
                         c: string, d: string, other: string, second: string)
    requires |a| == |b| == |c| == |d| == |key| == |other| == KEY_LENGTH && |token| == |second| == TOKEN_LENGTH
    ensures PrepareInfo(a, b, key, token) == PrepareInfo(c, d, other, second) <==>
            ((a == c && b == d) || (a == d && b == c)) && key == other && token == second
  {
    StringLessTotal(a, b);
    StringLessTotal(c, d);
    var x, y := if StringLess(a, b) then a else b, if StringLess(a, b) then b else a;
    var z, v := if StringLess(c, d) then c else d, if StringLess(c, d) then d else c;
    assert PrepareInfo(a, b, key, token) == ((x + y) + key) + token;
    assert PrepareInfo(c, d, other, second) == ((z + v) + other) + second;
    if PrepareInfo(a, b, key, token) == PrepareInfo(c, d, other, second) {
      SplitEqual((x + y) + key, token, (z + v) + other, second);
      SplitEqual(x + y, key, z + v, other);
      SplitEqual(x, y, z, v);
    }
  }

  /** A person who is given keys and a token of the proper lengths saves an arbiter key exactly when the arbiter was
      prepared with that person's key and the peer's, in either order. */
  lemma AcceptedKey(w: World, mine: string, peer: string, key: string, token: string, t: nat)
    requires Inv(w)
    requires |mine| == |peer| == |key| == KEY_LENGTH && |token| == TOKEN_LENGTH
    ensures AcceptsKey(w, mine, peer, key, token, t) <==>
            exists i :: 0 <= i < |w.history| && w.history[i].Prepared?
                        && w.history[i].key == key && w.history[i].token == token && w.history[i].time == t
                        && ((w.history[i].aliceHex == mine && w.history[i].bobHex == peer)
                            || (w.history[i].aliceHex == peer && w.history[i].bobHex == mine))
  {
    hide Attestation.Stamped, ComparedOk;
    forall i | 0 <= i < |w.history|
      ensures Statement(w.history[i]) == Attestation.Stamped(PrepareInfo(mine, peer, key, token), t) <==>
              w.history[i].Prepared?
              && w.history[i].key == key && w.history[i].token == token && w.history[i].time == t
              && ((w.history[i].aliceHex == mine && w.history[i].bobHex == peer)
                  || (w.history[i].aliceHex == peer && w.history[i].bobHex == mine))
    {
      StatementOfKeys(w, w.history[i], mine, peer, key, token, t);
    }
  }

  lemma StatementOfKeys(w: World, e: Event, mine: string, peer: string, key: string, token: string, t: nat)
    requires EventOk(w, e)
    requires |mine| == |peer| == |key| == KEY_LENGTH && |token| == TOKEN_LENGTH
    ensures Statement(e) == Attestation.Stamped(PrepareInfo(mine, peer, key, token), t) <==>
            e.Prepared? && e.key == key && e.token == token && e.time == t
            && ((e.aliceHex == mine && e.bobHex == peer) || (e.aliceHex == peer && e.bobHex == mine))
  {
    hide Attestation.Stamped, PrepareInfo, BigDecimal.Compare;
    var info := PrepareInfo(mine, peer, key, token);
    PrepareInfoLength(mine, peer, key, token);
    if e.Prepared? {
      Attestation.StampedInjective(e.info, e.time, info, t);
      PrepareInfoExact(e.aliceHex, e.bobHex, e.key, e.token, mine, peer, key, token);
    } else {
      assert IsResult(e.result);
      assert |e.info| < |info|;
      Attestation.StampedInjective(e.info, e.time, info, t);
    }
  }

  lemma PrepareInfoLength(a: string, b: string, key: string, token: string)
    ensures |PrepareInfo(a, b, key, token)| == |a| + |b| + |key| + |token|
  {
  }
}
