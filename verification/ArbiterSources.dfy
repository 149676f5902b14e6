/** Whose amounts a result compares: the keys it was announced with, unless a `Prepare` has failed in between. */
module ArbiterSources {
  import opened HostFiles
  import opened Arbiter
  import opened ArbiterRuns
  import BigDecimal
  import DecimalTheorems

  /** The result compares texts signed under the keys that its token was announced with. */
  predicate SourceOf(w: World, c: Event, p: Event) {
    && c.Compared? && p.Prepared? && p.token == c.token && p.key == c.key
    && w.decode(p.aliceHex) == Some(c.alice) && w.decode(p.bobHex) == Some(c.bob)
  }

  ghost predicate Sourced(w: World, c: Event) {
    exists i :: 0 <= i < |w.history| && SourceOf(w, c, w.history[i])
  }

  ghost predicate AllSourced(w: World) {
    forall j :: 0 <= j < |w.history| && w.history[j].Compared? ==> Sourced(w, w.history[j])
  }

  predicate Current(w: World, p: Event) {
    && p.Prepared? && p.token == w.enclave.token && p.key == w.enclave.key
    && w.decode(p.aliceHex) == w.enclave.alice && w.decode(p.bobHex) == w.enclave.bob
  }

  /** The arbiter still holds the keys it announced. */
  ghost predicate Intact(w: World) {
    exists i :: 0 <= i < |w.history| && Current(w, w.history[i])
  }

  /** While the arbiter is ready, a `Prepare` fails after it has replaced a key: the first key is another one and the
      second is none, or both are keys and the clock or the quote fails. */
  predicate Spoils(w: World, a: Action) {
    && a.Prepare? && w.enclave.isReady && w.decode(a.aliceHex).Some?
    && (if w.decode(a.bobHex).None? then w.decode(a.aliceHex) != w.enclave.alice
        else a.draw.now.None? || !a.draw.quotes)
  }

  lemma NewKeySpoils(w: World, v: World)
    requires HistoryOk(w) && v.history == w.history && v.enclave.key !in w.keys
    ensures !Intact(v)
  {
    hide VerdictOf;
    forall i | 0 <= i < |v.history|
      ensures !Current(v, v.history[i])
    {
      assert EventOk(w, w.history[i]);
    }
  }

  lemma OtherPointSpoils(w: World, v: World, a: Point)
    requires OncePerToken(w.history) && Intact(w)
    requires v.history == w.history && v.decode == w.decode && v.enclave == w.enclave.(alice := Some(a))
    ensures Intact(v) <==> Some(a) == w.enclave.alice
  {
    var i :| 0 <= i < |w.history| && Current(w, w.history[i]);
    if Some(a) == w.enclave.alice {
      assert Current(v, v.history[i]);
    } else {
      forall k | 0 <= k < |v.history|
        ensures !Current(v, v.history[k])
      {
        if k != i && v.history[k].Prepared? {
          assert w.history[k].token != w.history[i].token;
        }
      }
    }
  }

  lemma PrepareAndIntact(w: World, a: Action)
    requires Inv(w) && a.Prepare? && Enabled(w, a)
    requires w.enclave.isReady ==> Intact(w)
    ensures var v := Next(w, a); (v.enclave.isReady ==> Intact(v)) <==> !Spoils(w, a)
  {
    hide PrepareInfo, EventOk, OwnSignatures, OncePerToken, Intact, AfterCompare, AcceptsKey;
    var v := Next(w, a);
    if w.decode(a.aliceHex).None? {
      assert v.history == w.history && v.enclave == w.enclave;
      SameIsIntact(w, v);
    } else if w.decode(a.bobHex).None? {
      if w.enclave.isReady {
        OtherPointSpoils(w, v, w.decode(a.aliceHex).value);
      }
    } else if a.draw.now.None? || !a.draw.quotes {
      NewKeySpoils(w, v);
    } else {
      assert Current(v, v.history[|w.history|]);
      AnnouncedIsIntact(v, |w.history|);
    }
  }

  lemma SameIsIntact(w: World, v: World)
    requires v.history == w.history && v.enclave == w.enclave && v.decode == w.decode
    ensures Intact(v) <==> Intact(w)
  {
    assert forall p :: Current(v, p) <==> Current(w, p);
  }

  lemma AnnouncedIsIntact(w: World, i: nat)
    requires i < |w.history| && Current(w, w.history[i])
    ensures Intact(w)
  {
  }

  /** A step leaves a ready arbiter with the keys it announced exactly when it does not spoil them. */
  lemma IntactStep(w: World, a: Action)
    requires Inv(w) && Enabled(w, a)
    requires w.enclave.isReady ==> Intact(w)
    ensures var v := Next(w, a); (v.enclave.isReady ==> Intact(v)) <==> !Spoils(w, a)
  {
    hide Enabled, Inv, Intact, Current, AfterPrepare, CompareStep;
    if a.Prepare? {
      PrepareAndIntact(w, a);
    } else if a.Compare? {
      assert !Next(w, a).enclave.isReady by {
        CompareCloses(w, a.inputs, a.now, a.quotes);
      }
    } else {
      OthersEffect(w, a);
      SameIsIntact(w, Next(w, a));
    }
  }

  lemma CompareCloses(w: World, i: Inputs, now: Option<nat>, quotes: bool)
    ensures !AfterCompare(w, i, now, quotes).enclave.isReady
  {
  }

  /** A comparison that goes through is sourced exactly when the arbiter still held the keys it announced. */
  lemma CompareSource(w: World, i: Inputs, now: Option<nat>, quotes: bool)
    requires Inv(w)
    requires var v := AfterCompare(w, i, now, quotes); |v.history| > |w.history|
    ensures var v := AfterCompare(w, i, now, quotes);
            && |v.history| == |w.history| + 1 && v.history[|w.history|].Compared?
            && (Sourced(v, v.history[|w.history|]) <==> Intact(w))
  {
    hide VerdictOf, Inv;
    var v := AfterCompare(w, i, now, quotes);
    var c := v.history[|w.history|];
    assert v.history == w.history + [c];
    forall k | 0 <= k < |w.history|
      ensures SourceOf(v, c, v.history[k]) <==> Current(w, w.history[k])
    {
      assert v.history[k] == w.history[k];
    }
  }

  ghost predicate NeverSpoils(w: World, run: seq<Action>)
    decreases |run|
  {
    run == [] || (!Spoils(w, run[0]) && NeverSpoils(Next(w, run[0]), run[1..]))
  }

  lemma NewEvents(w: World, a: Action)
    requires Inv(w) && Enabled(w, a)
    ensures var v := Next(w, a);
            && w.history <= v.history
            && (!a.Compare? ==> forall k :: |w.history| <= k < |v.history| ==>
                  v.history[k].Prepared? && v.history[k].token !in w.tokens)
            && (a.Compare? ==> forall k :: |w.history| <= k < |v.history| ==> v.history[k].Compared?)
  {
    hide PrepareStep, CompareStep, AfterPrepare, AfterCompare, PreparedOk, ComparedOk, OwnSignatures, OncePerToken,
      EnclaveOk, AcceptsKey;
    TokensAreDrawn(w);
    match a
    case Prepare(aliceHex, bobHex, draw) => PrepareEffect(w, aliceHex, bobHex, draw);
    case Compare(inputs, now, quotes) => CompareEffect(w, inputs, now, quotes);
    case _ => OthersEffect(w, a);
  }

  /** An earlier result does not gain or lose its source: a new announcement has a new token. */
  lemma SourcesStay(w: World, a: Action, c: Event)
    requires Inv(w) && Enabled(w, a) && c.token in w.tokens
    ensures Sourced(Next(w, a), c) <==> Sourced(w, c)
  {
    hide Next, Enabled, Inv, Sourced;
    NextGrows(w, a);
    NewEvents(w, a);
    SourceStays(w, Next(w, a), c);
  }

  lemma SourceStays(w: World, v: World, c: Event)
    requires v.decode == w.decode && w.history <= v.history
    requires forall k :: |w.history| <= k < |v.history| && v.history[k].Prepared? ==> v.history[k].token != c.token
    ensures Sourced(v, c) <==> Sourced(w, c)
  {
    assert forall k :: 0 <= k < |w.history| ==> v.history[k] == w.history[k];
    assert forall k :: 0 <= k < |w.history| ==> (SourceOf(v, c, v.history[k]) <==> SourceOf(w, c, w.history[k]));
    assert forall k :: |w.history| <= k < |v.history| ==> !SourceOf(v, c, v.history[k]);
  }

  /** The step lets a comparison through although the arbiter no longer holds the keys it announced. */
  ghost predicate ComparesOtherKeys(w: World, a: Action) {
    a.Compare? && |Next(w, a).history| > |w.history| && !Intact(w)
  }

  lemma SourcedStep(w: World, a: Action)
    requires Inv(w) && Enabled(w, a)
    ensures AllSourced(Next(w, a)) <==> AllSourced(w) && !ComparesOtherKeys(w, a)
  {
    hide Enabled, Sourced, Intact, CompareStep, PrepareStep, EventOk, OncePerToken, EnclaveOk, OwnSignatures;
    var v := Next(w, a);
    NextGrows(w, a);
    NewEvents(w, a);
    TokensAreDrawn(w);
    forall j | 0 <= j < |w.history| && w.history[j].Compared?
      ensures v.history[j] == w.history[j] && (Sourced(v, v.history[j]) <==> Sourced(w, w.history[j]))
    {
      SourcesStay(w, a, w.history[j]);
    }
    if a.Compare? && |v.history| > |w.history| {
      CompareSource(w, a.inputs, a.now, a.quotes);
    }
    hide Next, Inv;
    assert AllSourced(w) ==> forall j :: 0 <= j < |w.history| && v.history[j].Compared? ==> Sourced(v, v.history[j]);
    assert AllSourced(v) ==> forall j :: 0 <= j < |w.history| && w.history[j].Compared? ==> Sourced(w, w.history[j]);
  }

  ghost predicate EverComparesOtherKeys(w: World, run: seq<Action>)
    decreases |run|
  {
    run != [] && (ComparesOtherKeys(w, run[0]) || EverComparesOtherKeys(Next(w, run[0]), run[1..]))
  }

  /** Over whole runs: all results are over texts signed under the announced keys if and only if every comparison that
      went through found the arbiter holding them. */
  lemma {:induction false} SourcedRun(w: World, run: seq<Action>)
    requires Inv(w) && Possible(w, run)
    ensures AllSourced(End(w, run)) <==> AllSourced(w) && !EverComparesOtherKeys(w, run)
    decreases |run|
  {
    hide Inv, Enabled, Next, AllSourced, ComparesOtherKeys;
    if run != [] {
      NextKeeps(w, run[0]);
      SourcedStep(w, run[0]);
      SourcedRun(Next(w, run[0]), run[1..]);
    }
  }

  lemma ComparisonIsReady(w: World, a: Action)
    requires a.Compare? && |Next(w, a).history| > |w.history|
    ensures w.enclave.isReady
  {
    hide CompareStep;
  }

  /** That is so on every run in which no `Prepare` fails after replacing a key of a ready arbiter. */
  lemma {:induction false} NeverSpoiledRun(w: World, run: seq<Action>)
    requires Inv(w) && Possible(w, run) && NeverSpoils(w, run)
    requires w.enclave.isReady ==> Intact(w)
    ensures !EverComparesOtherKeys(w, run)
    decreases |run|
  {
    hide Inv, Enabled, Next, Intact, Spoils;
    if run != [] {
      NextKeeps(w, run[0]);
      IntactStep(w, run[0]);
      if ComparesOtherKeys(w, run[0]) {
        ComparisonIsReady(w, run[0]);
      }
      NeverSpoiledRun(Next(w, run[0]), run[1..]);
    }
  }

  predicate Announces(w: World, p: Event) {
    && p.Prepared?
    && ((p.aliceHex == w.alice.hex && p.bobHex == w.bob.hex) || (p.aliceHex == w.bob.hex && p.bobHex == w.alice.hex))
  }

  /** The token was announced with the keys of the two people, and the result is that of their own amounts, in the
      order in which the arbiter was given their keys. */
  predicate Settles(w: World, p: Event, token: string, result: string) {
    && Announces(w, p) && p.token == token
    && (if p.aliceHex == w.alice.hex then VerdictOf(w.alice.wealth, w.bob.wealth, w.parse) == Some(result)
        else VerdictOf(w.bob.wealth, w.alice.wealth, w.parse) == Some(result))
  }

  lemma SameAnnouncement(history: seq<Event>, i: nat, k: nat)
    requires OncePerToken(history) && i < |history| && k < |history|
    requires history[i].Prepared? && history[k].Prepared? && history[i].token == history[k].token
    ensures i == k
  {
  }

  lemma Announcing(w: World, key: string, token: string, s: nat) returns (i: nat)
    requires Inv(w) && |token| == TOKEN_LENGTH && |key| == KEY_LENGTH
    requires AcceptsKey(w, w.alice.hex, w.bob.hex, key, token, s)
    ensures i < |w.history| && Announces(w, w.history[i]) && w.history[i].token == token
  {
    hide AcceptsKey, OwnSignatures, EventOk, OncePerToken, EnclaveOk;
    AcceptedKey(w, w.alice.hex, w.bob.hex, key, token, s);
    var k: int :| 0 <= k < |w.history| && w.history[k].token == token && Announces(w, w.history[k]);
    i := k;
  }

  lemma Computing(w: World, token: string, result: string, t: nat) returns (j: nat)
    requires Inv(w) && |token| == TOKEN_LENGTH
    requires AcceptsResult(w, token, result, t) && IsResult(result)
    ensures j < |w.history| && w.history[j].Compared? && w.history[j].token == token && w.history[j].result == result
  {
    hide AcceptsResult, IsResult, Inv;
    Agreement(w, token, result, t, result, t);
    var k: int :| 0 <= k < |w.history| && w.history[k].Compared? && Says(w.history[k], token, result, t);
    j := k;
  }

  lemma SourceIs(w: World, j: nat, i: nat)
    requires OncePerToken(w.history) && AllSourced(w) && i < |w.history| && j < |w.history|
    requires w.history[i].Prepared? && w.history[j].Compared? && w.history[i].token == w.history[j].token
    ensures SourceOf(w, w.history[j], w.history[i])
  {
    hide OncePerToken;
    assert Sourced(w, w.history[j]);
    var k :| 0 <= k < |w.history| && SourceOf(w, w.history[j], w.history[k]);
    SameAnnouncement(w.history, i, k);
  }

  lemma ResultSettles(w: World, token: string, key: string, s: nat, result: string, t: nat)
    requires Inv(w) && AllSourced(w)
    requires |token| == TOKEN_LENGTH && |key| == KEY_LENGTH
    requires AcceptsKey(w, w.alice.hex, w.bob.hex, key, token, s)
    requires AcceptsResult(w, token, result, t) && IsResult(result)
    ensures exists i :: 0 <= i < |w.history| && Settles(w, w.history[i], token, result)
  {
    hide AcceptsKey, AcceptsResult, OwnSignatures, EventOk, VerdictOf, IsResult, OncePerToken, EnclaveOk,
      Sourced, SourceOf;
    var i := Announcing(w, key, token, s);
    var j := Computing(w, token, result, t);
    SourceIs(w, j, i);
    TextsAreWealths(w, w.history[j], w.history[i]);
    assert Settles(w, w.history[i], token, result);
  }

  /** When both people have accepted the announcement of a token, a result they accept for it compares their own
      amounts, in the order in which the arbiter was given their keys. */
  lemma RightResult(w: World, run: seq<Action>, token: string, key: string, s: nat, result: string, t: nat)
    requires Start(w) && Possible(w, run) && !EverComparesOtherKeys(w, run)
    requires |token| == TOKEN_LENGTH && |key| == KEY_LENGTH
    requires var v := End(w, run);
             && AcceptsKey(v, v.alice.hex, v.bob.hex, key, token, s)
             && AcceptsResult(v, token, result, t) && IsResult(result)
    ensures var v := End(w, run); exists i :: 0 <= i < |v.history| && Settles(v, v.history[i], token, result)
  {
    StartInv(w);
    hide Inv, Possible, EverComparesOtherKeys, End, AcceptsKey, AcceptsResult, IsResult, Settles, Sourced;
    RunKeeps(w, run);
    SourcedRun(w, run);
    ResultSettles(End(w, run), token, key, s, result, t);
  }

  lemma TextsAreWealths(w: World, c: Event, p: Event)
    requires Inv(w) && EventOk(w, c) && SourceOf(w, c, p) && Announces(w, p)
    ensures VerdictOf(c.aliceText, c.bobText, w.parse) == Some(c.result)
    ensures if p.aliceHex == w.alice.hex then c.aliceText == w.alice.wealth && c.bobText == w.bob.wealth
            else c.aliceText == w.bob.wealth && c.bobText == w.alice.wealth
  {
    hide VerdictOf, HistoryOk, OncePerToken, EnclaveOk;
  }

  /** What a result says about the amounts: the first is larger, or it is not; and there is none exactly when one of
      the texts is not a number. */
  lemma ResultMeans(aliceText: string, bobText: string, parse: string -> Option<Dec>)
    ensures var numbers := parse(aliceText).Some? && parse(bobText).Some?;
            var verdict := VerdictOf(aliceText, bobText, parse);
            && (verdict == None <==> !numbers)
            && (verdict == Some("Alice is richer") <==>
                  numbers && BigDecimal.Value(parse(aliceText).value) > BigDecimal.Value(parse(bobText).value))
            && (verdict == Some("Alice is not richer than Bob") <==>
                  numbers && BigDecimal.Value(parse(aliceText).value) <= BigDecimal.Value(parse(bobText).value))
  {
    hide BigDecimal.Compare, BigDecimal.Value;
    if parse(aliceText).Some? && parse(bobText).Some? {
      DecimalTheorems.CompareOrdersValues(parse(aliceText).value, parse(bobText).value);
    }
    assert RICHER != NOT_RICHER by {
      assert |RICHER| != |NOT_RICHER|;
    }
  }

  /** The key has signed the ciphertext, and under the arbiter's key it decrypts to the text. */
  predicate OpensTo(point: Option<Point>, key: string, ciphertext: string, signature: string, c: Crypto, text: string) {
    point.Some? && c.verifies(point.value, ciphertext, signature) && c.decrypts(key, ciphertext) == Some(text)
  }

  /** A comparison with a text that does not open gives no answer, and neither does one without the current token, the
      clock or a quote. */
  lemma NothingToCompare(e: Enclave, i: Inputs, now: Option<nat>, quotes: bool, c: Crypto)
    requires || i.token != e.token || now.None? || !quotes
             || (forall a :: !OpensTo(e.alice, e.key, i.aliceCiphertext, i.aliceSignature, c, a))
             || (forall b :: !OpensTo(e.bob, e.key, i.bobCiphertext, i.bobSignature, c, b))
    ensures CompareStep(e, i, now, quotes, c) == (None, e.(isReady := false))
  {
    hide VerdictOf;
    var a := Opened(e.alice, e.key, i.aliceCiphertext, i.aliceSignature, c);
    var b := Opened(e.bob, e.key, i.bobCiphertext, i.bobSignature, c);
    assert a.Some? ==> OpensTo(e.alice, e.key, i.aliceCiphertext, i.aliceSignature, c, a.value);
    assert b.Some? ==> OpensTo(e.bob, e.key, i.bobCiphertext, i.bobSignature, c, b.value);
  }

  /** With the current token, two texts that open, a clock and a quote, a ready arbiter answers exactly when both texts
      are numbers, with the order of their values; and it is not ready any more in either case. */
  lemma ComparisonAnswers(e: Enclave, i: Inputs, now: nat, c: Crypto, a: string, b: string)
    requires e.isReady && i.token == e.token
    requires OpensTo(e.alice, e.key, i.aliceCiphertext, i.aliceSignature, c, a)
    requires OpensTo(e.bob, e.key, i.bobCiphertext, i.bobSignature, c, b)
    ensures var (answer, after) := WhoIsRicher(e, i, Some(now), true, c);
            && after == e.(isReady := false)
            && (answer.Some? <==> c.parse(a).Some? && c.parse(b).Some?)
            && (answer.Some? ==>
                  var result := if BigDecimal.Value(c.parse(a).value) > BigDecimal.Value(c.parse(b).value)
                                then "Alice is richer" else "Alice is not richer than Bob";
                  answer.value == Answer(result, result + e.token, now, a, b))
  {
    hide BigDecimal.Compare, BigDecimal.Value, VerdictOf;
    ResultMeans(a, b, c.parse);
  }

  /** An arbiter that is not ready neither compares nor changes. */
  lemma NotReadyNothing(e: Enclave, i: Inputs, now: Option<nat>, quotes: bool, c: Crypto)
    requires !e.isReady
    ensures WhoIsRicher(e, i, now, quotes, c) == (None, e)
  {
  }

  /** `Prepare` replies exactly when both keys can be decoded, the clock answers and a quote is made; what it has stored
      is then all that was given and drawn, with the keys in the quote in their own order. */
  lemma PrepareReplies(e: Enclave, aliceHex: string, bobHex: string, r: Draw, c: Crypto)
    ensures var (reply, after) := PrepareStep(e, aliceHex, bobHex, r, c);
            && (reply.Some? <==> c.decode(aliceHex).Some? && c.decode(bobHex).Some? && r.now.Some? && r.quotes)
            && (reply.Some? ==>
                  var keys := if exists n: nat :: ComesBefore(aliceHex, bobHex, n) then aliceHex + bobHex
                              else bobHex + aliceHex;
                  && reply.value == Reply(r.key, keys + r.key + r.token, r.now.value, r.token)
                  && after == Enclave(true, r.token, r.key, c.decode(aliceHex), c.decode(bobHex)))
            && (reply.None? ==> after.isReady == e.isReady)
  {
    StringLessExact(aliceHex, bobHex);
  }
}
