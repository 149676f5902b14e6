/** Two runs of the arbiter protocol with two people who keep to it: one in which each step goes well, and one in which
    a `Prepare` fails in between and both accept a result over an amount that is not one of theirs. */
module ArbiterExamples {
  import opened HostFiles
  import opened Arbiter
  import opened ArbiterRuns
  import opened ArbiterSources
  import Text
  import BigDecimal
  import DecimalTheorems

  // ----- Who takes part

  function Hex(c: char, size: nat): (s: string)
    requires Text.DigitValue(c) < 16
    ensures |s| == size && AllHex(s) && (size > 0 ==> s[0] == c)
  {
    seq(size, _ => c)
  }

  /** Keys are told apart by their first digit. */
  function FirstDigit(): Decoder {
    h => if |h| == KEY_LENGTH && AllHex(h) then Some(Text.DigitValue(h[0])) else None
  }

  /** Alice owns more than Bob, and "t" is nothing. */
  function Amount(text: string): Option<Dec> {
    if text == "a" then Some(BigDecimal.Dec(2, 0))
    else if text == "b" then Some(BigDecimal.Dec(1, 0))
    else if text == "t" then Some(BigDecimal.Dec(0, 0))
    else None
  }

  function AliceHex(): string { Hex('1', KEY_LENGTH) }
  function BobHex(): string { Hex('2', KEY_LENGTH) }
  function OtherHex(): string { Hex('5', KEY_LENGTH) }
  function ArbiterKey(): string { Hex('b', KEY_LENGTH) }
  function LaterKey(): string { Hex('c', KEY_LENGTH) }
  function Token(): string { Hex('a', TOKEN_LENGTH) }
  function LaterToken(): string { Hex('d', TOKEN_LENGTH) }

  lemma Lengths()
    ensures |Token()| == TOKEN_LENGTH == |LaterToken()| && |ArbiterKey()| == KEY_LENGTH == |LaterKey()|
    ensures Token() != LaterToken() && ArbiterKey() != LaterKey() && AliceHex() != BobHex()
    ensures FirstDigit()(AliceHex()) == Some(1) && FirstDigit()(BobHex()) == Some(2)
    ensures FirstDigit()(OtherHex()) == Some(5) && FirstDigit()(ArbiterKey()) == Some(11) && FirstDigit()("") == None
  {
    assert Token()[0] != LaterToken()[0] && ArbiterKey()[0] != LaterKey()[0] && AliceHex()[0] != BobHex()[0];
  }

  function Quiet(): World {
    World(FirstDigit(), Amount, FRESH_ENCLAVE, Party(AliceHex(), 1, "a", ""), Party(BobHex(), 2, "b", ""),
          [], {}, {}, {}, map[], 0, 0)
  }

  ghost predicate Reaches(run: seq<Action>, v: World) { Possible(Quiet(), run) && End(Quiet(), run) == v }

  lemma {:induction false} OneMore(w: World, run: seq<Action>, a: Action)
    requires Possible(w, run) && Enabled(End(w, run), a)
    ensures Possible(w, run + [a]) && End(w, run + [a]) == Next(End(w, run), a)
    decreases |run|
  {
    hide Enabled, Next;
    var more := run + [a];
    if run == [] {
      assert more == [a] && more[1..] == [];
    } else {
      OneMore(Next(w, run[0]), run[1..], a);
      assert more[0] == run[0] && more[1..] == run[1..] + [a];
    }
  }

  lemma Reach(run: seq<Action>, w: World, a: Action, v: World)
    requires Reaches(run, w) && Enabled(w, a) && Next(w, a) == v
    ensures Reaches(run + [a], v)
  {
    hide Enabled, Next, Quiet;
    OneMore(Quiet(), run, a);
  }

  // ----- The token is announced, and both people save the arbiter's key

  function Announcement(): Event {
    Prepared(AliceHex(), BobHex(), ArbiterKey(), Token(), 0, PrepareInfo(AliceHex(), BobHex(), ArbiterKey(), Token()))
  }

  function Announced(): World {
    Quiet().(enclave := Enclave(true, Token(), ArbiterKey(), Some(1), Some(2)), tokens := {Token()},
             keys := {ArbiterKey()}, history := [Announcement()], prepares := 1)
  }

  function BothSaved(): World {
    Announced().(alice := Party(AliceHex(), 1, "a", ArbiterKey()), bob := Party(BobHex(), 2, "b", ArbiterKey()))
  }

  lemma Announcing() returns (run: seq<Action>)
    ensures Reaches(run, Announced())
  {
    Lengths();
    hide PrepareInfo, AliceHex, BobHex, ArbiterKey, Token, FirstDigit;
    var a := Prepare(AliceHex(), BobHex(), Draw(ArbiterKey(), Token(), Some(0), true));
    assert Reaches([], Quiet());
    assert Enabled(Quiet(), a);
    Reach([], Quiet(), a, Announced());
    run := [] + [a];
  }

  /** Both people accept the announcement, wherever it is in the history. */
  lemma BothAccept(w: World)
    requires w.history != [] && w.history[0] == Announcement()
    ensures AcceptsKey(w, AliceHex(), BobHex(), ArbiterKey(), Token(), 0)
    ensures AcceptsKey(w, BobHex(), AliceHex(), ArbiterKey(), Token(), 0)
  {
    hide AliceHex, BobHex, ArbiterKey, Token, StringLess;
    StringLessTotal(AliceHex(), BobHex());
    assert PrepareInfo(BobHex(), AliceHex(), ArbiterKey(), Token()) == Announcement().info;
    var info := Announcement().info;
    hide PrepareInfo;
    assert Quotes(w, info, 0);
  }

  lemma Saving() returns (run: seq<Action>)
    ensures Reaches(run, BothSaved())
  {
    run := Announcing();
    hide PrepareInfo, AliceHex, BobHex, ArbiterKey, Token, AcceptsKey, Reaches;
    var a := SaveKey(true, BobHex(), ArbiterKey(), Token(), 0, 0);
    var b := SaveKey(false, AliceHex(), ArbiterKey(), Token(), 0, 0);
    var w := Next(Announced(), a);
    BothAccept(Announced());
    BothAccept(w);
    Reach(run, Announced(), a, w);
    Reach(run + [a], w, b, BothSaved());
    run := run + [a] + [b];
  }

  // ----- Both encrypt and sign, and the amounts are compared

  function BobSealed(w: World): World {
    w.(texts := w.texts["d" := Sealing(ArbiterKey(), "b")], signed := w.signed + {(2, "d")})
  }

  function BothSealed(): World {
    var w := BobSealed(BothSaved());
    w.(texts := w.texts["c" := Sealing(ArbiterKey(), "a")], signed := w.signed + {(1, "c")})
  }

  lemma SealingBob() returns (run: seq<Action>)
    ensures Reaches(run, BobSealed(BothSaved()))
  {
    run := Saving();
    Lengths();
    hide PrepareInfo, AliceHex, BobHex, ArbiterKey, Token, AcceptsKey, Reaches, FirstDigit;
    var b := SealWealth(false, "d");
    Reach(run, BothSaved(), b, BobSealed(BothSaved()));
    run := run + [b];
  }

  lemma SealingBoth() returns (run: seq<Action>)
    ensures Reaches(run, BothSealed())
  {
    run := SealingBob();
    Lengths();
    hide PrepareInfo, AliceHex, BobHex, ArbiterKey, Token, AcceptsKey, Reaches, FirstDigit;
    var a := SealWealth(true, "c");
    Reach(run, BobSealed(BothSaved()), a, BothSealed());
    run := run + [a];
  }

  lemma Verdicts()
    ensures VerdictOf("a", "b", Amount) == Some(RICHER) && VerdictOf("t", "b", Amount) == Some(NOT_RICHER)
  {
    hide BigDecimal.Compare;
    WholeNumbers(2, 1);
    WholeNumbers(0, 1);
  }

  lemma WholeNumbers(a: int, b: int)
    ensures BigDecimal.Compare(BigDecimal.Dec(a, 0), BigDecimal.Dec(b, 0)) > 0 <==> a > b
  {
    hide BigDecimal.Compare, BigDecimal.Pow10;
    BigDecimal.Pow10Zero();
    DecimalTheorems.CompareOrdersValues(BigDecimal.Dec(a, 0), BigDecimal.Dec(b, 0));
  }

  /** A comparison of the text under `c`, signed by `p`, with Bob's own. */
  lemma Comparing(run: seq<Action>, w: World, c: string, p: Point, text: string, result: string)
    returns (longer: seq<Action>, v: World)
    requires Reaches(run, w)
    requires w.enclave == Enclave(true, Token(), ArbiterKey(), Some(p), Some(2))
    requires (p, c) in w.signed && c in w.texts && w.texts[c] == Sealing(ArbiterKey(), text)
    requires (2, "d") in w.signed && "d" in w.texts && w.texts["d"] == Sealing(ArbiterKey(), "b")
    requires w.parse == Amount && VerdictOf(text, "b", Amount) == Some(result)
    ensures Reaches(longer, v)
    ensures v == w.(enclave := w.enclave.(isReady := false), comparisons := w.comparisons + 1,
                    history := w.history + [Compared(Token(), result, 0, result + Token(), ArbiterKey(), p, 2,
                                                     c, "d", text, "b")])
  {
    hide Reaches, VerdictOf, Token, ArbiterKey;
    var a := Compare(Inputs(Token(), c, "", "d", ""), Some(0), true);
    assert Opened(Some(p), ArbiterKey(), c, "", CryptoOf(w)) == Some(text);
    assert Opened(Some(2), ArbiterKey(), "d", "", CryptoOf(w)) == Some("b");
    v := Next(w, a);
    Reach(run, w, a, v);
    longer := run + [a];
  }

  lemma AcceptedLast(w: World, result: string)
    requires w.history != []
    requires var e := w.history[|w.history| - 1]; e.Compared? && e.time == 0 && e.info == result + Token()
    ensures AcceptsResult(w, Token(), result, 0)
  {
  }

  /** The result is over texts signed under the announced keys exactly when the first was signed by Alice. */
  lemma FirstSigner(w: World)
    requires |w.history| == 2 && w.history[0] == Announcement() && w.decode == FirstDigit()
    requires var c := w.history[1];
             c.Compared? && c.token == Token() && c.key == ArbiterKey() && c.bob == 2
    ensures AllSourced(w) <==> w.history[1].alice == 1
  {
    Lengths();
    hide AliceHex, BobHex, Token, ArbiterKey, PrepareInfo, FirstDigit;
    assert SourceOf(w, w.history[1], w.history[0]) <==> w.history[1].alice == 1;
    assert !SourceOf(w, w.history[1], w.history[1]);
    hide SourceOf, Announcement;
    assert w.history[0].Prepared?;
    if w.history[1].alice == 1 {
      assert Sourced(w, w.history[1]);
    } else {
      assert !Sourced(w, w.history[1]);
    }
  }

  /** A run in which all goes well: both people save the arbiter's key and accept the result, which is over their own
      amounts. */
  lemma HonestExample() returns (run: seq<Action>)
    ensures Start(Quiet()) && Possible(Quiet(), run) && !EverComparesOtherKeys(Quiet(), run)
    ensures var v := End(Quiet(), run);
            && v.alice.savedKey == ArbiterKey() == v.bob.savedKey
            && AcceptsKey(v, v.alice.hex, v.bob.hex, ArbiterKey(), Token(), 0)
            && AcceptsKey(v, v.bob.hex, v.alice.hex, ArbiterKey(), Token(), 0)
            && AcceptsResult(v, Token(), RICHER, 0)
            && VerdictOf(v.alice.wealth, v.bob.wealth, v.parse) == Some(RICHER)
            && |v.history| == 2 && v.history[0] == Announcement()
            && v.history[1].Compared? && v.history[1].token == Token() && v.history[1].result == RICHER
            && v.history[1].time == 0
  {
    Verdicts();
    var before := SealingBoth();
    hide Reaches, VerdictOf, AliceHex, BobHex, Token, ArbiterKey, PrepareInfo, AcceptsKey, AcceptsResult, FirstDigit,
      AllSourced, EverComparesOtherKeys, Possible, End, Inv;
    StartsQuiet();
    var v;
    run, v := Comparing(before, BothSealed(), "c", 1, "a", RICHER);
    assert v.history[0] == Announcement();
    BothAccept(v);
    AcceptedLast(v, RICHER);
    FirstSigner(v);
    EndsSourced(run, v);
  }

  lemma StartsQuiet()
    ensures Start(Quiet()) && Inv(Quiet())
  {
    Lengths();
    StartInv(Quiet());
  }

  lemma EndsSourced(run: seq<Action>, v: World)
    requires Reaches(run, v) && Inv(Quiet())
    ensures EverComparesOtherKeys(Quiet(), run) <==> !AllSourced(v)
    ensures Possible(Quiet(), run) && End(Quiet(), run) == v
  {
    hide AllSourced, EverComparesOtherKeys, Inv;
    SourcedRun(Quiet(), run);
    assert AllSourced(Quiet()) by {
      NothingToSource(Quiet());
    }
  }

  lemma NothingToSource(w: World)
    requires w.history == []
    ensures AllSourced(w)
  {
  }

  // ----- A `Prepare` fails in between

  function Spoiled(): World {
    var w := BobSealed(BothSaved());
    w.(enclave := w.enclave.(alice := Some(5)), tokens := {Token(), LaterToken()}, keys := {ArbiterKey(), LaterKey()})
  }

  lemma Spoiling() returns (run: seq<Action>)
    ensures Reaches(run, Spoiled())
  {
    run := SealingBob();
    Lengths();
    hide PrepareInfo, AliceHex, BobHex, OtherHex, ArbiterKey, Token, LaterKey, LaterToken, Reaches, FirstDigit;
    var a := Prepare(OtherHex(), "", Draw(LaterKey(), LaterToken(), Some(0), true));
    var w := BobSealed(BothSaved());
    assert w.tokens + {LaterToken()} == {Token(), LaterToken()} && w.keys + {LaterKey()} == {ArbiterKey(), LaterKey()};
    Reach(run, w, a, Spoiled());
    run := run + [a];
  }

  /** The host's own text, encrypted for the arbiter and signed under the key it has slipped in. */
  function HostSealed(): World {
    var w := Spoiled();
    w.(texts := w.texts["e" := Sealing(ArbiterKey(), "t")], signed := w.signed + {(5, "e")})
  }

  lemma SealingHost() returns (run: seq<Action>)
    ensures Reaches(run, HostSealed())
  {
    run := Spoiling();
    hide PrepareInfo, AliceHex, BobHex, ArbiterKey, Token, LaterKey, LaterToken, Reaches, FirstDigit;
    var a, b := SealAnything("e", Sealing(ArbiterKey(), "t")), SignAnything(5, "e");
    var w := Next(Spoiled(), a);
    Reach(run, Spoiled(), a, w);
    Reach(run + [a], w, b, HostSealed());
    run := run + [a] + [b];
  }

  /** A token is announced for Alice and Bob, both save the arbiter's key and Bob sends his amount. A `Prepare` with
      another key and no second one fails; the host sends an amount of its own under that key. Both people accept the
      result of the comparison, which is not the one of their amounts. */
  lemma SpoiledExample() returns (run: seq<Action>)
    ensures Start(Quiet()) && Possible(Quiet(), run) && EverComparesOtherKeys(Quiet(), run)
    ensures var v := End(Quiet(), run);
            && v.alice.savedKey == ArbiterKey() == v.bob.savedKey
            && AcceptsKey(v, v.alice.hex, v.bob.hex, ArbiterKey(), Token(), 0)
            && AcceptsKey(v, v.bob.hex, v.alice.hex, ArbiterKey(), Token(), 0)
            && AcceptsResult(v, Token(), NOT_RICHER, 0)
            && VerdictOf(v.alice.wealth, v.bob.wealth, v.parse) == Some(RICHER)
            && !AllSourced(v)
            && forall i :: 0 <= i < |v.history| ==> !Settles(v, v.history[i], Token(), NOT_RICHER)
  {
    Verdicts();
    var before := SealingHost();
    hide Reaches, VerdictOf, AliceHex, BobHex, Token, ArbiterKey, PrepareInfo, AcceptsKey, AcceptsResult, FirstDigit,
      AllSourced, EverComparesOtherKeys, Possible, End, Inv;
    StartsQuiet();
    var v;
    run, v := Comparing(before, HostSealed(), "e", 5, "t", NOT_RICHER);
    assert v.history[0] == Announcement();
    BothAccept(v);
    AcceptedLast(v, NOT_RICHER);
    FirstSigner(v);
    EndsSourced(run, v);
    DifferentResults();
  }

  lemma DifferentResults()
    ensures RICHER != NOT_RICHER
  {
    assert |RICHER| != |NOT_RICHER|;
  }

  // ----- Two texts pass as a result

  /** The quote that announces a token and the one that carries its result, side by side. */
  lemma BothAccepted(w: World, i: nat, j: nat)
    requires Inv(w) && i < |w.history| && j < |w.history|
    requires w.history[i].Prepared? && w.history[j].Compared? && w.history[i].token == w.history[j].token
    ensures var token, text, result := w.history[i].token, KeyText(w.history[i]), w.history[j].result;
            && AcceptsResult(w, token, text, w.history[i].time) && AcceptsResult(w, token, result, w.history[j].time)
            && text != result && IsResult(result) && !IsResult(text)
  {
    TokensAreDrawn(w);
    assert EventOk(w, w.history[i]) && EventOk(w, w.history[j]);
    hide EventOk, KeyText, EnclaveOk, OwnSignatures, AcceptsResult, IsResult, OncePerToken, HistoryOk;
    assert Says(w.history[i], w.history[i].token, KeyText(w.history[i]), w.history[i].time);
    assert Says(w.history[j], w.history[i].token, w.history[j].result, w.history[j].time);
    AcceptedResult(w, w.history[i].token, KeyText(w.history[i]), w.history[i].time);
    AcceptedResult(w, w.history[i].token, w.history[j].result, w.history[j].time);
    KindOfResult(w, w.history[i]);
    KindOfResult(w, w.history[j]);
  }

  /** After the run in which all goes well, the announcement's key text is accepted as a result too. */
  lemma AgreementExample() returns (run: seq<Action>, text: string)
    ensures Start(Quiet()) && Possible(Quiet(), run)
    ensures AcceptsResult(End(Quiet(), run), Token(), text, 0) && !IsResult(text)
    ensures AcceptsResult(End(Quiet(), run), Token(), RICHER, 0) && IsResult(RICHER)
  {
    hide VerdictOf, AliceHex, BobHex, Token, ArbiterKey, PrepareInfo, AcceptsKey, AcceptsResult, FirstDigit, Possible,
      End, Inv, KeyText;
    run := HonestExample();
    StartInv(Quiet());
    RunKeeps(Quiet(), run);
    var v := End(Quiet(), run);
    BothAccepted(v, 0, 1);
    text := KeyText(v.history[0]);
  }
}
