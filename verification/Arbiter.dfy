/** The arbiter of the millionaires' problem: an enclave that compares two signed and encrypted amounts once per
    token. */
module Arbiter {
  import opened HostFiles
  import Text
  import BigDecimal

  type Dec = BigDecimal.Dec

  /** A point of the curve; a public key in hexadecimal decodes to one. */
  type Point = nat

  const KEY_LENGTH: nat := 130
  const TOKEN_LENGTH: nat := 32
  const RICHER: string := "Alice is richer"
  const NOT_RICHER: string := "Alice is not richer than Bob"

  predicate AllHex(s: string) { forall i :: 0 <= i < |s| ==> Text.DigitValue(s[i]) < 16 }

  /** Decoding a full point: 65 bytes in hexadecimal. */
  type Decoder = d: string -> Option<Point> | forall h :: d(h).Some? ==> |h| == KEY_LENGTH && AllHex(h)
    witness (h: string) => None

  /** What the arbiter computes with: a key pair is named by its public key in hexadecimal. */
  datatype Crypto = Crypto(
    decode: Decoder,
    verifies: (Point, string, string) -> bool,
    decrypts: (string, string) -> Option<string>,
    parse: string -> Option<Dec>)

  /** What one call of `Prepare` draws and asks for. */
  datatype Draw = Draw(key: string, token: string, now: Option<nat>, quotes: bool)

  /** The fields of the arbiter. */
  datatype Enclave = Enclave(isReady: bool, token: string, key: string, alice: Option<Point>, bob: Option<Point>)

  const FRESH_ENCLAVE := Enclave(false, "", "", None, None)

  /** The order of `std::string`. */
  predicate StringLess(a: string, b: string) {
    if b == "" then false
    else if a == "" then true
    else if a[0] != b[0] then a[0] < b[0]
    else StringLess(a[1..], b[1..])
  }

  /** The smaller key, the larger key, the arbiter's key and the token. */
  function PrepareInfo(a: string, b: string, key: string, token: string): string {
    (if StringLess(a, b) then a + b else b + a) + key + token
  }

  datatype Reply = Reply(key: string, userInfo: string, time: nat, token: string)
  datatype Answer = Answer(result: string, userInfo: string, time: nat, aliceText: string, bobText: string)

  /** `Prepare`: `None` is a false return or an exception. Every field is stored as soon as it is known, so a call that
      fails late has replaced some of them. */
  function PrepareStep(e: Enclave, aliceHex: string, bobHex: string, r: Draw, c: Crypto): (Option<Reply>, Enclave) {
    match c.decode(aliceHex)
    case None => (None, e)
    case Some(a) =>
      match c.decode(bobHex)
      case None => (None, e.(alice := Some(a)))
      case Some(b) =>
        var keyed := e.(alice := Some(a), bob := Some(b), key := r.key);
        if r.now.None? then (None, keyed)
        else if !r.quotes then (None, keyed.(token := r.token))
        else (Some(Reply(r.key, PrepareInfo(aliceHex, bobHex, r.key, r.token), r.now.value, r.token)),
              keyed.(token := r.token, isReady := true))
  }

  /** The text under a ciphertext that the owner of `point` has signed. */
  function Opened(point: Option<Point>, key: string, ciphertext: string, signature: string, c: Crypto): Option<string> {
    if point.None? || !c.verifies(point.value, ciphertext, signature) then None else c.decrypts(key, ciphertext)
  }

  /** The result for two amounts; an amount that is not a number throws. */
  function VerdictOf(aliceText: string, bobText: string, parse: string -> Option<Dec>): Option<string> {
    if parse(aliceText).None? || parse(bobText).None? then None
    else if BigDecimal.Compare(parse(aliceText).value, parse(bobText).value) > 0 then Some(RICHER)
    else Some(NOT_RICHER)
  }

  datatype Inputs = Inputs(token: string, aliceCiphertext: string, aliceSignature: string,
                           bobCiphertext: string, bobSignature: string)

  function CompareStep(e: Enclave, i: Inputs, now: Option<nat>, quotes: bool, c: Crypto): (Option<Answer>, Enclave) {
    var after := e.(isReady := false);
    var aliceText := Opened(e.alice, e.key, i.aliceCiphertext, i.aliceSignature, c);
    var bobText := Opened(e.bob, e.key, i.bobCiphertext, i.bobSignature, c);
    if i.token != e.token || aliceText.None? || bobText.None? || now.None? || !quotes then (None, after)
    else
      var result := VerdictOf(aliceText.value, bobText.value, c.parse);
      if result.None? then (None, after)
      else (Some(Answer(result.value, result.value + e.token, now.value, aliceText.value, bobText.value)), after)
  }

  /** `ecall_who_is_richer`: the gate, then the comparison. */
  function WhoIsRicher(e: Enclave, i: Inputs, now: Option<nat>, quotes: bool, c: Crypto): (Option<Answer>, Enclave) {
    if e.isReady then CompareStep(e, i, now, quotes, c) else (None, e)
  }

  class TrustedArbiter {
    var isReady: bool
    var oneTimeAccessToken: string
    var arbiterKey: string
    var alicePubkey: Option<Point>
    var bobPubkey: Option<Point>

    ghost function State(): Enclave
      reads this
    {
      Enclave(isReady, oneTimeAccessToken, arbiterKey, alicePubkey, bobPubkey)
    }

    constructor ()
      ensures State() == FRESH_ENCLAVE
    {
      isReady, oneTimeAccessToken, arbiterKey, alicePubkey, bobPubkey := false, "", "", None, None;
    }

    method VerifySignatureAndDecrypt(pubkey: Option<Point>, ciphertext: string, signature: string, c: Crypto)
      returns (plaintext: Option<string>)
      ensures plaintext == Opened(pubkey, arbiterKey, ciphertext, signature, c)
    {
      if pubkey.None? {
        return None;
      }
      var pass := c.verifies(pubkey.value, ciphertext, signature);
      if !pass {
        return None;
      }
      plaintext := c.decrypts(arbiterKey, ciphertext);
    }

    method Prepare(alicePubkeyHex: string, bobPubkeyHex: string, r: Draw, c: Crypto) returns (reply: Option<Reply>)
      modifies this
      ensures (reply, State()) == PrepareStep(old(State()), alicePubkeyHex, bobPubkeyHex, r, c)
    {
      var point := c.decode(alicePubkeyHex);
      if point.None? {
        return None;
      }
      alicePubkey := point;
      point := c.decode(bobPubkeyHex);
      if point.None? {
        return None;
      }
      bobPubkey := point;
      arbiterKey := r.key;
      if r.now.None? {
        return None;
      }
      oneTimeAccessToken := r.token;
      var userInfo := "";
      if StringLess(alicePubkeyHex, bobPubkeyHex) {
        userInfo := userInfo + alicePubkeyHex;
        userInfo := userInfo + bobPubkeyHex;
      } else {
        userInfo := userInfo + bobPubkeyHex;
        userInfo := userInfo + alicePubkeyHex;
      }
      userInfo := userInfo + arbiterKey;
      userInfo := userInfo + oneTimeAccessToken;
      assert "" + alicePubkeyHex == alicePubkeyHex && "" + bobPubkeyHex == bobPubkeyHex;
      if !r.quotes {
        return None;
      }
      isReady := true;
      reply := Some(Reply(arbiterKey, userInfo, r.now.value, oneTimeAccessToken));
    }

    method IsReady() returns (ready: bool)
      ensures ready == State().isReady
    {
      ready := isReady;
    }

    method Compare(i: Inputs, now: Option<nat>, quotes: bool, c: Crypto) returns (answer: Option<Answer>)
      modifies this
      ensures (answer, State()) == CompareStep(old(State()), i, now, quotes, c)
    {
      isReady := false;
      if i.token != oneTimeAccessToken {
        return None;
      }
      var aliceText := VerifySignatureAndDecrypt(alicePubkey, i.aliceCiphertext, i.aliceSignature, c);
      if aliceText.None? {
        return None;
      }
      var aliceWealth := c.parse(aliceText.value);
      if aliceWealth.None? {
        return None;
      }
      var bobText := VerifySignatureAndDecrypt(bobPubkey, i.bobCiphertext, i.bobSignature, c);
      if bobText.None? {
        return None;
      }
      var bobWealth := c.parse(bobText.value);
      if bobWealth.None? {
        return None;
      }
      var result;
      if BigDecimal.Compare(aliceWealth.value, bobWealth.value) > 0 {
        result := RICHER;
      } else {
        result := NOT_RICHER;
      }
      if now.None? {
        return None;
      }
      var userInfo := result + oneTimeAccessToken;
      if !quotes {
        return None;
      }
      answer := Some(Answer(result, userInfo, now.value, aliceText.value, bobText.value));
    }
  }

  method EcallWhoIsRicher(arbiter: TrustedArbiter, i: Inputs, now: Option<nat>, quotes: bool, c: Crypto)
    returns (answer: Option<Answer>)
    modifies arbiter
    ensures (answer, arbiter.State()) == WhoIsRicher(old(arbiter.State()), i, now, quotes, c)
  {
    var ok := arbiter.IsReady();
    if !ok {
      return None;
    }
    answer := arbiter.Compare(i, now, quotes, c);
  }

  /** One of the two people; `verify` stands for the attestor with a validity of 100 seconds, and gives the enclave's
      measurement. */
  class Millionaire {
    const publicKeyHex: string
    const wealth: string
    var arbiterPublicKeyHex: string

    constructor (publicKeyHex: string, wealth: string)
      ensures this.publicKeyHex == publicKeyHex && this.wealth == wealth && arbiterPublicKeyHex == ""
    {
      this.publicKeyHex, this.wealth, arbiterPublicKeyHex := publicKeyHex, wealth, "";
    }

    method VerifyQuoteAndSaveArbiterPublicKey(token: string, timestamp: nat, arbiterKey: string, peerKey: string,
                                              verify: (string, nat) -> Option<string>)
      returns (mrEnclave: Option<string>)
      modifies this`arbiterPublicKeyHex
      ensures mrEnclave == verify(PrepareInfo(publicKeyHex, peerKey, arbiterKey, token), timestamp)
      ensures arbiterPublicKeyHex == if mrEnclave.Some? then arbiterKey else old(arbiterPublicKeyHex)
    {
      var userInfo := "";
      if StringLess(publicKeyHex, peerKey) {
        userInfo := userInfo + publicKeyHex;
        userInfo := userInfo + peerKey;
      } else {
        userInfo := userInfo + peerKey;
        userInfo := userInfo + publicKeyHex;
      }
      userInfo := userInfo + arbiterKey;
      userInfo := userInfo + token;
      assert "" + publicKeyHex == publicKeyHex && "" + peerKey == peerKey;
      mrEnclave := verify(userInfo, timestamp);
      if mrEnclave.Some? {
        arbiterPublicKeyHex := arbiterKey;
      }
    }

    method VerifyQuoteAndShowResult(token: string, timestamp: nat, result: string,
                                    verify: (string, nat) -> Option<string>)
      returns (mrEnclave: Option<string>)
      ensures mrEnclave == verify(result + token, timestamp)
    {
      var userInfo := result + token;
      mrEnclave := verify(userInfo, timestamp);
    }

    /** The ciphertext under the saved key and the signature on it, if the saved key is one. */
    method EncryptAndSignWealth(decode: Decoder, encrypt: (Point, string) -> Option<string>, sign: string -> string)
      returns (r: Option<(string, string)>)
      ensures r.Some? <==> decode(arbiterPublicKeyHex).Some? && encrypt(decode(arbiterPublicKeyHex).value, wealth).Some?
      ensures r.Some? ==> r.value.0 == encrypt(decode(arbiterPublicKeyHex).value, wealth).value
      ensures r.Some? ==> r.value.1 == sign(r.value.0)
    {
      var arbiterPubkey := decode(arbiterPublicKeyHex);
      if arbiterPubkey.None? {
        return None;
      }
      var ciphertext := encrypt(arbiterPubkey.value, wealth);
      if ciphertext.None? {
        return None;
      }
      var signature := sign(ciphertext.value);
      r := Some((ciphertext.value, signature));
    }
  }
}
