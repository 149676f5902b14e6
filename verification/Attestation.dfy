/** Remote attestation: what a report is bound to, and for how long it is accepted. */
module Attestation {
  import opened Text
  import opened HostFiles
  import MetaData

  type Bytes32 = MetaData.Bytes32

  /** SHA-256 over a string, or any other function to 32 bytes. */
  type Digest = string -> Bytes32

  datatype ErrorCode =
    | Unknown | Success | InvalidParameter | OCallOperationFailed | OCallOperationException | GetTargetInfoFailed
    | CreateReportFailed | BufferValidateFailed | EnclaveInDebugMode | QvEVerificationCallFailed | VerifyQuoteFailed
    | CollateralExpired | VerifyUserDataFailed | VerifyTimeStampFailed

  datatype QvResult =
    | Ok | ConfigNeeded | OutOfDate | OutOfDateConfigNeeded | InvalidSignature | Revoked | Unspecified
    | SwHardeningNeeded | ConfigAndSwHardeningNeeded | TDRelaunchAdvised | TDRelaunchAdvisedConfigNeeded

  /** The part of a quote that this code reads. */
  datatype Quote = Quote(reportData: seq<Byte>, mrEnclave: string, debug: bool)

  /** A report is a string; what counts is whether it is empty, and what it decodes to. */
  datatype Report = NoText | NotBase64 | NoQuote | Base64(quote: Quote)

  /** The enclave's own part of a quote, and what the outside answers while one is made: `relay` is what the host hands
      back for the quote it should have made. */
  datatype Quoting = Quoting(targetCall: bool, targetRet: int, reportMade: bool, quoteCall: bool, quoteRet: int,
                             bufferOutside: bool, mrEnclave: string, debug: bool, relay: Quote -> Quote)

  /** What the quote verification service and its own report answer. */
  datatype Service = Service(selfTarget: bool, verifyCall: bool, verifyRet: int, bufferOutside: bool,
                             identityVerified: bool, result: QvResult, collateralStatus: nat)

  /** `u + "&time=" + std::to_string(t)`. */
  function Stamped(u: string, t: nat): string { u + "&time=" + Decimal(t) }

  const PADDING: seq<Byte> :=
    [0, 0, 0, 0, 0, 0, 0, 0, 0, 0, 0, 0, 0, 0, 0, 0, 0, 0, 0, 0, 0, 0, 0, 0, 0, 0, 0, 0, 0, 0, 0, 0]

  /** The 64 bytes of user data: the digest, then zeros. */
  function UserData(info: string, hash: Digest): seq<Byte> { hash(info) + PADDING }

  // ----- Time

  /** The 64-bit test `!(now - timestamp > validity)`. */
  predicate InTime(now: nat, timestamp: nat, validity: nat) {
    (now - timestamp) % TWO_64 <= validity
  }

  /** For clock values, timestamps and validities below 2^63 the wrapping test says what it should; beyond, it also
      passes for a timestamp so far ahead of the clock that the distance around the end of the range is short. */
  lemma InTimeExact(now: nat, timestamp: nat, validity: nat)
    requires now < TWO_64 && timestamp < TWO_64 && validity < TWO_64
    ensures InTime(now, timestamp, validity) <==>
            timestamp <= now <= timestamp + validity || (now < timestamp && now + TWO_64 <= timestamp + validity)
    ensures now < TWO_63 && timestamp < TWO_63 && validity < TWO_63 ==>
            (InTime(now, timestamp, validity) <==> timestamp <= now <= timestamp + validity)
  {
    if now < timestamp {
      assert (now - timestamp) % TWO_64 == now - timestamp + TWO_64;
    }
  }

  /** A timestamp at the end of the range passes at clock zero. */
  lemma InTimeWraps()
    ensures InTime(0, TWO_64 - 1, 1)
  {
    assert (0 - (TWO_64 - 1)) % TWO_64 == 1;
  }

  /** The clock of the enclave: it never goes back. */
  class TimeVerifier {
    var past: nat

    constructor ()
      ensures past == 0
    {
      past := 0;
    }

    method Verify(now: nat) returns (ok: bool)
      modifies this
      ensures (ok, past) == Tick(old(past), now)
    {
      if now < past {
        return false;
      }
      past := now;
      ok := true;
    }
  }

  function Tick(past: nat, now: nat): (bool, nat) {
    if now < past then (false, past) else (true, now)
  }

  /** The readings that a run of `Verify` accepts, in order. */
  function AcceptedReadings(past: nat, readings: seq<nat>): seq<nat>
    decreases |readings|
  {
    if readings == [] then []
    else
      var (ok, next) := Tick(past, readings[0]);
      (if ok then [readings[0]] else []) + AcceptedReadings(next, readings[1..])
  }

  predicate Ascending(past: nat, s: seq<nat>) {
    (forall i :: 0 <= i < |s| ==> past <= s[i]) && forall i, j :: 0 <= i < j < |s| ==> s[i] <= s[j]
  }

  lemma {:induction false} AcceptedReadingsAscend(past: nat, readings: seq<nat>)
    ensures Ascending(past, AcceptedReadings(past, readings))
    decreases |readings|
  {
    if readings != [] {
      AcceptedReadingsAscend(Tick(past, readings[0]).1, readings[1..]);
    }
  }

  /** A reading is refused exactly when an accepted one before it is later. */
  lemma {:induction false} RefusedReading(past: nat, readings: seq<nat>, now: nat)
    ensures |AcceptedReadings(past, readings + [now])| == |AcceptedReadings(past, readings)| <==>
            now < past || exists i :: 0 <= i < |AcceptedReadings(past, readings)|
                                      && now < AcceptedReadings(past, readings)[i]
    decreases |readings|
  {
    var all := readings + [now];
    if readings == [] {
      assert AcceptedReadings(now, all[1..]) == [];
    } else {
      var (ok, next) := Tick(past, readings[0]);
      assert all[0] == readings[0] && all[1..] == readings[1..] + [now];
      RefusedReading(next, readings[1..], now);
      var rest := AcceptedReadings(next, readings[1..]);
      var whole := AcceptedReadings(past, readings);
      if ok {
        assert whole[0] == readings[0] && forall i :: 0 <= i < |rest| ==> whole[i + 1] == rest[i];
        assert forall i :: 0 < i < |whole| ==> whole[i] == rest[i - 1];
      } else {
        assert whole == rest;
      }
    }
  }

  // ----- Binding

  /** No two pairs of user information and timestamp give the same stamped string. */
  lemma StampedInjective(u: string, t: nat, v: string, s: nat)
    ensures Stamped(u, t) == Stamped(v, s) <==> u == v && t == s
  {
    if Stamped(u, t) == Stamped(v, s) {
      var whole := Stamped(u, t);
      DigitsAfterMark(u, t);
      DigitsAfterMark(v, s);
      var a, b := |u| + 5, |v| + 5;
      assert forall i :: a < i < |whole| || b < i < |whole| ==> whole[i] != '=';
      assert whole[a] == '=' == whole[b];
      assert a == b;
      assert whole[..|u|] == u && whole[..|v|] == v;
      assert whole[a + 1..] == Decimal(t) && whole[b + 1..] == Decimal(s);
      DecimalInjective(t, s);
    }
  }

  lemma DigitsAfterMark(u: string, t: nat)
    ensures |Stamped(u, t)| > |u| + 6 && Stamped(u, t)[|u| + 5] == '='
    ensures forall i :: |u| + 6 <= i < |Stamped(u, t)| ==> IsDigit(Stamped(u, t)[i])
    ensures Stamped(u, t)[..|u|] == u && Stamped(u, t)[|u| + 6..] == Decimal(t)
  {
    var mark := "&time=";
    assert Stamped(u, t) == u + (mark + Decimal(t));
    forall i | |u| + 6 <= i < |Stamped(u, t)|
      ensures IsDigit(Stamped(u, t)[i])
    {
      assert Stamped(u, t)[i] == Decimal(t)[i - |u| - 6];
    }
  }

  lemma UserDataExact(a: string, b: string, hash: Digest)
    ensures UserData(a, hash) == UserData(b, hash) <==> hash(a) == hash(b)
  {
    assert UserData(a, hash)[..32] == hash(a) && UserData(b, hash)[..32] == hash(b);
  }

  // ----- What the calls return

  /** `CreateReport` over raw user data: the report, or the error code. */
  function Quoted(data: seq<Byte>, o: Quoting): (Option<Report>, ErrorCode) {
    if !o.targetCall then (None, OCallOperationFailed)
    else if o.targetRet != 0 then (None, GetTargetInfoFailed)
    else if !o.reportMade then (None, CreateReportFailed)
    else if !o.quoteCall then (None, OCallOperationException)
    else if o.quoteRet != 0 then (None, OCallOperationFailed)
    else if !o.bufferOutside then (None, BufferValidateFailed)
    else (Some(Base64(o.relay(Quote(data, o.mrEnclave, o.debug)))), Success)
  }

  predicate QuotingWorks(o: Quoting) {
    o.targetCall && o.targetRet == 0 && o.reportMade && o.quoteCall && o.quoteRet == 0 && o.bufferOutside
  }

  /** The service vouches for the quote with a result that is accepted and collateral that is up to date. */
  predicate Vouched(q: Quote, accepted: set<QvResult>, s: Service) {
    && s.selfTarget && s.verifyCall && s.verifyRet == 0 && s.bufferOutside && s.identityVerified
    && !q.debug && s.result in accepted && s.collateralStatus == 0
  }

  /** The error code of the quote verification itself, in the order of its checks. */
  function RawCode(q: Quote, s: Service): ErrorCode {
    if !s.selfTarget then GetTargetInfoFailed
    else if !s.verifyCall then OCallOperationException
    else if s.verifyRet != 0 then OCallOperationFailed
    else if !s.bufferOutside then BufferValidateFailed
    else if q.debug then EnclaveInDebugMode
    else if !s.identityVerified then QvEVerificationCallFailed
    else Success
  }

  /** The error code and the quality of the quote that verifying a report leaves behind. */
  function Checked(userData: seq<Byte>, report: Report, accepted: set<QvResult>, s: Service)
    : (ErrorCode, Option<QvResult>)
  {
    if !report.Base64? then (InvalidParameter, None)
    else if RawCode(report.quote, s) != Success then (RawCode(report.quote, s), None)
    else if s.result !in accepted then (VerifyQuoteFailed, Some(s.result))
    else if s.collateralStatus != 0 then (CollateralExpired, Some(s.result))
    else if report.quote.reportData != userData then (VerifyUserDataFailed, Some(s.result))
    else (Success, Some(s.result))
  }

  function CheckedInfo(userInfo: string, hash: Digest, report: Report, accepted: set<QvResult>, s: Service)
    : (ErrorCode, Option<QvResult>)
  {
    if userInfo == "" then (InvalidParameter, None) else Checked(UserData(userInfo, hash), report, accepted, s)
  }

  datatype Verdict = Accepted(mrEnclave: string) | Rejected | Threw

  class RemoteAttestor {
    var errorCode: ErrorCode
    var qvResult: Option<QvResult>
    var acceptedQvResults: set<QvResult>

    constructor ()
      ensures errorCode == Unknown && qvResult == None && acceptedQvResults == {Ok}
    {
      errorCode, qvResult, acceptedQvResults := Unknown, None, {Ok};
    }

    /** An empty list falls back to accepting `Ok` alone. */
    method SetAcceptableResults(acceptedResults: seq<QvResult>)
      modifies this`acceptedQvResults
      ensures acceptedQvResults != {}
      ensures forall r :: r in acceptedQvResults <==> r in acceptedResults || (acceptedResults == [] && r == Ok)
    {
      acceptedQvResults := {};
      for i := 0 to |acceptedResults|
        invariant forall r :: r in acceptedQvResults <==> r in acceptedResults[..i]
      {
        acceptedQvResults := acceptedQvResults + {acceptedResults[i]};
      }
      assert acceptedResults[..|acceptedResults|] == acceptedResults;
      assert acceptedResults != [] ==> acceptedResults[0] in acceptedQvResults;
      if acceptedQvResults == {} {
        acceptedQvResults := {Ok};
      }
    }

    /** A report that is made leaves the error code as it was. */
    method CreateReportFromData(userData: seq<Byte>, o: Quoting) returns (report: Option<Report>)
      modifies this`errorCode
      ensures report == Quoted(userData, o).0
      ensures errorCode == if report.Some? then old(errorCode) else Quoted(userData, o).1
      ensures report.Some? <==> QuotingWorks(o)
    {
      if !o.targetCall {
        errorCode := OCallOperationFailed;
        return None;
      }
      if o.targetRet != 0 {
        errorCode := GetTargetInfoFailed;
        return None;
      }
      if !o.reportMade {
        errorCode := CreateReportFailed;
        return None;
      }
      if !o.quoteCall {
        errorCode := OCallOperationException;
        return None;
      }
      if o.quoteRet != 0 {
        errorCode := OCallOperationFailed;
        return None;
      }
      if !o.bufferOutside {
        errorCode := BufferValidateFailed;
        return None;
      }
      report := Some(Base64(o.relay(Quote(userData, o.mrEnclave, o.debug))));
    }

    method CreateReport(userInfo: string, hash: Digest, o: Quoting) returns (report: Option<Report>)
      modifies this`errorCode
      ensures report == if userInfo == "" then None else Quoted(UserData(userInfo, hash), o).0
      ensures errorCode == if report.Some? then old(errorCode)
                           else if userInfo == "" then InvalidParameter else Quoted(UserData(userInfo, hash), o).1
    {
      if userInfo == "" {
        errorCode := InvalidParameter;
        return None;
      }
      report := CreateReportFromData(UserData(userInfo, hash), o);
    }

    method CreateReportAt(userInfo: string, timestamp: nat, hash: Digest, o: Quoting) returns (report: Option<Report>)
      modifies this`errorCode
      ensures report == if userInfo == "" then None else Quoted(UserData(Stamped(userInfo, timestamp), hash), o).0
      ensures errorCode == if report.Some? then old(errorCode)
                           else if userInfo == "" then InvalidParameter
                           else Quoted(UserData(Stamped(userInfo, timestamp), hash), o).1
    {
      if userInfo == "" {
        errorCode := InvalidParameter;
        return None;
      }
      report := CreateReport(Stamped(userInfo, timestamp), hash, o);
    }

    /** `VerifyRawQuoteWithQvE`: a success always comes with a result. */
    static method VerifyRawQuote(q: Quote, s: Service) returns (code: ErrorCode, result: Option<QvResult>)
      ensures code == RawCode(q, s)
      ensures result == if code == Success then Some(s.result) else None
    {
      result := None;
      if !s.selfTarget {
        return GetTargetInfoFailed, None;
      }
      if !s.verifyCall {
        return OCallOperationException, None;
      }
      if s.verifyRet != 0 {
        return OCallOperationFailed, None;
      }
      if !s.bufferOutside {
        return BufferValidateFailed, None;
      }
      if q.debug {
        return EnclaveInDebugMode, None;
      }
      if !s.identityVerified {
        return QvEVerificationCallFailed, None;
      }
      return Success, Some(s.result);
    }

    method VerifyReportFromData(userData: seq<Byte>, report: Report, s: Service) returns (verdict: Verdict)
      modifies this`errorCode, this`qvResult
      ensures verdict == if report.Base64? && Vouched(report.quote, acceptedQvResults, s)
                            && report.quote.reportData == userData
                         then Accepted(report.quote.mrEnclave) else Rejected
      ensures (errorCode, qvResult) == Checked(userData, report, acceptedQvResults, s)
    {
      qvResult := None;
      if report.NoText? || report.NotBase64? || report.NoQuote? {
        errorCode := InvalidParameter;
        return Rejected;
      }
      var q := report.quote;
      var code, result := VerifyRawQuote(q, s);
      qvResult := result;
      if code != Success {
        errorCode := code;
        return Rejected;
      } else if qvResult.value !in acceptedQvResults {
        errorCode := VerifyQuoteFailed;
        return Rejected;
      }
      if s.collateralStatus != 0 {
        errorCode := CollateralExpired;
        return Rejected;
      }
      if q.reportData != userData {
        errorCode := VerifyUserDataFailed;
        return Rejected;
      }
      errorCode := Success;
      verdict := Accepted(q.mrEnclave);
    }

    method VerifyReport(userInfo: string, hash: Digest, report: Report, s: Service) returns (verdict: Verdict)
      modifies this`errorCode, this`qvResult
      ensures verdict == if Passes(userInfo, hash, report, acceptedQvResults, s)
                         then Accepted(report.quote.mrEnclave) else Rejected
      ensures (errorCode, qvResult) == CheckedInfo(userInfo, hash, report, acceptedQvResults, s)
    {
      qvResult := None;
      if userInfo == "" || report.NoText? {
        errorCode := InvalidParameter;
        return Rejected;
      }
      verdict := VerifyReportFromData(UserData(userInfo, hash), report, s);
    }

    /** The clock is read only after the quote and the user data have passed; a clock that is refused throws. The
        measurement is handed out as soon as they have passed, whatever the clock then says. */
    method VerifyReportAt(userInfo: string, timestamp: nat, validity: nat, hash: Digest, report: Report, s: Service,
                          clock: TimeVerifier, reading: Option<nat>)
      returns (verdict: Verdict, measurement: Option<string>)
      modifies this`errorCode, this`qvResult, clock
      ensures measurement == if userInfo != ""
                                && Passes(Stamped(userInfo, timestamp), hash, report, acceptedQvResults, s)
                             then Some(report.quote.mrEnclave) else None
      ensures verdict ==
              VerdictAt(userInfo, timestamp, validity, hash, report, acceptedQvResults, s, old(clock.past), reading)
      ensures clock.past == if userInfo != "" && reading.Some?
                               && Passes(Stamped(userInfo, timestamp), hash, report, acceptedQvResults, s)
                            then Tick(old(clock.past), reading.value).1 else old(clock.past)
      ensures var checked := if userInfo == "" then (InvalidParameter, None)
                             else CheckedInfo(Stamped(userInfo, timestamp), hash, report, acceptedQvResults, s);
              && qvResult == checked.1
              && errorCode == if checked.0 == Success && verdict.Rejected? then VerifyTimeStampFailed else checked.0
    {
      qvResult, measurement := None, None;
      if userInfo == "" {
        errorCode := InvalidParameter;
        return Rejected, None;
      }
      verdict := VerifyReport(Stamped(userInfo, timestamp), hash, report, s);
      if verdict.Accepted? {
        measurement := Some(verdict.mrEnclave);
        if reading.None? {
          return Threw, measurement;
        }
        var now := reading.value;
        var ok := clock.Verify(now);
        if !ok {
          return Threw, measurement;
        }
        if (now - timestamp) % TWO_64 > validity {
          errorCode := VerifyTimeStampFailed;
          return Rejected, measurement;
        }
      }
    }
  }

  predicate Passes(userInfo: string, hash: Digest, report: Report, accepted: set<QvResult>, s: Service) {
    && userInfo != "" && report.Base64? && Vouched(report.quote, accepted, s)
    && report.quote.reportData == UserData(userInfo, hash)
  }

  function VerdictAt(userInfo: string, timestamp: nat, validity: nat, hash: Digest, report: Report,
                     accepted: set<QvResult>, s: Service, past: nat, reading: Option<nat>): Verdict {
    if userInfo == "" || !Passes(Stamped(userInfo, timestamp), hash, report, accepted, s) then Rejected
    else if reading.None? || !Tick(past, reading.value).0 then Threw
    else if InTime(reading.value, timestamp, validity) then Accepted(report.quote.mrEnclave)
    else Rejected
  }

  /** Which error code a verification leaves for which failure, and which quality of the quote: the first failure in the
      order in which they are looked for. */
  lemma CodesExactly(userData: seq<Byte>, report: Report, accepted: set<QvResult>, s: Service)
    ensures var (code, quality) := Checked(userData, report, accepted, s);
            var called := report.Base64? && s.selfTarget && s.verifyCall;
            var verified := called && s.verifyRet == 0 && s.bufferOutside;
            var genuine := verified && !report.quote.debug && s.identityVerified;
            && (code == InvalidParameter <==> !report.Base64?)
            && (code == GetTargetInfoFailed <==> report.Base64? && !s.selfTarget)
            && (code == OCallOperationException <==> report.Base64? && s.selfTarget && !s.verifyCall)
            && (code == OCallOperationFailed <==> called && s.verifyRet != 0)
            && (code == BufferValidateFailed <==> called && s.verifyRet == 0 && !s.bufferOutside)
            && (code == EnclaveInDebugMode <==> verified && report.quote.debug)
            && (code == QvEVerificationCallFailed <==> verified && !report.quote.debug && !s.identityVerified)
            && (code == VerifyQuoteFailed <==> genuine && s.result !in accepted)
            && (code == CollateralExpired <==> genuine && s.result in accepted && s.collateralStatus != 0)
            && (code == VerifyUserDataFailed <==>
                  genuine && s.result in accepted && s.collateralStatus == 0 && report.quote.reportData != userData)
            && (code == Success <==>
                  genuine && s.result in accepted && s.collateralStatus == 0 && report.quote.reportData == userData)
            && quality == if genuine then Some(s.result) else None
  {
  }

  /** Which error code making a report leaves for which failure; otherwise the report is what the host hands back for
      the quote over the data. */
  lemma QuotingCodes(data: seq<Byte>, o: Quoting)
    ensures var (report, code) := Quoted(data, o);
            var targeted := o.targetCall && o.targetRet == 0;
            var asked := targeted && o.reportMade && o.quoteCall;
            && (code == OCallOperationFailed <==> !o.targetCall || (asked && o.quoteRet != 0))
            && (code == GetTargetInfoFailed <==> o.targetCall && o.targetRet != 0)
            && (code == CreateReportFailed <==> targeted && !o.reportMade)
            && (code == OCallOperationException <==> targeted && o.reportMade && !o.quoteCall)
            && (code == BufferValidateFailed <==> asked && o.quoteRet == 0 && !o.bufferOutside)
            && (report.Some? <==> asked && o.quoteRet == 0 && o.bufferOutside)
            && (report.Some? ==> report.value == Base64(o.relay(Quote(data, o.mrEnclave, o.debug))))
  {
  }

  /** When a report is accepted for some information and a time: the service vouches for its quote in every respect,
      the enclave is not in debug mode, the quote carries the digest of the stamped information and zeros, and the clock
      answers, does not go back and is in time. */
  lemma AcceptedExactly(u: string, t: nat, validity: nat, hash: Digest, report: Report, accepted: set<QvResult>,
                        s: Service, past: nat, now: nat)
    requires now < TWO_63 && t < TWO_63 && validity < TWO_63
    ensures VerdictAt(u, t, validity, hash, report, accepted, s, past, Some(now)).Accepted? <==>
            && u != "" && report.Base64?
            && s.selfTarget && s.verifyCall && s.verifyRet == 0 && s.bufferOutside
            && !report.quote.debug && s.identityVerified && s.result in accepted && s.collateralStatus == 0
            && report.quote.reportData == hash(u + "&time=" + Decimal(t)) + seq(32, _ => 0)
            && past <= now && t <= now <= t + validity
    ensures VerdictAt(u, t, validity, hash, report, accepted, s, past, None) == Rejected
            || VerdictAt(u, t, validity, hash, report, accepted, s, past, None) == Threw
    ensures VerdictAt(u, t, validity, hash, report, accepted, s, past, Some(now)).Accepted? ==>
            VerdictAt(u, t, validity, hash, report, accepted, s, past, Some(now)) == Accepted(report.quote.mrEnclave)
  {
    InTimeExact(now, t, validity);
    assert PADDING == seq(32, _ => 0);
    assert |Stamped(u, t)| > 0;
    hide InTime;
  }

  /** A report that was made for `(u, t)`, and handed back by the host as any quote at all, is accepted for `(v, s)`
      exactly when that quote carries the user data of `(v, s)`, the service vouches for it and it is in time. If it
      carries the user data it was made with, that is when the pairs are the same, unless the hash collides on the two
      stamped strings. */
  lemma ReportIsBound(u: string, t: nat, v: string, s: nat, validity: nat, hash: Digest, o: Quoting, service: Service,
                      accepted: set<QvResult>, past: nat, now: nat)
    requires u != "" && QuotingWorks(o)
    requires hash(Stamped(u, t)) == hash(Stamped(v, s)) ==> Stamped(u, t) == Stamped(v, s)
    requires past <= now < TWO_63 && s < TWO_63 && validity < TWO_63
    ensures var data := UserData(Stamped(u, t), hash);
            var report := Quoted(data, o).0;
            && report.Some? && report.value.Base64?
            && var passes :=
                 VerdictAt(v, s, validity, hash, report.value, accepted, service, past, Some(now)).Accepted?;
               var vouched := Vouched(report.value.quote, accepted, service) && s <= now <= s + validity;
               && (passes <==> v != "" && report.value.quote.reportData == UserData(Stamped(v, s), hash) && vouched)
               && (report.value.quote.reportData == data ==> (passes <==> v == u && s == t && vouched))
  {
    StampedInjective(u, t, v, s);
    UserDataExact(Stamped(u, t), Stamped(v, s), hash);
    InTimeExact(now, s, validity);
    assert |Stamped(v, s)| > 0;
  }

  // ----- Runs on one clock

  /** A call that reads the clock of the enclave: for the time itself, or to verify a report. */
  datatype Call =
    | UtcNow(reading: Option<nat>)
    | Verifying(userInfo: string, timestamp: nat, validity: nat, report: Report, acceptedResults: seq<QvResult>,
                service: Service, reading: Option<nat>)

  function AcceptedSet(acceptedResults: seq<QvResult>): set<QvResult> {
    if acceptedResults == [] then {Ok} else set r | r in acceptedResults
  }

  /** What a call that verifies returns, and the error code it leaves. */
  datatype Answer = NoAnswer | Answer(verdict: Verdict, code: ErrorCode)

  predicate Accepts(a: Answer) { a.Answer? && a.verdict.Accepted? }

  predicate PassesQuote(c: Call, hash: Digest)
    requires c.Verifying?
  {
    && c.userInfo != ""
    && Passes(Stamped(c.userInfo, c.timestamp), hash, c.report, AcceptedSet(c.acceptedResults), c.service)
  }

  function AnswerTo(past: nat, c: Call, hash: Digest): Answer {
    if c.UtcNow? then NoAnswer
    else
      var accepted := AcceptedSet(c.acceptedResults);
      var verdict :=
        VerdictAt(c.userInfo, c.timestamp, c.validity, hash, c.report, accepted, c.service, past, c.reading);
      var code := if c.userInfo == "" then InvalidParameter
                  else CheckedInfo(Stamped(c.userInfo, c.timestamp), hash, c.report, accepted, c.service).0;
      Answer(verdict, if code == Success && verdict.Rejected? then VerifyTimeStampFailed else code)
  }

  function ClockAfter(past: nat, c: Call, hash: Digest): nat {
    if c.reading.None? || (c.Verifying? && !PassesQuote(c, hash)) then past else Tick(past, c.reading.value).1
  }

  /** The answers of a run of calls on a clock at `past`. */
  function Answers(past: nat, calls: seq<Call>, hash: Digest): (answers: seq<Answer>)
    ensures |answers| == |calls|
    decreases |calls|
  {
    if calls == [] then []
    else [AnswerTo(past, calls[0], hash)] + Answers(ClockAfter(past, calls[0], hash), calls[1..], hash)
  }

  function ClockAfterAll(past: nat, calls: seq<Call>, hash: Digest): nat
    decreases |calls|
  {
    if calls == [] then past else ClockAfterAll(ClockAfter(past, calls[0], hash), calls[1..], hash)
  }

  /** `UtcNow`: a reading that cannot be had, or that goes back, throws. */
  method CallUtcNow(clock: TimeVerifier, reading: Option<nat>) returns (now: Option<nat>)
    modifies clock
    ensures now == if reading.Some? && Tick(old(clock.past), reading.value).0 then reading else None
    ensures clock.past == if reading.Some? then Tick(old(clock.past), reading.value).1 else old(clock.past)
  {
    if reading.None? {
      return None;
    }
    var ok := clock.Verify(reading.value);
    now := if ok then reading else None;
  }

  /** One call, by an attestor of its own. */
  method RunCall(clock: TimeVerifier, c: Call, hash: Digest) returns (answer: Answer)
    modifies clock
    ensures (answer, clock.past) == (AnswerTo(old(clock.past), c, hash), ClockAfter(old(clock.past), c, hash))
  {
    hide VerdictAt, CheckedInfo, Passes, Tick;
    if c.UtcNow? {
      var _ := CallUtcNow(clock, c.reading);
      return NoAnswer;
    }
    var attestor := new RemoteAttestor();
    attestor.SetAcceptableResults(c.acceptedResults);
    assert attestor.acceptedQvResults == AcceptedSet(c.acceptedResults);
    var verdict, _ :=
      attestor.VerifyReportAt(c.userInfo, c.timestamp, c.validity, hash, c.report, c.service, clock, c.reading);
    answer := Answer(verdict, attestor.errorCode);
  }

  /** All calls of a run, on the one clock of the enclave. */
  method RunCalls(calls: seq<Call>, hash: Digest) returns (answers: seq<Answer>)
    ensures answers == Answers(0, calls, hash)
  {
    hide AnswerTo, ClockAfter;
    var clock := new TimeVerifier();
    answers := [];
    for i := 0 to |calls|
      invariant answers + Answers(clock.past, calls[i..], hash) == Answers(0, calls, hash)
    {
      assert calls[i..][0] == calls[i] && calls[i..][1..] == calls[i + 1..];
      ghost var past := clock.past;
      var answer := RunCall(clock, calls[i], hash);
      assert answers + ([answer] + Answers(clock.past, calls[i + 1..], hash))
          == answers + [answer] + Answers(clock.past, calls[i + 1..], hash);
      answers := answers + [answer];
    }
    assert answers + [] == answers;
  }

  lemma {:induction false} AnswersAt(past: nat, calls: seq<Call>, i: nat, hash: Digest)
    requires i < |calls|
    ensures Answers(past, calls, hash)[i] == AnswerTo(ClockAfterAll(past, calls[..i], hash), calls[i], hash)
    decreases |calls|
  {
    hide AnswerTo, ClockAfter;
    if i > 0 {
      AnswersAt(ClockAfter(past, calls[0], hash), calls[1..], i - 1, hash);
      assert calls[..i][1..] == calls[1..][..i - 1];
    }
  }

  lemma {:induction false} ClockAscends(past: nat, calls: seq<Call>, i: nat, j: nat, hash: Digest)
    requires i <= j <= |calls|
    ensures past <= ClockAfterAll(past, calls[..i], hash) <= ClockAfterAll(past, calls[..j], hash)
    decreases |calls|
  {
    if j > 0 {
      var next := ClockAfter(past, calls[0], hash);
      assert calls[..j][1..] == calls[1..][..j - 1];
      if i > 0 {
        assert calls[..i][1..] == calls[1..][..i - 1];
        ClockAscends(next, calls[1..], i - 1, j - 1, hash);
      } else {
        ClockAscends(next, calls[1..], 0, j - 1, hash);
      }
    }
  }

  lemma {:induction false} ClockAfterNext(past: nat, calls: seq<Call>, i: nat, hash: Digest)
    requires i < |calls|
    ensures ClockAfterAll(past, calls[..i + 1], hash)
         == ClockAfter(ClockAfterAll(past, calls[..i], hash), calls[i], hash)
    decreases |calls|
  {
    hide ClockAfter;
    assert calls[..i + 1][1..] == calls[1..][..i];
    if i > 0 {
      ClockAfterNext(ClockAfter(past, calls[0], hash), calls[1..], i - 1, hash);
      assert calls[..i][1..] == calls[1..][..i - 1];
    }
  }

  /** A call fails the time test exactly when everything else passes and its reading, which the clock takes, is not in
      time. */
  lemma TimeStampFailed(past: nat, c: Call, hash: Digest)
    requires c.Verifying?
    ensures AnswerTo(past, c, hash) == Answer(Rejected, VerifyTimeStampFailed) <==>
            PassesQuote(c, hash) && c.reading.Some? && past <= c.reading.value
            && !InTime(c.reading.value, c.timestamp, c.validity)
    ensures AnswerTo(past, c, hash) == Answer(Rejected, VerifyTimeStampFailed) ==>
            ClockAfter(past, c, hash) == c.reading.value
    ensures Accepts(AnswerTo(past, c, hash)) <==>
            PassesQuote(c, hash) && c.reading.Some? && past <= c.reading.value
            && InTime(c.reading.value, c.timestamp, c.validity)
  {
    hide InTime;
  }

  predicate SameTerms(a: Call, b: Call) {
    a.Verifying? && b.Verifying? && a.timestamp == b.timestamp && a.validity == b.validity
  }

  /** In any run of calls on one clock: after a call has been rejected for its time, with a timestamp that was not ahead
      of the clock, no later call for the same time and validity is accepted, whoever makes it with whatever report. */
  lemma ExpiredStaysExpired(calls: seq<Call>, i: nat, j: nat, hash: Digest)
    requires i < j < |calls| && SameTerms(calls[i], calls[j])
    requires forall c :: c in calls && c.reading.Some? ==> c.reading.value < TWO_64
    requires Answers(0, calls, hash)[i] == Answer(Rejected, VerifyTimeStampFailed)
    requires calls[i].reading.Some? && calls[i].timestamp <= calls[i].reading.value
    ensures !Accepts(Answers(0, calls, hash)[j])
  {
    hide Answers, AnswerTo, ClockAfter, ClockAfterAll, PassesQuote, InTime, Accepts;
    AnswersAt(0, calls, i, hash);
    AnswersAt(0, calls, j, hash);
    ClockAfterNext(0, calls, i, hash);
    ClockAscends(0, calls, i + 1, j, hash);
    var before, between := ClockAfterAll(0, calls[..i], hash), ClockAfterAll(0, calls[..j], hash);
    TimeStampFailed(before, calls[i], hash);
    TimeStampFailed(between, calls[j], hash);
    if Accepts(Answers(0, calls, hash)[j]) {
      assert calls[i] in calls && calls[j] in calls;
      LaterStillExpired(calls[i].reading.value, calls[j].reading.value, calls[i].timestamp, calls[i].validity);
    }
  }

  lemma LaterStillExpired(now: nat, later: nat, timestamp: nat, validity: nat)
    requires timestamp <= now <= later < TWO_64 && !InTime(now, timestamp, validity)
    ensures !InTime(later, timestamp, validity)
  {
  }

  lemma AtItsTime(timestamp: nat, validity: nat)
    ensures InTime(timestamp, timestamp, validity)
  {
  }

  /** A timestamp ahead of the clock is rejected in the same way, and can still be accepted later: the same call, made
      again at once when the clock shows the timestamp, is. */
  lemma AheadMayPassLater(calls: seq<Call>, i: nat, hash: Digest)
    requires i == |calls| - 1 && calls[i].Verifying?
    requires Answers(0, calls, hash)[i] == Answer(Rejected, VerifyTimeStampFailed)
    requires calls[i].reading.Some? && calls[i].reading.value < calls[i].timestamp
    ensures var again := calls + [calls[i].(reading := Some(calls[i].timestamp))];
            Accepts(Answers(0, again, hash)[i + 1])
  {
    hide Answers, AnswerTo, ClockAfter, ClockAfterAll, InTime, Accepts;
    var again := calls + [calls[i].(reading := Some(calls[i].timestamp))];
    AnswersAt(0, calls, i, hash);
    AnswersAt(0, again, i + 1, hash);
    ClockAfterNext(0, calls, i, hash);
    assert again[..i + 1] == calls[..i + 1];
    var before, between := ClockAfterAll(0, calls[..i], hash), ClockAfterAll(0, calls[..i + 1], hash);
    TimeStampFailed(before, calls[i], hash);
    TimeStampFailed(between, again[i + 1], hash);
    AtItsTime(calls[i].timestamp, calls[i].validity);
  }
}
