/** The facilitator callback: verify-then-settle, and how every outcome is classified.
    (internal/payment/callback.go) The facilitator is arbitrary: whatever it answers is an input. */
module Callback {
  import opened Wrappers
  import opened Text
  import opened Identity
  import opened Guards

  const VERIFY_ATTEMPTS: nat := 2
  const MAX_IN_FLIGHT: nat := 16
  const SETTLEMENT_PENDING := "settlement_pending"
  const PENDING_RETRY_AFTER: int := 15 * SECOND

  datatype Verdict = Valid | Invalid | Indeterminate | Ambiguous | Pending

  datatype VerifyDoc = VerifyDoc(isValid: bool, invalidReason: string, payer: string)
  datatype SettleDoc = SettleDoc(success: bool, errorReason: string, payer: string, transaction: string,
                                 network: string, amount: string)

  // One HTTP exchange: no response at all, or a status with a body that may fail to arrive or to decode.
  datatype Exchange<D> = NoResponse(timeout: bool, dial: bool)
                       | Response(status: int, readFailed: bool, doc: Option<D>)

  datatype CallResult<D> = Answered(doc: D) | Failed(transport: bool)

  predicate Retryable<D>(x: Exchange<D>) {
    x.NoResponse? && !x.timeout && x.dial
  }

  // Transport-class: no response, a redirect, a rate limit, a server error, or a body cut short.
  predicate TransportClass<D>(x: Exchange<D>) {
    x.NoResponse? || 300 <= x.status < 400 || x.status == 429 || x.status >= 500 || x.readFailed
  }

  // The document an exchange delivers: one that arrived whole, decoded, and under an error status gives
  // a reason.
  function Delivered<D>(x: Exchange<D>, hasReason: D -> bool): Option<D> {
    if TransportClass(x) || x.doc.None? || (x.status >= 400 && !hasReason(x.doc.value)) then None else x.doc
  }

  function Meaning<D>(x: Exchange<D>, hasReason: D -> bool): CallResult<D> {
    match Delivered(x, hasReason)
    case Some(doc) => Answered(doc)
    case None => Failed(TransportClass(x))
  }

  method Decode<D>(status: int, readFailed: bool, doc: Option<D>, hasReason: D -> bool) returns (r: CallResult<D>)
    ensures r == Meaning(Response(status, readFailed, doc), hasReason)
    // A document that arrived whole is the answer, under an error status only if it gives a reason.
    ensures r.Answered? <==> && !(300 <= status < 400 || status == 429 || status >= 500 || readFailed)
                             && doc.Some? && (status >= 400 ==> hasReason(doc.value))
    ensures r.Answered? ==> Some(r.doc) == doc
    ensures r.Failed? ==> (r.transport <==> 300 <= status < 400 || status == 429 || status >= 500 || readFailed)
  {
    if status >= 300 && status < 400 {
      return Failed(true);
    } else if status == 429 {
      return Failed(true);
    } else if status >= 500 {
      return Failed(true);
    }
    if readFailed {
      return Failed(true);
    }
    if doc.None? {
      return Failed(false);
    }
    if status >= 400 {
      if hasReason(doc.value) {
        return Answered(doc.value);
      }
      return Failed(false);
    }
    return Answered(doc.value);
  }

  // Which exchange of a call is the last: every earlier one failed before reaching the server.
  predicate LastOf<D(!new)>(exchanges: nat -> Exchange<D>, attempts: nat, last: nat) {
    && 1 <= last <= attempts
    && (forall k: nat :: 1 <= k < last ==> Retryable(exchanges(k)))
    && (last < attempts ==> !Retryable(exchanges(last)))
  }

  method RoundTrip<D(!new)>(exchanges: nat -> Exchange<D>, attempts: nat, hasReason: D -> bool)
      returns (r: CallResult<D>, sent: nat)
    requires attempts >= 1
    ensures LastOf(exchanges, attempts, sent)
    ensures r == Meaning(exchanges(sent), hasReason)
    // Every attempt but the last failed to connect, and not by running out of time.
    ensures forall k: nat :: 1 <= k < sent ==> exchanges(k).NoResponse? && exchanges(k).dial && !exchanges(k).timeout
    ensures sent < attempts && exchanges(sent).NoResponse? ==> !exchanges(sent).dial || exchanges(sent).timeout
  {
    var attempt: nat := 1;
    while attempt <= attempts
      invariant 1 <= attempt <= attempts
      invariant forall k: nat :: 1 <= k < attempt ==> Retryable(exchanges(k))
      decreases attempts - attempt
    {
      match exchanges(attempt)
      case NoResponse(timeout, dial) =>
        if attempt < attempts && !timeout && dial {
          attempt := attempt + 1;
        } else {
          return Failed(true), attempt;
        }
      case Response(status, readFailed, doc) =>
        var decoded := Decode(status, readFailed, doc, hasReason);
        return decoded, attempt;
    }
    assert false; // the loop always answers: the last attempt never continues
  }

  // The k-th exchange at each endpoint, should the gate get that far.
  datatype Facilitator = Facilitator(verify: nat -> Exchange<VerifyDoc>, settle: nat -> Exchange<SettleDoc>)

  datatype Outcome = Outcome(verdict: Verdict, reason: string, payer: string, tx: string, amount: string,
                             network: string, retryAfter: int)

  function Plain(v: Verdict, reason: string, retryAfter: int): Outcome {
    Outcome(v, reason, "", "", "", "", retryAfter)
  }

  // What a settlement must report to be the payment that was asked for.
  predicate Matches(sr: SettleDoc, req: Requirements, from: string) {
    && sr.transaction != ""
    && sr.network != "" && sr.network == req.network
    && (sr.payer == "" || EqualFold(sr.payer, from))
    && (sr.amount == "" || (CanonicalInteger(sr.amount).Some? && CanonicalInteger(sr.amount) == CanonicalInteger(req.amount)))
  }

  predicate PendingWithEvidence(sr: SettleDoc, req: Requirements) {
    && !sr.success && sr.errorReason == SETTLEMENT_PENDING
    && sr.transaction != "" && sr.network != "" && sr.network == req.network
  }

  // What a settlement answer leaves in the outcome: the facilitator's own evidence and reasons, the amount as asked if
  // it reported one, and a time to wait only for a settlement that is still pending.
  predicate Carries(sr: SettleDoc, req: Requirements, res: Outcome) {
    match res.verdict
    case Valid =>
      && res.(amount := "") == Outcome(Valid, "", sr.payer, sr.transaction, "", req.network, 0)
      && if sr.amount == "" then res.amount == "" else Some(res.amount) == CanonicalInteger(req.amount) == CanonicalInteger(sr.amount)
    case Pending => res.(reason := "") == Outcome(Pending, "", sr.payer, sr.transaction, "", req.network, 15 * SECOND)
    case Invalid => res == Outcome(Invalid, sr.errorReason, sr.payer, "", "", "", 0)
    case Ambiguous => res.(reason := "") == Outcome(Ambiguous, "", "", "", "", "", 0)
    case Indeterminate => false
  }

  // A refusal of the gate's own, to be tried again after `wait`.
  predicate SaysRetry(res: Outcome, wait: int) {
    res.(reason := "") == Outcome(res.verdict, "", "", "", "", "", wait)
  }

  // Absent other calls, the breaker is open at exactly the instants from now to now + wait.
  ghost predicate Waits(c: Circuit, now: int, wait: int) {
    wait >= 0 && forall t :: now <= t ==> (c.Open(t) <==> t < now + wait)
  }

  // The clock readings one Verify may take: at the breaker check, at a failure, and for RetryAfter.
  datatype Readings = Readings(open: int, failed: int, retry: int)

  class CallbackVerifier {
    const breaker: Breaker
    var inFlight: nat

    constructor (breaker: Breaker)
      ensures this.breaker == breaker && inFlight == 0
    {
      this.breaker := breaker;
      inFlight := 0;
    }

    // What one failed call does to the breaker.
    method NoteFailure(transport: bool, now: int)
      requires breaker.Valid()
      modifies breaker, breaker.slots
      ensures breaker.Valid() && (breaker.slots == old(breaker.slots) || fresh(breaker.slots))
      ensures breaker.View() == if transport then FailStep(breaker.dial, old(breaker.View()), now).0 else old(breaker.View())
    {
      if transport {
        var _ := breaker.Fail(now);
      }
    }

    // `verifies` and `settles` are the requests that left the gate.
    method Verify(p: Payload, req: Requirements, f: Facilitator, clock: Readings)
        returns (res: Outcome, verifies: nat, settles: nat)
      requires breaker.Valid() && inFlight <= MAX_IN_FLIGHT
      modifies this`inFlight, breaker, breaker.slots
      ensures breaker.Valid() && inFlight == old(inFlight)
      // No call leaves without an authorization, a closed breaker and a free slot; at most two requests
      // go to /verify, and one to /settle exactly when the last of them is answered with isValid.
      ensures verifies <= VERIFY_ATTEMPTS && settles <= 1
      ensures verifies > 0 <==> Admitted(p, req, old(breaker.View()), clock.open, old(inFlight))
      ensures verifies > 0 ==> LastOf(f.verify, VERIFY_ATTEMPTS, verifies)
      ensures settles == 1 <==> verifies > 0 && Verified(f, verifies)
      // Exactly when each verdict is returned.
      ensures res.verdict == Valid <==>
                && settles == 1 && Settlement(f).Some? && Settlement(f).value.success
                && Matches(Settlement(f).value, req, Authorization(p.scheme, req.TransferMethod()).value.value.from)
      ensures res.verdict == Pending <==>
                settles == 1 && Settlement(f).Some? && PendingWithEvidence(Settlement(f).value, req)
      ensures res.verdict == Indeterminate <==>
                && HasAuthorization(p, req)
                && (verifies == 0 || Delivered(f.verify(verifies), VerifyReason).None?)
      ensures res.verdict == Invalid <==>
                || !HasAuthorization(p, req)
                || (verifies > 0 && settles == 0 && Delivered(f.verify(verifies), VerifyReason).Some?)
                || (settles == 1 && Settlement(f).Some? && !Settlement(f).value.success
                    && Settlement(f).value.errorReason != SETTLEMENT_PENDING)
      ensures res.verdict == Indeterminate ==> settles == 0
      ensures res.verdict == Ambiguous || res.verdict == Pending || res.verdict == Valid ==> settles == 1
      // What the outcome carries: the facilitator's own evidence once it has answered, and the time to wait otherwise,
      // which is until the breaker closes, or two seconds for a call that found no slot.
      ensures settles == 1 && Settlement(f).Some? ==> Carries(Settlement(f).value, req, res)
      ensures verifies > 0 && settles == 0 && Delivered(f.verify(verifies), VerifyReason).Some? ==>
                var d := Delivered(f.verify(verifies), VerifyReason).value;
                res == Outcome(Invalid, d.invalidReason, d.payer, "", "", "", 0)
      ensures !HasAuthorization(p, req) ==> SaysRetry(res, 0)
      ensures HasAuthorization(p, req) && !old(breaker.View()).Open(clock.open) && verifies == 0 ==> SaysRetry(res, 2 * SECOND)
      ensures (HasAuthorization(p, req) && old(breaker.View()).Open(clock.open)) || NoAnswer(f, verifies, settles) ==>
                SaysRetry(res, res.retryAfter) && Waits(breaker.View(), clock.retry, res.retryAfter)
      // The breaker hears of transport-class failures and of definitive answers, and of nothing else.
      ensures breaker.View() == BreakerAfter(f, verifies, settles, old(breaker.View()), breaker.dial, clock.failed)
    {
      hide Delivered, Matches, Carries, FailStep, Hear;
      var auth := FindAuthorization(p.scheme, req.TransferMethod());
      if auth.Err? || auth.value.None? {
        return Plain(Invalid, "payment has no valid selected authorization", 0), 0, 0;
      }
      var open := breaker.IsOpen(clock.open);
      if open {
        var wait := breaker.RetryAfter(clock.retry);
        return Plain(Indeterminate, "payments are temporarily unavailable; you were not charged", wait), 0, 0;
      }
      if inFlight == MAX_IN_FLIGHT {
        return Plain(Indeterminate, "temporarily unable to process payments", 2 * SECOND), 0, 0;
      }
      inFlight := inFlight + 1;
      res, verifies, settles := Round(req, auth.value.value.from, f, clock);
      inFlight := inFlight - 1;
    }

    // The part of Verify that runs while holding an egress slot.
    method Round(req: Requirements, from: string, f: Facilitator, clock: Readings)
        returns (res: Outcome, verifies: nat, settles: nat)
      requires breaker.Valid() && 0 < inFlight <= MAX_IN_FLIGHT
      modifies breaker, breaker.slots
      ensures breaker.Valid() && (breaker.slots == old(breaker.slots) || fresh(breaker.slots))
      ensures LastOf(f.verify, VERIFY_ATTEMPTS, verifies)
      ensures settles == if Verified(f, verifies) then 1 else 0
      ensures (res.verdict == Valid <==>
                settles == 1 && Settlement(f).Some? && Settlement(f).value.success && Matches(Settlement(f).value, req, from))
      ensures (res.verdict == Pending <==>
                settles == 1 && Settlement(f).Some? && PendingWithEvidence(Settlement(f).value, req))
      ensures (res.verdict == Indeterminate <==> Delivered(f.verify(verifies), VerifyReason).None?)
      ensures (res.verdict == Invalid <==>
                || (settles == 0 && Delivered(f.verify(verifies), VerifyReason).Some?)
                || (settles == 1 && Settlement(f).Some? && !Settlement(f).value.success
                    && Settlement(f).value.errorReason != SETTLEMENT_PENDING))
      ensures settles == 1 && Settlement(f).Some? ==> Carries(Settlement(f).value, req, res)
      ensures settles == 0 && Delivered(f.verify(verifies), VerifyReason).Some? ==>
                var d := Delivered(f.verify(verifies), VerifyReason).value;
                res == Outcome(Invalid, d.invalidReason, d.payer, "", "", "", 0)
      ensures NoAnswer(f, verifies, settles) ==>
                SaysRetry(res, res.retryAfter) && Waits(breaker.View(), clock.retry, res.retryAfter)
      ensures breaker.View() == BreakerAfter(f, verifies, settles, old(breaker.View()), breaker.dial, clock.failed)
    {
      var vr: CallResult<VerifyDoc>;
      vr, verifies := RoundTrip(f.verify, VERIFY_ATTEMPTS, VerifyReason);
      settles := 0;
      if vr.Failed? {
        NoteFailure(vr.transport, clock.failed);
        var wait := breaker.RetryAfter(clock.retry);
        return Plain(Indeterminate, "temporarily unable to process payments", wait), verifies, settles;
      }
      if !vr.doc.isValid {
        breaker.Succeed();
        return Outcome(Invalid, vr.doc.invalidReason, vr.doc.payer, "", "", "", 0), verifies, settles;
      }
      var sr: CallResult<SettleDoc>;
      sr, settles := RoundTrip(f.settle, 1, SettleReason);
      if sr.Failed? {
        NoteFailure(sr.transport, clock.failed);
        var wait := breaker.RetryAfter(clock.retry);
        return Plain(Ambiguous, "settlement outcome unknown", wait), verifies, settles;
      }
      breaker.Succeed();
      res := Judge(sr.doc, req, from);
    }

    method Judge(sr: SettleDoc, req: Requirements, from: string) returns (res: Outcome)
      ensures res.verdict == Valid <==> sr.success && Matches(sr, req, from)
      ensures res.verdict == Pending <==> PendingWithEvidence(sr, req)
      ensures res.verdict == Invalid <==> !sr.success && sr.errorReason != SETTLEMENT_PENDING
      ensures Carries(sr, req, res)
    {
      if !sr.success {
        if sr.errorReason == SETTLEMENT_PENDING {
          if sr.transaction == "" || sr.network == "" {
            return Plain(Ambiguous, "settlement outcome unknown", 0);
          }
          if sr.network != req.network {
            return Plain(Ambiguous, "settlement outcome unknown", 0);
          }
          return Outcome(Pending, "settlement was broadcast but is not yet confirmed", sr.payer, sr.transaction, "",
                         sr.network, PENDING_RETRY_AFTER);
        }
        return Outcome(Invalid, sr.errorReason, sr.payer, "", "", "", 0);
      }
      if sr.transaction == "" {
        return Plain(Ambiguous, "settlement outcome unknown", 0);
      }
      if sr.network == "" || sr.network != req.network {
        return Plain(Ambiguous, "settlement outcome unknown", 0);
      }
      if sr.payer != "" && !EqualFold(sr.payer, from) {
        return Plain(Ambiguous, "settlement outcome unknown", 0);
      }
      var amount := "";
      if sr.amount != "" {
        var settled := CanonicalInteger(sr.amount);
        var requested := CanonicalInteger(req.amount);
        if settled.None? || requested.None? || settled.value != requested.value {
          return Plain(Ambiguous, "settlement outcome unknown", 0);
        }
        amount := settled.value;
      }
      return Outcome(Valid, "", sr.payer, sr.transaction, amount, sr.network, 0);
    }
  }

  predicate VerifyReason(d: VerifyDoc) {
    d.invalidReason != ""
  }

  predicate SettleReason(d: SettleDoc) {
    d.errorReason != ""
  }

  predicate HasAuthorization(p: Payload, req: Requirements) {
    Authorization(p.scheme, req.TransferMethod()).Ok? && Authorization(p.scheme, req.TransferMethod()).value.Some?
  }

  predicate Admitted(p: Payload, req: Requirements, c: Circuit, now: int, inFlight: nat) {
    HasAuthorization(p, req) && !c.Open(now) && inFlight < MAX_IN_FLIGHT
  }

  // The last request a call sent went unanswered.
  predicate NoAnswer(f: Facilitator, verifies: nat, settles: nat) {
    if settles == 1 then Settlement(f).None? else verifies > 0 && Delivered(f.verify(verifies), VerifyReason).None?
  }

  predicate Verified(f: Facilitator, verifies: nat) {
    var d := Delivered(f.verify(verifies), VerifyReason);
    d.Some? && d.value.isValid
  }

  function Settlement(f: Facilitator): Option<SettleDoc> {
    Delivered(f.settle(1), SettleReason)
  }

  // A definitive answer closes the breaker; a transport-class failure counts against it; anything else leaves it
  // alone.
  function Hear<D>(d: Dial, c: Circuit, x: Exchange<D>, hasReason: D -> bool, now: int): Circuit {
    if TransportClass(x) then FailStep(d, c, now).0
    else if Delivered(x, hasReason).Some? then CLOSED
    else c
  }

  // What a call does to the breaker, by its last exchange.
  function BreakerAfter(f: Facilitator, verifies: nat, settles: nat, c: Circuit, d: Dial, now: int): Circuit {
    if verifies == 0 then c
    else if settles == 0 then Hear(d, c, f.verify(verifies), VerifyReason, now)
    else Hear(d, c, f.settle(1), SettleReason, now)
  }

  // ---------------------------------------------------------------------------
  // Concurrent callers of one verifier
  // ---------------------------------------------------------------------------

  // Where a call that holds an egress slot is: waiting for its verify requests, or for its settle request.
  datatype Stage = Verifying | Settling

  // What the calls share: the slots and the breaker.
  datatype Shared = Shared(inside: map<nat, Stage>, circuit: Circuit)

  // A call with a valid authorization arrives, having seen the breaker open or not a moment before; its last verify
  // request ends; its settle request ends.
  datatype CallEvent = Arrive(who: nat, sawOpen: bool)
                     | VerifyEnds(who: nat, verifies: nat, at: int)
                     | SettleEnds(who: nat, at: int)

  predicate Enabled(calls: nat -> Facilitator, s: Shared, e: CallEvent) {
    match e
    case Arrive(who, _) => who !in s.inside
    case VerifyEnds(who, verifies, _) =>
      who in s.inside && s.inside[who] == Verifying && LastOf(calls(who).verify, VERIFY_ATTEMPTS, verifies)
    case SettleEnds(who, _) => who in s.inside && s.inside[who] == Settling
  }

  function OnEvent(d: Dial, calls: nat -> Facilitator, s: Shared, e: CallEvent): Shared {
    match e
    case Arrive(who, sawOpen) =>
      if sawOpen || |s.inside| >= MAX_IN_FLIGHT then s else s.(inside := s.inside[who := Verifying])
    case VerifyEnds(who, verifies, at) =>
      if Verified(calls(who), verifies) then s.(inside := s.inside[who := Settling])
      else Shared(s.inside - {who}, Hear(d, s.circuit, calls(who).verify(verifies), VerifyReason, at))
    case SettleEnds(who, at) =>
      Shared(s.inside - {who}, Hear(d, s.circuit, calls(who).settle(1), SettleReason, at))
  }

  ghost predicate Follows(d: Dial, calls: nat -> Facilitator, s: Shared, e: CallEvent, s': Shared) {
    Enabled(calls, s, e) && s' == OnEvent(d, calls, s, e)
  }

  // Any interleaving of any calls, from a fresh verifier.
  ghost predicate IsRun(d: Dial, calls: nat -> Facilitator, ss: seq<Shared>, es: seq<CallEvent>) {
    && |ss| == |es| + 1 && ss[0] == Shared(map[], CLOSED)
    && forall k {:trigger es[k]} :: 0 <= k < |es| ==> Follows(d, calls, ss[k], es[k], ss[k + 1])
  }

  lemma EntryAdds(inside: map<nat, Stage>, who: nat, stage: Stage)
    ensures |inside[who := stage]| == |inside| + if who in inside then 0 else 1
  {
    assert inside[who := stage].Keys == inside.Keys + {who};
  }

  lemma ExitRemoves(inside: map<nat, Stage>, who: nat)
    requires who in inside
    ensures |inside - {who}| == |inside| - 1
  {
    assert (inside - {who}).Keys == inside.Keys - {who};
  }

  lemma StepStaysBounded(d: Dial, calls: nat -> Facilitator, s: Shared, e: CallEvent)
    requires Enabled(calls, s, e) && |s.inside| <= MAX_IN_FLIGHT
    ensures |OnEvent(d, calls, s, e).inside| <= MAX_IN_FLIGHT
  {
    hide Hear, Verified, LastOf;
    match e
    case Arrive(who, _) => EntryAdds(s.inside, who, Verifying);
    case VerifyEnds(who, _, _) =>
      EntryAdds(s.inside, who, Settling);
      ExitRemoves(s.inside, who);
    case SettleEnds(who, _) => ExitRemoves(s.inside, who);
  }

  // A request to settle is outstanding only for a call whose last verify request was answered with isValid.
  ghost predicate SettlesVerified(calls: nat -> Facilitator, inside: map<nat, Stage>) {
    forall w :: w in inside && inside[w] == Settling ==> WasVerified(calls(w))
  }

  ghost predicate WasVerified(f: Facilitator) {
    exists verifies :: LastOf(f.verify, VERIFY_ATTEMPTS, verifies) && Verified(f, verifies)
  }

  lemma StepSettlesVerified(d: Dial, calls: nat -> Facilitator, s: Shared, e: CallEvent)
    requires Enabled(calls, s, e) && SettlesVerified(calls, s.inside)
    ensures SettlesVerified(calls, OnEvent(d, calls, s, e).inside)
  {
    hide Hear, Verified, LastOf, WasVerified;
    if e.VerifyEnds? && Verified(calls(e.who), e.verifies) {
      VerifiedBy(calls(e.who), e.verifies);
    }
  }

  lemma VerifiedBy(f: Facilitator, verifies: nat)
    requires LastOf(f.verify, VERIFY_ATTEMPTS, verifies) && Verified(f, verifies)
    ensures WasVerified(f)
  {
  }

  // However calls interleave, no more than the maximum hold a slot, and none settles what was not verified.
  lemma {:induction false} EgressIsBounded(d: Dial, calls: nat -> Facilitator, ss: seq<Shared>, es: seq<CallEvent>, n: nat)
    requires IsRun(d, calls, ss, es) && n <= |es|
    ensures |ss[n].inside| <= MAX_IN_FLIGHT && SettlesVerified(calls, ss[n].inside)
  {
    hide OnEvent, Enabled, WasVerified;
    if n > 0 {
      EgressIsBounded(d, calls, ss, es, n - 1);
      assert Follows(d, calls, ss[n - 1], es[n - 1], ss[n]);
      StepStaysBounded(d, calls, ss[n - 1], es[n - 1]);
      StepSettlesVerified(d, calls, ss[n - 1], es[n - 1]);
    }
  }

  // What an event reports to the breaker: nothing, a transport-class failure, or a definitive answer.
  function ReportOf(calls: nat -> Facilitator, e: CallEvent): seq<Report> {
    match e
    case Arrive(_, _) => []
    case VerifyEnds(who, verifies, at) =>
      if Verified(calls(who), verifies) then [] else Heard(calls(who).verify(verifies), VerifyReason, at)
    case SettleEnds(who, at) => Heard(calls(who).settle(1), SettleReason, at)
  }

  function Heard<D>(x: Exchange<D>, hasReason: D -> bool, at: int): seq<Report> {
    if TransportClass(x) then [Failure(at)]
    else if Delivered(x, hasReason).Some? then [Success(at)]
    else []
  }

  function Reports(calls: nat -> Facilitator, es: seq<CallEvent>, n: nat): seq<Report>
    requires n <= |es|
  {
    if n == 0 then [] else Reports(calls, es, n - 1) + ReportOf(calls, es[n - 1])
  }

  lemma {:induction false} RunInPrefix(d: Dial, rs: seq<Report>, more: seq<Report>, n: nat)
    requires n <= |rs|
    ensures Run(d, CLOSED, rs + more, n) == Run(d, CLOSED, rs, n)
  {
    if n > 0 {
      RunInPrefix(d, rs, more, n - 1);
    }
  }

  lemma OneReport(d: Dial, calls: nat -> Facilitator, s: Shared, e: CallEvent, rs: seq<Report>)
    requires s.circuit == Run(d, CLOSED, rs, |rs|)
    ensures var all := rs + ReportOf(calls, e);
            OnEvent(d, calls, s, e).circuit == Run(d, CLOSED, all, |all|)
  {
    hide FailStep, Delivered, TransportClass;
    var more := ReportOf(calls, e);
    RunInPrefix(d, rs, more, |rs|);
    assert more == [] ==> rs + more == rs;
  }

  // However calls interleave, the breaker is where the reports of all of them, in the order they were made, put
  // it: the results about runs of reports hold for the breaker that concurrent calls share.
  lemma {:induction false} BreakerHearsEveryCall(d: Dial, calls: nat -> Facilitator, ss: seq<Shared>, es: seq<CallEvent>, n: nat)
    requires IsRun(d, calls, ss, es) && n <= |es|
    ensures var rs := Reports(calls, es, n); ss[n].circuit == Run(d, CLOSED, rs, |rs|)
  {
    hide OnEvent, Enabled, ReportOf;
    if n > 0 {
      BreakerHearsEveryCall(d, calls, ss, es, n - 1);
      assert Follows(d, calls, ss[n - 1], es[n - 1], ss[n]);
      OneReport(d, calls, ss[n - 1], es[n - 1], Reports(calls, es, n - 1));
    }
  }

  // The breaker reads its clock inside its lock, so its reports come in clock order.
  predicate Clocked(es: seq<CallEvent>) {
    forall i, j :: 0 <= i <= j < |es| && !es[i].Arrive? && !es[j].Arrive? ==> es[i].at <= es[j].at
  }

  lemma ReportIsItsOwn(calls: nat -> Facilitator, e: CallEvent)
    ensures |ReportOf(calls, e)| <= 1
    ensures forall r :: r in ReportOf(calls, e) ==> !e.Arrive? && r.at == e.at
  {
    hide TransportClass, Delivered, Verified;
  }

  lemma {:induction false} ReportsAreClocked(calls: nat -> Facilitator, es: seq<CallEvent>, n: nat)
    requires Clocked(es) && n <= |es|
    ensures Monotone(Reports(calls, es, n))
    ensures forall r :: r in Reports(calls, es, n) ==> exists i :: 0 <= i < n && !es[i].Arrive? && r.at == es[i].at
  {
    hide ReportOf;
    if n > 0 {
      ReportsAreClocked(calls, es, n - 1);
      var rs, more := Reports(calls, es, n - 1), ReportOf(calls, es[n - 1]);
      ReportIsItsOwn(calls, es[n - 1]);
      forall i | 0 <= i < |rs| && more != [] ensures rs[i].at <= more[0].at {
        assert rs[i] in rs && more[0] in more;
      }
    }
  }

  // On one clock, then, a reported failure of whichever call opens the shared breaker exactly when the breaker is
  // not already open and the failures of all calls since the last definitive answer or opening, as far as they are
  // inside the window, reach the threshold with it.
  lemma SharedBreakerOpensIff(d: Dial, calls: nat -> Facilitator, ss: seq<Shared>, es: seq<CallEvent>, n: nat)
    requires d.Sane() && IsRun(d, calls, ss, es) && Clocked(es) && n < |es|
    requires !es[n].Arrive? && ReportOf(calls, es[n]) == [Failure(es[n].at)]
    ensures var rs, i, at := Reports(calls, es, n + 1), |Reports(calls, es, n)|, es[n].at;
            var h := Recall(d, rs, i);
            && rs[i] == Failure(at)
            && ss[n + 1].circuit == FailStep(d, ss[n].circuit, at).0
            && (FailStep(d, ss[n].circuit, at).1 <==> !h.Suppresses(Failure(at)) && |h.InWindow(d, at)| >= d.threshold)
  {
    hide IsRun, ReportOf, FailStep, Recall, History.InWindow;
    BreakerHearsEveryCall(d, calls, ss, es, n);
    BreakerHearsEveryCall(d, calls, ss, es, n + 1);
    ReportsAreClocked(calls, es, n + 1);
    OneMoreFailure(d, Reports(calls, es, n), es[n].at);
  }

  lemma OneMoreFailure(d: Dial, before: seq<Report>, at: int)
    requires d.Sane() && Monotone(before + [Failure(at)])
    ensures var rs := before + [Failure(at)];
            var h, c := Recall(d, rs, |before|), Run(d, CLOSED, before, |before|);
            && Run(d, CLOSED, rs, |rs|) == FailStep(d, c, at).0
            && (FailStep(d, c, at).1 <==> !h.Suppresses(Failure(at)) && |h.InWindow(d, at)| >= d.threshold)
  {
    hide FailStep, Recall, History.InWindow;
    var rs := before + [Failure(at)];
    RunInPrefix(d, before, [Failure(at)], |before|);
    FailOpensAtThreshold(d, rs, |before|);
  }

  // What each step does to the slots, in every run: a call that arrives gets one exactly when it saw the breaker closed
  // and fewer than sixteen are taken, keeps it to settle exactly when it was verified, and gives it back at its end.
  lemma SlotOutcome(d: Dial, calls: nat -> Facilitator, ss: seq<Shared>, es: seq<CallEvent>, k: nat)
    requires IsRun(d, calls, ss, es) && k < |es|
    ensures var before, after, e := ss[k].inside, ss[k + 1].inside, es[k];
            && (e.Arrive? ==> after == if !e.sawOpen && |before| < 16 then before[e.who := Verifying] else before)
            && (e.VerifyEnds? ==> after == if Verified(calls(e.who), e.verifies) then before[e.who := Settling] else before - {e.who})
            && (e.SettleEnds? ==> after == before - {e.who})
  {
    hide Hear, Verified, LastOf;
    assert Follows(d, calls, ss[k], es[k], ss[k + 1]);
  }

  // A call that no other interleaves with does to the breaker what Verify says, and returns its slot.
  lemma UninterruptedCall(d: Dial, calls: nat -> Facilitator, s: Shared, who: nat, open: int, verifies: nat, at: int)
    requires who !in s.inside && !s.circuit.Open(open) && |s.inside| < MAX_IN_FLIGHT
    requires LastOf(calls(who).verify, VERIFY_ATTEMPTS, verifies)
    ensures var s1 := OnEvent(d, calls, s, Arrive(who, s.circuit.Open(open)));
            var s2 := OnEvent(d, calls, s1, VerifyEnds(who, verifies, at));
            var settles := if Verified(calls(who), verifies) then 1 else 0;
            var last := if settles == 1 then OnEvent(d, calls, s2, SettleEnds(who, at)) else s2;
            && Enabled(calls, s1, VerifyEnds(who, verifies, at)) && (settles == 1 ==> Enabled(calls, s2, SettleEnds(who, at)))
            && last == Shared(s.inside, BreakerAfter(calls(who), verifies, settles, s.circuit, d, at))
  {
    hide Hear, Verified;
    assert s.inside[who := Verifying] - {who} == s.inside;
    assert s.inside[who := Verifying][who := Settling] - {who} == s.inside;
  }
}
