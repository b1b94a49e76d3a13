/** The buffering writer that inserts the renewal script into a document's head as it streams past.
    (internal/gate/injector.go, internal/gate/inject.go) */
module Injector {
  import opened Wrappers
  import opened Text
  import Html
  import opened CspPlan
  import opened Loader

  const HEAD_BUDGET: nat := 65536
  const STATUS_OK := 200
  const SWITCHING_PROTOCOLS := 101

  datatype MediaType = Unparseable | Media(kind: string, charset: string)

  // The response headers the injector reads or edits. `digest` is the first digest or signature header
  // present, lower-cased; absent headers are "" or the empty list.
  datatype Headers = Headers(enforce: seq<string>, report: seq<string>, digest: string, contentEncoding: string,
                             contentType: MediaType, contentLength: string, etag: string, vary: seq<string>,
                             cacheControl: string)

  // What reaches the real writer, in order. A final header carries the headers as they are then.
  datatype Sent = Info(status: int) | Head(status: int, headers: Headers) | Body(bytes: string) | Flushed

  const ASCII_CHARSETS: seq<string> := ["", "utf-8", "utf8", "us-ascii", "ascii", "iso-8859-1", "latin1",
                                        "windows-1252", "iso-8859-15"]

  // A response may be touched only if it is a 200, nothing signs its bytes, they are not encoded, and they are HTML in
  // a character set that keeps ASCII; names are compared in any case.
  predicate MayBeTouched(status: int, h: Headers) {
    && status == 200 && h.digest == ""
    && (h.contentEncoding == "" || EqualFold(h.contentEncoding, "identity"))
    && h.contentType.Media? && h.contentType.kind == "text/html"
    && exists i :: 0 <= i < |ASCII_CHARSETS| && EqualFold(h.contentType.charset, ASCII_CHARSETS[i])
  }

  function SkipReason(status: int, h: Headers): (why: string)
    ensures why == "" <==> MayBeTouched(status, h)
  {
    CharsetsAreLower();
    if status != STATUS_OK then "response-status-is-not-200"
    else if h.digest != "" then "response-carries-" + h.digest
    else if h.contentEncoding != "" && !EqualFold(h.contentEncoding, "identity") then
      "upstream-ignored-accept-encoding-identity"
    else if h.contentType.Unparseable? || h.contentType.kind != "text/html" then "content-type-is-not-text/html"
    else if ToLower(h.contentType.charset) in ASCII_CHARSETS then ""
    else "charset-is-not-ascii-compatible"
  }

  lemma OnlyOkIsTouched(status: int, h: Headers)
    ensures MayBeTouched(status, h) ==> status == STATUS_OK
  {
  }

  lemma CharsetsAreLower()
    ensures forall i :: 0 <= i < |ASCII_CHARSETS| ==> ToLower(ASCII_CHARSETS[i]) == ASCII_CHARSETS[i]
  {
  }

  predicate Informational(status: int) {
    100 <= status < 200 && status != SWITCHING_PROTOCOLS
  }

  // ---------------------------------------------------------------------------
  // Header edits
  // ---------------------------------------------------------------------------

  predicate Wanted(name: string, field: string) {
    EqualFold(TrimSpace(name), field) || TrimSpace(name) == ['*']
  }

  predicate NamesField(value: string, field: string) {
    exists name :: name in Split(value, ',') && Wanted(name, field)
  }

  method Mentions(value: string, field: string) returns (found: bool)
    ensures found <==> NamesField(value, field)
  {
    hide Wanted, Split;
    var names := Split(value, ',');
    var i := 0;
    while i < |names|
      invariant 0 <= i <= |names|
      invariant forall k :: 0 <= k < i ==> !Wanted(names[k], field)
    {
      if Wanted(names[i], field) {
        return true;
      }
      i := i + 1;
    }
    return false;
  }

  method AddVary(vary: seq<string>, field: string) returns (out: seq<string>)
    ensures out == Varied(vary, field)
  {
    var i := 0;
    while i < |vary|
      invariant 0 <= i <= |vary|
      invariant forall k :: 0 <= k < i ==> !NamesField(vary[k], field)
    {
      var found := Mentions(vary[i], field);
      if found {
        return vary;
      }
      i := i + 1;
    }
    return vary + [field];
  }

  // Vary names the field afterwards, and is touched only if it did not.
  function Varied(vary: seq<string>, field: string): seq<string> {
    if exists i :: 0 <= i < |vary| && NamesField(vary[i], field) then vary else vary + [field]
  }

  function Weakened(etag: string): string {
    if etag != "" && !("W/" <= etag) then "W/" + etag else etag
  }

  // The headers of an injected response.
  function Injected(h: Headers, plan: Plan): Headers {
    h.(enforce := HeadersAfter(plan, h.enforce),
       report := if plan.report.Some? then plan.report.value else h.report,
       contentLength := "",
       etag := Weakened(h.etag),
       vary := Varied(h.vary, "Cookie"),
       cacheControl := if plan.nonce != "" then "no-store" else h.cacheControl)
  }

  method EditHeaders(h: Headers, plan: Plan) returns (out: Headers)
    ensures out == Injected(h, plan)
  {
    hide NamesField;
    out := h;
    if plan.enforce.Some? {
      out := out.(enforce := plan.enforce.value);
    }
    if plan.report.Some? {
      out := out.(report := plan.report.value);
    }
    out := out.(contentLength := "", etag := Weakened(h.etag));
    var field := "Cookie";
    var vary := AddVary(h.vary, field);
    out := out.(vary := vary);
    if plan.nonce != "" {
      out := out.(cacheControl := "no-store");
    }
  }

  // One of the values lists Cookie, in any case, or a wildcard.
  ghost predicate NamesCookie(vary: seq<string>) {
    exists i, name :: 0 <= i < |vary| && name in Split(vary[i], ',') && (EqualFold(TrimSpace(name), "Cookie") || TrimSpace(name) == "*")
  }

  lemma NamesCookieIff(vary: seq<string>, field: string)
    requires field == "Cookie"
    ensures NamesCookie(vary) <==> exists i :: 0 <= i < |vary| && NamesField(vary[i], field)
  {
    hide EqualFold, TrimSpace, Split;
    forall name ensures Wanted(name, field) <==> (EqualFold(TrimSpace(name), "Cookie") || TrimSpace(name) == "*") {
    }
    if i :| 0 <= i < |vary| && NamesField(vary[i], field) {
      var name :| name in Split(vary[i], ',') && Wanted(name, field);
    }
    if i, name :| 0 <= i < |vary| && name in Split(vary[i], ',') && (EqualFold(TrimSpace(name), "Cookie") || TrimSpace(name) == "*") {
      assert Wanted(name, field) && NamesField(vary[i], field);
    }
  }

  // What a cache and a browser are told of an injected response: its length is withdrawn, its validator is a weak one
  // with the same tag, it varies by cookie, and with a nonce in it it is not stored; nothing else changes but policies.
  lemma InjectedHeaders(h: Headers, plan: Plan)
    ensures var out := Injected(h, plan);
            && out.contentLength == ""
            && (out.etag == "" <==> h.etag == "") && (out.etag != "" ==> "W/" <= out.etag)
            && (out.etag == h.etag || out.etag[2..] == h.etag)
            && NamesCookie(out.vary) && out.vary == (if NamesCookie(h.vary) then h.vary else h.vary + ["Cookie"])
            && out.cacheControl == (if plan.nonce == "" then h.cacheControl else "no-store")
            && out.(enforce := h.enforce, report := h.report, contentLength := h.contentLength, etag := h.etag, vary := h.vary,
                    cacheControl := h.cacheControl) == h
  {
    var field := "Cookie";
    WordWantsItself(field);
    NamesCookieIff(h.vary, field);
    NamesCookieIff(Varied(h.vary, field), field);
    hide NamesField, NamesCookie;
    if !NamesCookie(h.vary) {
      assert (h.vary + [field])[|h.vary|] == field;
    }
  }

  lemma WordWantsItself(field: string)
    requires field == "Cookie"
    ensures NamesField(field, field)
  {
    assert ',' !in field;
    SplitAtSeparator(field, "", ',');
    assert !IsSpace(field[0]) && !IsSpace(field[|field| - 1]);
    assert TrimSpace(field) == field;
    assert field in Split(field, ',') && Wanted(field, field);
  }

  // ---------------------------------------------------------------------------
  // What went downstream
  // ---------------------------------------------------------------------------

  function Bytes(log: seq<Sent>): string {
    if log == [] then ""
    else Bytes(log[..|log| - 1]) + if log[|log| - 1].Body? then log[|log| - 1].bytes else ""
  }

  function Infos(log: seq<Sent>): seq<int> {
    if log == [] then []
    else Infos(log[..|log| - 1]) + if log[|log| - 1].Info? then [log[|log| - 1].status] else []
  }

  function Heads(log: seq<Sent>): seq<Sent> {
    if log == [] then []
    else Heads(log[..|log| - 1]) + if log[|log| - 1].Head? then [log[|log| - 1]] else []
  }

  // No body byte and no flush goes out before the final header.
  predicate HeadFirst(log: seq<Sent>) {
    log != [] ==>
      && HeadFirst(log[..|log| - 1])
      && (log[|log| - 1].Body? || log[|log| - 1].Flushed? ==> Heads(log[..|log| - 1]) != [])
  }

  lemma Snoc(log: seq<Sent>, s: Sent)
    ensures Bytes(log + [s]) == Bytes(log) + if s.Body? then s.bytes else ""
    ensures Infos(log + [s]) == Infos(log) + if s.Info? then [s.status] else []
    ensures Heads(log + [s]) == Heads(log) + if s.Head? then [s] else []
    ensures HeadFirst(log + [s]) <==> HeadFirst(log) && (s.Body? || s.Flushed? ==> Heads(log) != [])
  {
    assert (log + [s])[..|log|] == log;
  }

  // How the decision came out: passed through, or one tag inserted at `point` under `plan` once the first
  // `seen` bytes were in hand.
  datatype Decision = Undecided | Passed | Inserted(point: nat, plan: Plan, seen: nat)

  // The injector adds one tag and changes nothing else in what the handler wrote: where the head opens in
  // the whole document, in a response fit for it, under a plan for the policies the whole head declares.
  ghost predicate Inserts(d: Decision, h: Headers, nonce: string, digest: string, input: string)
    requires d.Inserted?
  {
    && d.point <= |input| && d.seen <= |input|
    && SkipReason(STATUS_OK, h) == ""
    && Html.IsInsertionPoint(input, d.point)
    && 0 <= Html.HeadEnd(input) <= HEAD_BUDGET
    && Html.HeadEnd(input) <= d.seen
    && IsPlan(d.plan, h.enforce, h.report, Html.MetaFrom(input[..d.seen], 0), nonce, digest)
    && d.plan.mode != Skip
  }

  // The two streams a client can get for what the handler wrote.
  function BodyFor(d: Decision, input: string): string
    requires d.Inserted? ==> d.point <= |input|
  {
    match d
    case Undecided => ""
    case Passed => input
    case Inserted(point, plan, _) => input[..point] + Tag(plan.mode, plan.nonce) + input[point..]
  }

  function HeadFor(d: Decision, status: int, h: Headers): seq<Sent> {
    match d
    case Undecided => []
    case Passed => [Head(status, h)]
    case Inserted(_, plan, _) => [Head(STATUS_OK, Injected(h, plan))]
  }

  // More input after the decision keeps the decision right for all of it.
  lemma DecisionHolds(d: Decision, h: Headers, nonce: string, digest: string, input: string, b: string)
    requires d.Inserted? && Inserts(d, h, nonce, digest, input)
    ensures Inserts(d, h, nonce, digest, input + b)
    ensures BodyFor(d, input + b) == BodyFor(d, input) + b
  {
    hide SkipReason, IsPlan, Tag, Html.IsInsertionPoint, Html.HeadEnd, Html.MetaFrom;
    Html.InsertionPointIsStable(input, b, d.point);
    Html.HeadEndIsStable(input, b);
    assert (input + b)[..d.seen] == input[..d.seen];
    assert (input + b)[..d.point] == input[..d.point];
    assert (input + b)[d.point..] == input[d.point..] + b;
  }

  lemma DecidedOn(point: nat, plan: Plan, h: Headers, nonce: string, digest: string, input: string)
    requires point <= |input| && Html.IsInsertionPoint(input, point) && 0 <= Html.HeadEnd(input) <= HEAD_BUDGET
    requires SkipReason(STATUS_OK, h) == "" && plan.mode != Skip
    requires IsPlan(plan, h.enforce, h.report, Html.MetaFrom(input, 0), nonce, digest)
    ensures Inserts(Inserted(point, plan, |input|), h, nonce, digest, input)
  {
    assert input[..|input|] == input;
  }

  lemma NothingToInsertInto(input: string, p: int)
    requires Html.IsInsertionPoint(input, p) && p >= 0
    ensures input != "" && !Html.IsInsertionPoint(input, -1)
  {
    if Html.IsInsertionPoint(input, -1) {
      Html.InsertionPointIsUnique(input, p, -1);
    }
  }

  // The bytes at hand settle the matter: they are no document, or the head ends in them, or they fill the budget.
  predicate Decisive(seen: string) {
    !Html.LooksLikeDocument(seen) || Html.HeadEnd(seen) >= 0 || |seen| >= HEAD_BUDGET
  }

  // A head opens and ends in them, within the budget, and the policies leave a way.
  ghost predicate HasRoom(h: Headers, seen: string) {
    && !Html.IsInsertionPoint(seen, -1) && 0 <= Html.HeadEnd(seen) <= HEAD_BUDGET
    && ModeFor(h.enforce, Html.MetaFrom(seen, 0)) != Skip
  }

  lemma NothingSeen()
    ensures !Decisive("")
    ensures forall h :: !HasRoom(h, "")
  {
    assert ToLower("") == "";
    assert Html.AgreesSoFar("", Html.DOCUMENT_STARTS[0]);
  }

  class Injector {
    const headers: Headers     // as the upstream left them
    const nonce: string
    const digest: string
    var log: seq<Sent>         // the real writer
    var notes: seq<string>
    var status: int
    var buf: string
    var checked: bool
    var resolved: bool
    var skipping: bool
    var sent: bool
    ghost var input: string    // every byte handed to Write so far
    ghost var decision: Decision

    // While undecided every byte is held and nothing but informational headers has gone out.
    ghost predicate Holding()
      reads this
    {
      && !resolved && !skipping && !sent && decision == Undecided
      && HeadFirst(log) && Heads(log) == [] && Bytes(log) == ""
      && buf == input && status == STATUS_OK
      && (if checked then SkipReason(STATUS_OK, headers) == "" else input == "")
    }

    // Once decided nothing is held, and a response left alone has been reported once.
    ghost predicate Done()
      reads this
    {
      && resolved && sent && skipping == decision.Passed? && decision != Undecided && buf == ""
      && HeadFirst(log)
      && (decision.Inserted? ==> status == STATUS_OK && Inserts(decision, headers, nonce, digest, input))
      && Heads(log) == HeadFor(decision, status, headers)
      && Bytes(log) == BodyFor(decision, input)
      && |notes| == if skipping then 1 else 0
    }

    // What holds between calls: an undecided injector holds fewer bytes than the budget.
    ghost predicate Valid()
      reads this
    {
      if resolved then Done() else Holding() && notes == [] && |buf| < HEAD_BUDGET
    }

    constructor (headers: Headers, nonce: string, digest: string)
      ensures Valid() && input == "" && decision == Undecided && log == [] && !checked
      ensures this.headers == headers && this.nonce == nonce && this.digest == digest
    {
      this.headers, this.nonce, this.digest := headers, nonce, digest;
      log, notes, status, buf := [], [], STATUS_OK, "";
      checked, resolved, skipping, sent := false, false, false, false;
      input, decision := "", Undecided;
    }

    // The real writer takes one more event.
    method Emit(s: Sent)
      modifies this`log
      ensures log == old(log) + [s]
      ensures Bytes(log) == old(Bytes(log)) + if s.Body? then s.bytes else ""
      ensures Infos(log) == old(Infos(log)) + if s.Info? then [s.status] else []
      ensures Heads(log) == old(Heads(log)) + if s.Head? then [s] else []
      ensures HeadFirst(log) <==> old(HeadFirst(log)) && (s.Body? || s.Flushed? ==> old(Heads(log)) != [])
    {
      Snoc(log, s);
      log := log + [s];
    }

    method EmitThree(a: string, b: string, c: string)
      requires Heads(log) != [] && Bytes(log) == ""
      modifies this`log
      ensures Bytes(log) == a + b + c
      ensures Infos(log) == old(Infos(log)) && Heads(log) == old(Heads(log)) && HeadFirst(log) == old(HeadFirst(log))
    {
      hide Bytes, Infos, Heads, HeadFirst;
      Emit(Body(a));
      assert Bytes(log) == a;
      Emit(Body(b));
      Emit(Body(c));
    }

    method WriteHeader(code: int)
      requires Valid()
      modifies this
      ensures Valid() && input == old(input)
      ensures Infos(log) == old(Infos(log)) + if 100 <= code < 200 && code != 101 then [code] else []
      ensures if (100 <= code < 200 && code != 101) || old(sent) || old(checked)
              then decision == old(decision) && resolved == old(resolved) && status == old(status) && checked == old(checked)
              else checked && status == code && decision == if MayBeTouched(code, headers) then Undecided else Passed
    {
      hide Inserts, SkipReason, MayBeTouched, Injected, Tag, Bytes, Infos, Heads, HeadFirst;
      if Informational(code) {
        Emit(Info(code));
        return;
      }
      if sent || checked {
        return;
      }
      checked := true;
      status := code;
      var why := SkipReason(code, headers);
      OnlyOkIsTouched(code, headers);
      if why != "" {
        notes := notes + [why];
        resolved, skipping := true, true;
        sent := true;
        Emit(Head(code, headers));
        decision := Passed;
      }
    }

    method Write(b: string) returns (n: nat)
      requires Valid()
      modifies this
      ensures Valid() && input == old(input) + b && n == |b| && Infos(log) == old(Infos(log))
      ensures old(resolved) ==> decision == old(decision) && status == old(status) && checked == old(checked)
      ensures !old(resolved) ==> checked && status == STATUS_OK
      // A response that must not be touched is passed on; any other is decided with the first decisive byte.
      ensures !old(resolved) && !MayBeTouched(STATUS_OK, headers) ==> decision == Passed
      ensures !old(resolved) && MayBeTouched(STATUS_OK, headers) ==>
                && resolved == Decisive(input)
                && (decision.Inserted? <==> resolved && Html.LooksLikeDocument(input) && HasRoom(headers, input))
    {
      hide Inserts, SkipReason, Injected, Tag, Bytes, Infos, Heads, HeadFirst, Html.LooksLikeDocument, Html.HeadEnd;
      hide HasRoom, MayBeTouched;
      if !checked {
        WriteHeader(STATUS_OK);
      }
      if resolved {
        if decision.Inserted? {
          DecisionHolds(decision, headers, nonce, digest, input, b);
        }
        Emit(Body(b));
        input := input + b;
        return |b|;
      }
      buf := buf + b;
      input := input + b;
      if !Html.LooksLikeDocument(buf) {
        notes := notes + ["body-is-not-a-document"];
        GiveUp();
        return |b|;
      }
      if Html.HeadEnd(buf) >= 0 || |buf| >= HEAD_BUDGET {
        Decide();
      }
      return |b|;
    }

    method Flush()
      requires Valid()
      modifies this`log
      ensures Valid() && Infos(log) == old(Infos(log))
      ensures log == if resolved then old(log) + [Flushed] else old(log)
    {
      hide Inserts, SkipReason, Injected, Tag, Bytes, Infos, Heads, HeadFirst;
      if !resolved {
        return;
      }
      Emit(Flushed);
    }

    // Runs on every request that got an injector. The decision always sends the header, so the second
    // look at `sent` finds nothing to do.
    method Finish()
      requires Valid()
      modifies this
      ensures Done() && input == old(input) && Infos(log) == old(Infos(log)) && status == old(status)
      ensures old(resolved) ==> log == old(log) && decision == old(decision)
      ensures !old(resolved) ==> (decision.Inserted? <==> HasRoom(headers, input))
    {
      hide Inserts, SkipReason, Injected, Tag, Bytes, Infos, Heads, HeadFirst;
      if !resolved {
        Decide();
      }
      if !sent {
        assert false;
      }
    }

    method GiveUp()
      requires Holding() && |notes| == 1
      modifies this
      ensures Done() && decision == Passed && notes == old(notes)
      ensures input == old(input) && Infos(log) == old(Infos(log)) && status == old(status) && checked == old(checked)
    {
      hide Inserts, SkipReason, Injected, Tag, Bytes, Infos, Heads, HeadFirst;
      resolved, skipping := true, true;
      sent := true;
      Emit(Head(status, headers));
      if |buf| > 0 {
        Emit(Body(buf));
        buf := "";
      }
      decision := Passed;
    }

    // Injects exactly when what is held has a head opening and a head end within the budget, and the
    // policies of the headers and of what is held leave a way to.
    method Decide()
      requires Holding() && notes == []
      modifies this
      ensures Done() && input == old(input) && Infos(log) == old(Infos(log)) && status == old(status) && checked == old(checked)
      ensures decision.Inserted? <==> HasRoom(headers, input)
    {
      hide Inserts, SkipReason, Injected, Tag, Bytes, Infos, Heads, HeadFirst;
      hide Html.IsInsertionPoint, Html.HeadEnd, Html.MetaFrom, IsPlan, ModeFor;
      var point := Html.InsertionPoint(buf);
      var end := Html.HeadEnd(buf);
      if point >= 0 {
        NothingToInsertInto(buf, point);
      }
      if point < 0 || end < 0 || end > HEAD_BUDGET {
        notes := notes + [if end > HEAD_BUDGET then "head-exceeds-64KiB-budget"
                          else if point < 0 then "no-opening-head-tag"
                          else "document-ended-inside-head"];
        GiveUp();
        return;
      }
      var meta := Html.MetaPolicies(buf);
      var plan := PlanCSP(headers.enforce, headers.report, meta, nonce, digest);
      if plan.mode == Skip {
        notes := notes + ["content-security-policy-forbids-our-script"];
        GiveUp();
        return;
      }
      Inject(point, plan);
    }

    // The second half of the decision: edit the headers and let everything held go, with the tag in place.
    method Inject(point: nat, plan: Plan)
      requires Holding() && notes == [] && checked
      requires point <= |input| && Html.IsInsertionPoint(input, point) && 0 <= Html.HeadEnd(input) <= HEAD_BUDGET
      requires plan.mode != Skip && IsPlan(plan, headers.enforce, headers.report, Html.MetaFrom(input, 0), nonce, digest)
      modifies this
      ensures Done() && decision == Inserted(point, plan, |input|)
      ensures input == old(input) && Infos(log) == old(Infos(log)) && status == old(status) && checked
    {
      hide Inserts, SkipReason, MayBeTouched, Injected, Tag, Bytes, Infos, Heads, HeadFirst;
      hide Html.IsInsertionPoint, Html.HeadEnd, Html.MetaFrom, IsPlan, AllPolicies, ModeFor;
      var edited := EditHeaders(headers, plan);
      var tag := Tag(plan.mode, plan.nonce);
      DecidedOn(point, plan, headers, nonce, digest, input);
      resolved := true;
      sent := true;
      Emit(Head(status, edited));
      EmitThree(buf[..point], tag, buf[point..]);
      decision := Inserted(point, plan, |input|);
      buf := "";
    }
  }

  // ---------------------------------------------------------------------------
  // A whole response
  // ---------------------------------------------------------------------------

  // What a handler does with the writer it was given.
  datatype Op = SetStatus(code: int) | WriteBytes(bytes: string) | DoFlush

  function Written(ops: seq<Op>, n: nat): string
    requires n <= |ops|
  {
    if n == 0 then "" else Written(ops, n - 1) + if ops[n - 1].WriteBytes? then ops[n - 1].bytes else ""
  }

  function Announced(ops: seq<Op>, n: nat): seq<int>
    requires n <= |ops|
  {
    if n == 0 then []
    else Announced(ops, n - 1) + if ops[n - 1].SetStatus? && 100 <= ops[n - 1].code < 200 && ops[n - 1].code != 101 then [ops[n - 1].code] else []
  }

  // The first final status set, where a body byte counts as setting 200.
  function FinalStatus(ops: seq<Op>, n: nat): Option<int>
    requires n <= |ops|
  {
    if n == 0 then None
    else if FinalStatus(ops, n - 1).Some? then FinalStatus(ops, n - 1)
    else match ops[n - 1]
      case SetStatus(code) => if 100 <= code < 200 && code != 101 then None else Some(code)
      case WriteBytes(_) => Some(STATUS_OK)
      case DoFlush => None
  }

  function StatusOf(ops: seq<Op>): int {
    var s := FinalStatus(ops, |ops|);
    if s.Some? then s.value else STATUS_OK
  }

  // The bytes a decision is made on: those in hand at the first write that makes them decisive, or all of them.
  function DecidedBy(ops: seq<Op>, n: nat): Option<string>
    requires n <= |ops|
  {
    if n == 0 then None
    else if DecidedBy(ops, n - 1).Some? then DecidedBy(ops, n - 1)
    else if ops[n - 1].WriteBytes? && Decisive(Written(ops, n)) then Some(Written(ops, n))
    else None
  }

  function SeenOf(ops: seq<Op>): string {
    var seen := DecidedBy(ops, |ops|);
    if seen.Some? then seen.value else Written(ops, |ops|)
  }

  // For every response and however the body is cut into writes: one final header, the one the handler set,
  // before any body byte; the body is what was written, or that with one tag where the head opens; and a
  // response left alone is reported once.
  method Serve(headers: Headers, nonce: string, digest: string, ops: seq<Op>)
      returns (log: seq<Sent>, notes: seq<string>, ghost decision: Decision)
    ensures decision != Undecided
    ensures decision.Inserted? ==> StatusOf(ops) == STATUS_OK
    ensures decision.Inserted? ==> Inserts(decision, headers, nonce, digest, Written(ops, |ops|))
    ensures HeadFirst(log) && Heads(log) == HeadFor(decision, StatusOf(ops), headers)
    ensures Bytes(log) == BodyFor(decision, Written(ops, |ops|))
    ensures Infos(log) == Announced(ops, |ops|)
    ensures |notes| == if decision.Passed? then 1 else 0
    ensures Heads(log) == [Head(StatusOf(ops), if decision.Inserted? then Injected(headers, decision.plan) else headers)]
    ensures decision.Passed? ==> Bytes(log) == Written(ops, |ops|)
    ensures decision.Inserted? <==>
              MayBeTouched(StatusOf(ops), headers) && Html.LooksLikeDocument(SeenOf(ops)) && HasRoom(headers, SeenOf(ops))
  {
    hide Inserts, SkipReason, Injected, Tag, Bytes, Heads, HeadFirst, HasRoom, Html.LooksLikeDocument, Html.HeadEnd, MayBeTouched;
    hide HeadFor, BodyFor, Informational;
    NothingSeen();
    var i := new Injector(headers, nonce, digest);
    var k := 0;
    while k < |ops|
      invariant 0 <= k <= |ops|
      invariant i.Valid() && i.headers == headers && i.nonce == nonce && i.digest == digest
      invariant i.input == Written(ops, k) && Infos(i.log) == Announced(ops, k)
      invariant i.checked == FinalStatus(ops, k).Some?
      invariant if i.checked then i.status == FinalStatus(ops, k).value else !i.resolved && i.status == STATUS_OK
      invariant i.checked && !MayBeTouched(i.status, headers) ==> i.decision == Passed
      invariant i.resolved && MayBeTouched(i.status, headers) ==>
                  && DecidedBy(ops, k).Some?
                  && (i.decision.Inserted? <==> Html.LooksLikeDocument(DecidedBy(ops, k).value) && HasRoom(headers, DecidedBy(ops, k).value))
      invariant !i.resolved ==> DecidedBy(ops, k).None? && !Decisive(i.input)
    {
      match ops[k] {
        case SetStatus(code) => i.WriteHeader(code);
        case WriteBytes(b) => var _ := i.Write(b);
        case DoFlush => i.Flush();
      }
      k := k + 1;
    }
    i.Finish();
    log, notes, decision := i.log, i.notes, i.decision;
    Delivered(decision, StatusOf(ops), headers);
  }

  lemma Delivered(d: Decision, status: int, h: Headers)
    requires d != Undecided && (d.Inserted? ==> status == STATUS_OK)
    ensures HeadFor(d, status, h) == [Head(status, if d.Inserted? then Injected(h, d.plan) else h)]
    ensures d.Passed? ==> forall input :: BodyFor(d, input) == input
  {
  }

  // The body sent holds one script element more than the body written.
  lemma SentScriptReads(d: Decision, h: Headers, nonce: string, digest: string, input: string)
    requires d.Inserted? && Inserts(d, h, nonce, digest, input) && IsBase64(nonce)
    ensures exists text, script :: Splices(BodyFor(d, input), input, d.point, text) && ReadsAs(text, script)
  {
    hide Html.IsInsertionPoint, Html.HeadEnd, Html.MetaFrom, SkipReason, ModeFor, AllPolicies;
    hide IsBase64, Tag, ReadsAs, LOADER_BODY, PATH_RENEW;
    var mode, text := d.plan.mode, Tag(d.plan.mode, d.plan.nonce);
    if mode != InlineNonce {
      TagNeedsNoNonce(mode, nonce, d.plan.nonce);
    }
    TagReadsAs(mode, nonce);
    assert Splices(BodyFor(d, input), input, d.point, text);
  }

  // `text` was put into `input` at `point`, and that made `output`.
  predicate Splices(output: string, input: string, point: nat, text: string)
    requires point <= |input|
  {
    output == input[..point] + text + input[point..]
  }

  lemma OneSplice(output: string, input: string, point: nat, a: string, b: string)
    requires point <= |input| && Splices(output, input, point, a) && Splices(output, input, point, b)
    ensures a == b
  {
    assert a == output[point..point + |a|] && b == output[point..point + |b|];
  }

  lemma TagNeedsNoNonce(mode: Mode, a: string, b: string)
    requires mode != InlineNonce
    ensures Tag(mode, a) == Tag(mode, b)
  {
  }

  // The script that goes out, as it reads on the page, runs, or renews, under every policy the page is then held to,
  // the enforcing headers as sent and every meta policy the gate found up to the end of the head, exactly when no
  // policy the handler or the head declared is one of those the plan misreads.
  lemma SentScriptIff(d: Decision, h: Headers, nonce: string, input: string, sent: Sent, text: string, script: Script,
                      covers: (string, string) -> bool, digestOf: string -> string, aim: Aim)
    requires d.Inserted? && Inserts(d, h, nonce, digestOf(LOADER_BODY), input)
    requires HeadFor(d, STATUS_OK, h) == [sent]
    requires Splices(BodyFor(d, input), input, d.point, text) && ReadsAs(text, script)
    requires IsBase64(nonce) && IsBase64(digestOf(LOADER_BODY)) && covers(PATH_RENEW, "'self'")
    ensures Html.HeadEnd(input) <= d.seen
    ensures var meta, el := Html.MetaFrom(input[..d.seen], 0), ElementOf(script, covers, digestOf);
            AllowedEverywhere(sent.headers.enforce, meta, el, aim) <==> PassesEverywhere(d.plan.mode, h.enforce, meta, el, aim)
  {
    hide SkipReason, ModeFor, AllPolicies, AllowedEverywhere, PassesEverywhere, IsBase64;
    hide Html.IsInsertionPoint, Html.HeadEnd, Html.MetaFrom, ReadsAs, Tag, Emitted, ElementOf, LOADER_BODY, PATH_RENEW;
    var plan := d.plan;
    OneSplice(BodyFor(d, input), input, d.point, text, Tag(plan.mode, plan.nonce));
    if plan.mode != InlineNonce {
      TagNeedsNoNonce(plan.mode, nonce, plan.nonce);
    }
    TagIsTheElement(plan.mode, nonce, script, covers, digestOf);
    PlannedElementIff(h.enforce, h.report, Html.MetaFrom(input[..d.seen], 0), nonce, digestOf(LOADER_BODY), plan,
                      Covering(covers, PATH_RENEW), aim);
  }
}
