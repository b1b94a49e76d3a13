/** Which script element can be injected past a response's policies, and at the cost of which edits.
    (internal/gate/inject.go) */
module CspPlan {
  import opened Wrappers
  import opened Text
  import opened Csp

  datatype Mode = Skip | External | Inline | InlineHash | InlineNonce

  // None for enforce or report means "change nothing".
  datatype Plan = Plan(mode: Mode, enforce: Option<seq<string>>, report: Option<seq<string>>, nonce: string)

  const PATH_RENEW := "/.anteroom/renew.js"
  const EXTERNAL_TAG := "<script src=\"" + PATH_RENEW + "\" defer></script>"
  const LOADER_BODY := "(function(){" + "var s=document" + ".createElement(" + "\"script\");" + "s.src=\"" + PATH_RENEW
                       + "\";s.defer=true;" + "document.head" + ".appendChild(s);" + "})();"

  function Tag(mode: Mode, nonce: string): string {
    match mode
    case Skip => ""
    case External => EXTERNAL_TAG
    case Inline => "<script>" + LOADER_BODY + "</script>"
    case InlineHash => "<script>" + LOADER_BODY + "</script>"
    case InlineNonce => "<script nonce=\"" + nonce + "\">" + LOADER_BODY + "</script>"
  }

  function NonceSource(nonce: string): string {
    "'nonce-" + nonce + "'"
  }

  // base64.RawStdEncoding's alphabet: what newNonce and a hash are spelled in.
  predicate IsBase64(s: string) {
    forall i :: 0 <= i < |s| ==>
      'a' <= s[i] <= 'z' || 'A' <= s[i] <= 'Z' || '0' <= s[i] <= '9' || s[i] == '+' || s[i] == '/' || s[i] == '='
  }

  function HashSource(digest: string): string {
    "'sha256-" + digest + "'"
  }

  lemma SourcesAreTokens(b64: string)
    requires IsBase64(b64)
    ensures IsToken(NonceSource(b64)) && IsToken(HashSource(b64))
  {
    TokenAround("'nonce-", b64);
    TokenAround("'sha256-", b64);
  }

  lemma TokenAround(pre: string, b64: string)
    requires IsToken(pre) && IsBase64(b64)
    ensures IsToken(pre + b64 + "'")
  {
    var t := pre + b64 + "'";
    forall i | 0 <= i < |t| ensures !IsSpace(t[i]) && t[i] != ',' && t[i] != ';' {
      if i < |pre| {
        assert t[i] == pre[i] && t[i] in pre;
      } else if i < |pre| + |b64| {
        assert t[i] == b64[i - |pre|];
      }
    }
  }

  // ---------------------------------------------------------------------------
  // The policies of a list of header values
  // ---------------------------------------------------------------------------

  function AllPolicies(headers: seq<string>): seq<string> {
    if headers == [] then [] else Split(headers[0], ',') + AllPolicies(headers[1..])
  }

  function EffectiveAll(ps: seq<string>): (ds: seq<SourceList>)
    ensures |ds| == |ps| && forall i :: 0 <= i < |ps| ==> ds[i] == EffectiveOf(ps[i])
  {
    seq(|ps|, i requires 0 <= i < |ps| => EffectiveOf(ps[i]))
  }

  predicate Inert(d: SourceList) {
    !d.restricting && !d.sandboxBlocks
  }

  // The two lists say the same: they differ at most in entries that say nothing.
  predicate SaysTheSame(ds: seq<SourceList>, es: seq<SourceList>) {
    && (forall d :: d in ds ==> d in es || Inert(d))
    && (forall e :: e in es ==> e in ds || Inert(e))
  }

  lemma SameConcat(ds: seq<SourceList>, es: seq<SourceList>, ds': seq<SourceList>, es': seq<SourceList>)
    requires SaysTheSame(ds, es) && SaysTheSame(ds', es')
    ensures SaysTheSame(ds + ds', es + es')
  {
  }

  lemma SameExtend(ds: seq<SourceList>, es: seq<SourceList>, j: nat, more: seq<SourceList>)
    requires j < |es| && SaysTheSame(ds, es[..j]) && SaysTheSame(more, [es[j]])
    ensures SaysTheSame(ds + more, es[..j + 1])
  {
    SameConcat(ds, es[..j], more, [es[j]]);
    assert es[..j + 1] == es[..j] + [es[j]];
  }

  method Policies(header: string) returns (ds: seq<SourceList>)
    ensures SaysTheSame(ds, EffectiveAll(Split(header, ',')))
  {
    var parts := Split(header, ',');
    ghost var goal := EffectiveAll(parts);
    ds := [];
    var j := 0;
    while j < |parts|
      invariant 0 <= j <= |parts| == |goal| && SaysTheSame(ds, goal[..j])
    {
      var more := Reduce(parts[j]);
      SameExtend(ds, goal, j, more);
      ds := ds + more;
      j := j + 1;
    }
    assert goal[..|parts|] == goal;
  }

  // A blank piece is skipped.
  method Reduce(policy: string) returns (ds: seq<SourceList>)
    ensures SaysTheSame(ds, [EffectiveOf(policy)])
  {
    if TrimSpace(policy) == "" {
      BlankIsUnrestricting(policy);
      return [];
    }
    var d := Effective(policy);
    return [d];
  }

  method AllDirectives(headers: seq<string>) returns (ds: seq<SourceList>)
    ensures SaysTheSame(ds, EffectiveAll(AllPolicies(headers)))
  {
    ds := [];
    var i := 0;
    while i < |headers|
      invariant 0 <= i <= |headers|
      invariant SaysTheSame(ds + EffectiveAll(AllPolicies(headers[i..])), EffectiveAll(AllPolicies(headers)))
    {
      var more := Policies(headers[i]);
      EffectiveAllSplits(headers[i..]);
      assert headers[i..][1..] == headers[i + 1..];
      ds := ds + more;
      i := i + 1;
    }
  }

  lemma EffectiveAllSplits(headers: seq<string>)
    requires headers != []
    ensures EffectiveAll(AllPolicies(headers))
            == EffectiveAll(Split(headers[0], ',')) + EffectiveAll(AllPolicies(headers[1..]))
  {
    hide EffectiveOf, Split;
  }

  // ---------------------------------------------------------------------------
  // The plan
  // ---------------------------------------------------------------------------

  predicate Forbids(d: SourceList) {
    d.sandboxBlocks || (d.restricting && d.Lists("'none'"))
  }

  predicate SelfFine(d: SourceList) {
    d.restricting ==> d.Lists("'self'")
  }

  predicate Dynamic(d: SourceList) {
    d.restricting && d.Lists("'strict-dynamic'")
  }

  predicate InlineFine(d: SourceList) {
    d.restricting ==> d.Lists("'unsafe-inline'") && !d.HasNonceOrHash()
  }

  // The ladder, over the directives of the enforcing and of the meta policies.
  function Ladder(ds: seq<SourceList>, ms: seq<SourceList>): Mode {
    if exists d :: d in ds + ms && Forbids(d) then Skip
    else if forall d :: d in ds + ms ==> SelfFine(d) then External
    else if exists d :: d in ms && d.restricting then Skip
    else if exists d :: d in ds && Dynamic(d) then InlineNonce
    else if forall d :: d in ds ==> InlineFine(d) then Inline
    else InlineHash
  }

  lemma LadderIgnoresInert(ds: seq<SourceList>, ms: seq<SourceList>, ds': seq<SourceList>, ms': seq<SourceList>)
    requires SaysTheSame(ds, ds') && SaysTheSame(ms, ms')
    ensures Ladder(ds, ms) == Ladder(ds', ms')
  {
    SameConcat(ds, ds', ms, ms');
  }

  function ModeFor(enforce: seq<string>, meta: seq<string>): Mode {
    Ladder(EffectiveAll(AllPolicies(enforce)), EffectiveAll(AllPolicies(meta)))
  }

  function Source(mode: Mode, nonce: string, digest: string): string {
    if mode == InlineNonce then NonceSource(nonce) else HashSource(digest)
  }

  predicate EditsHeaders(mode: Mode) {
    mode == InlineNonce || mode == InlineHash
  }

  // The enforcing headers a plan leaves on the response.
  function HeadersAfter(plan: Plan, enforce: seq<string>): seq<string> {
    if plan.enforce.Some? then plan.enforce.value else enforce
  }

  // The rung of the ladder these policies call for, and the edits that go with it: one more source in every
  // restricting policy, enforcing or report-only, or no edit at all.
  predicate IsPlan(plan: Plan, enforce: seq<string>, report: seq<string>, meta: seq<string>, nonce: string, digest: string) {
    && plan.mode == ModeFor(enforce, meta)
    && plan.enforce == (if EditsHeaders(plan.mode) then RewrittenAll(enforce, Source(plan.mode, nonce, digest)) else None)
    && plan.report == (if EditsHeaders(plan.mode) then RewrittenAll(report, Source(plan.mode, nonce, digest)) else None)
    && plan.nonce == (if plan.mode == InlineNonce then nonce else "")
  }

  // `digest` is the base64 SHA-256 of LOADER_BODY, `nonce` a fresh draw.
  method PlanCSP(enforce: seq<string>, report: seq<string>, meta: seq<string>, nonce: string, digest: string)
      returns (plan: Plan)
    ensures IsPlan(plan, enforce, report, meta, nonce, digest) && plan.mode == ModeFor(enforce, meta)
  {
    var metaDirs := AllDirectives(meta);
    var dirs := AllDirectives(enforce);
    LadderIgnoresInert(dirs, metaDirs, EffectiveAll(AllPolicies(enforce)), EffectiveAll(AllPolicies(meta)));
    var mode := Ladder(dirs, metaDirs);
    if !EditsHeaders(mode) {
      return Plan(mode, None, None, "");
    }
    var src := Source(mode, nonce, digest);
    var e := Rewrite(enforce, src);
    var r := Rewrite(report, src);
    return Plan(mode, e, r, if mode == InlineNonce then nonce else "");
  }

  // ---------------------------------------------------------------------------
  // What a browser makes of it
  // ---------------------------------------------------------------------------

  // The element a plan puts on the page: a script from the page's own origin, or the inline loader with its
  // digest and perhaps a nonce. `own` says which source expressions a browser matches against the page's own
  // origin, lower-cased: 'self' always, and whatever wildcard, scheme or host source covers it.
  datatype Element = ExternalScript(own: string -> bool) | InlineScript(digest: string, nonce: Option<string>)

  predicate MatchesSelf(own: string -> bool) {
    own("'self'")
  }

  function Emitted(mode: Mode, nonce: string, digest: string, own: string -> bool): Element
    requires mode != Skip
  {
    if mode == External then ExternalScript(own)
    else InlineScript(digest, if mode == InlineNonce then Some(nonce) else None)
  }

  // In a browser the first of a repeated directive counts (CSP Level 3, section 2.2.1).
  function BrowserSources(policy: string): Option<seq<string>> {
    var segs := Split(policy, ';');
    var name := GoverningName(segs);
    if name == "" then None else Some(SegVals(segs[FirstNamed(segs, name, 0)]))
  }

  // The flags of a policy's sandbox, if it has one.
  function BrowserSandbox(policy: string): Option<seq<string>> {
    var segs := Split(policy, ';');
    var k := FirstNamed(segs, "sandbox", 0);
    if k == |segs| then None else Some(LowerAll(SegVals(segs[k])))
  }

  // How a policy reaches the browser, and what is asked of a script: to run, or also to renew the pass, which
  // takes the page's own origin.
  datatype Delivery = Header | Meta
  datatype Aim = Run | Renew

  // A sandbox counts only in a header (CSP Level 3, section 3.3).
  predicate Stopped(policy: string, from: Delivery, aim: Aim) {
    var sandbox := BrowserSandbox(policy);
    && from == Header && sandbox.Some?
    && ("allow-scripts" !in sandbox.value || (aim == Renew && "allow-same-origin" !in sandbox.value))
  }

  // CSP Level 3, sections 6.7.2 and 6.7.3, for these two elements. 'strict-dynamic' makes every source that
  // matches by origin void for a script the parser inserts; a nonce or hash source, or 'strict-dynamic', makes
  // 'unsafe-inline' void. Keywords are matched without case, nonces and digests with.
  predicate SourcesAllow(tokens: seq<string>, el: Element) {
    var lower := LowerAll(tokens);
    match el
    case ExternalScript(own) => (exists i :: 0 <= i < |lower| && own(lower[i])) && "'strict-dynamic'" !in lower
    case InlineScript(digest, nonce) =>
      || (nonce.Some? && NonceSource(nonce.value) in tokens)
      || HashSource(digest) in tokens
      || ("'unsafe-inline'" in lower && "'strict-dynamic'" !in lower
          && forall i :: 0 <= i < |lower| ==> !IsNonceOrHash(lower[i]))
  }

  predicate Allows(policy: string, from: Delivery, el: Element, aim: Aim) {
    && !Stopped(policy, from, aim)
    && (BrowserSources(policy).Some? ==> SourcesAllow(BrowserSources(policy).value, el))
  }

  // No script directive and no sandbox directive is repeated.
  predicate NoRepeats(policy: string) {
    var segs := Split(policy, ';');
    && OccursOnce(segs, "script-src-elem") && OccursOnce(segs, "script-src")
    && OccursOnce(segs, "default-src") && OccursOnce(segs, "sandbox")
  }

  predicate OccursOnce(segs: seq<string>, name: string) {
    Has(segs, name) ==> FirstNamed(segs, name, 0) == LastNamed(segs, name, |segs|)
  }

  // The gate and a browser agree on whether a policy restricts scripts, and, when its governing directive is not
  // repeated, on what it lists.
  lemma ReadAlike(policy: string)
    ensures EffectiveOf(policy).restricting <==> BrowserSources(policy).Some?
    ensures BrowserSources(policy).Some? && GovernsOnce(policy) ==>
              EffectiveOf(policy).sources == LowerAll(BrowserSources(policy).value)
  {
    var segs := Split(policy, ';');
    FirstAndLast(segs, GoverningName(segs));
  }

  lemma SandboxReadAlike(policy: string)
    requires NoRepeats(policy)
    ensures EffectiveOf(policy).sandboxBlocks <==> Stopped(policy, Header, Renew)
    ensures BrowserSources(policy).Some? ==> GovernsOnce(policy)
  {
    var segs := Split(policy, ';');
    FirstAndLast(segs, "sandbox");
    FirstAndLast(segs, GoverningName(segs));
  }

  lemma RunsIfItRenews(policy: string, from: Delivery, aim: Aim)
    ensures Stopped(policy, from, aim) ==> Stopped(policy, Header, Renew)
  {
    hide BrowserSandbox;
  }

  // The governing directive is repeated, and its first occurrence, which the plan did not read, does not let the
  // element run.
  predicate FirstForbids(policy: string, el: Element) {
    BrowserSources(policy).Some? && !GovernsOnce(policy) && !SourcesAllow(BrowserSources(policy).value, el)
  }

  lemma ExternalAllowedIff(policy: string, from: Delivery, own: string -> bool, aim: Aim)
    requires SelfFine(EffectiveOf(policy)) && MatchesSelf(own)
    ensures Allows(policy, from, ExternalScript(own), aim) <==>
              && !Stopped(policy, from, aim) && !FirstForbids(policy, ExternalScript(own))
              && (GovernsOnce(policy) ==> !Dynamic(EffectiveOf(policy)))
  {
    hide EffectiveOf, BrowserSources, Stopped, GovernsOnce, LowerAll;
    ReadAlike(policy);
    assert BrowserSources(policy).None? ==> !Dynamic(EffectiveOf(policy));
    if BrowserSources(policy).Some? && GovernsOnce(policy) {
      var lower := LowerAll(BrowserSources(policy).value);
      var i :| 0 <= i < |lower| && lower[i] == "'self'";
      assert own(lower[i]);
    }
  }

  lemma InlineAllowedIff(policy: string, from: Delivery, digest: string, aim: Aim)
    requires InlineFine(EffectiveOf(policy)) && !Dynamic(EffectiveOf(policy))
    ensures Allows(policy, from, InlineScript(digest, None), aim) <==>
              !Stopped(policy, from, aim) && !FirstForbids(policy, InlineScript(digest, None))
  {
    hide EffectiveOf, BrowserSources, Stopped, GovernsOnce, LowerAll;
    ReadAlike(policy);
    var eff := EffectiveOf(policy);
    if eff.restricting {
      assert forall i :: 0 <= i < |eff.sources| ==> !IsNonceOrHash(eff.sources[i]);
    }
  }

  // An edited policy lists one more source where a browser reads it, repeated directives or not, and is as
  // sandboxed as it was.
  lemma BrowserReadsTheSource(policy: string, src: string)
    requires IsToken(src)
    ensures BrowserSources(Edited(policy, src))
            == if BrowserSources(policy).Some? then Some(BrowserSources(policy).value + [src]) else None
    ensures BrowserSandbox(Edited(policy, src)) == BrowserSandbox(policy)
  {
    var segs := Split(policy, ';');
    var name := GoverningName(segs);
    if name != "" {
      var k := FirstNamed(segs, name, 0);
      GoverningOccurs(segs, name, k);
      AppendedSegments(policy, name, src);
      var after := ExtendAt(segs, k, src);
      assert Split(Edited(policy, src), ';') == after;
      FirstInExtended(segs, k, src);
    }
  }

  lemma FirstInExtended(segs: seq<string>, k: nat, src: string)
    requires IsToken(src) && GoverningName(segs) != "" && k == FirstNamed(segs, GoverningName(segs), 0) < |segs|
    ensures var name, after := GoverningName(segs), ExtendAt(segs, k, src);
            && GoverningName(after) == name && FirstNamed(after, name, 0) == k
            && SegVals(after[k]) == SegVals(segs[k]) + [src]
            && FirstNamed(after, "sandbox", 0) == FirstNamed(segs, "sandbox", 0)
            && (FirstNamed(segs, "sandbox", 0) < |segs| ==>
                  after[FirstNamed(segs, "sandbox", 0)] == segs[FirstNamed(segs, "sandbox", 0)])
  {
    hide LastNamed, FirstNamed, GoverningName, SegVals, SegName, Fields, Extended;
    GoverningOccurs(segs, GoverningName(segs), k);
    ExtendKeepsGoverning(segs, k, src);
    ExtendKeepsNames(segs, k, src, GoverningName(segs), 0);
    ExtendKeepsNames(segs, k, src, "sandbox", 0);
    ExtendedFields(segs[k], src);
    var s := FirstNamed(segs, "sandbox", 0);
    assert s < |segs| ==> s != k;
  }

  // So the element the edit is for runs, or renews, under the edited policy unless a sandbox stops that.
  lemma EditedAllowedIff(policy: string, src: string, el: Element, aim: Aim)
    requires IsToken(src)
    requires el.InlineScript? && (src == HashSource(el.digest) || (el.nonce.Some? && src == NonceSource(el.nonce.value)))
    ensures Allows(Edited(policy, src), Header, el, aim) <==> !Stopped(policy, Header, aim)
  {
    hide Edited, BrowserSources, BrowserSandbox, LowerAll;
    BrowserReadsTheSource(policy, src);
  }

  lemma EditedAllConcat(a: seq<string>, b: seq<string>, src: string)
    ensures EditedAll(a + b, src) == EditedAll(a, src) + EditedAll(b, src)
  {
  }

  lemma EditedHeadersTail(headers: seq<string>, src: string)
    requires headers != []
    ensures EditedHeaders(headers, src)[0] == EditedHeader(headers[0], src)
    ensures EditedHeaders(headers, src)[1..] == EditedHeaders(headers[1..], src)
  {
  }

  lemma {:induction false} PoliciesAfterRewrite(headers: seq<string>, src: string)
    requires IsToken(src)
    ensures AllPolicies(EditedHeaders(headers, src)) == EditedAll(AllPolicies(headers), src)
  {
    if headers != [] {
      PoliciesAfterRewrite(headers[1..], src);
      RewriteKeepsPolicies(headers[0], src);
      EditedHeadersTail(headers, src);
      EditedAllConcat(Split(headers[0], ','), AllPolicies(headers[1..]), src);
    }
  }

  // Every policy in force on the page: the enforcing headers as the plan leaves them, and the meta tags, as the
  // gate finds them and splits them.
  ghost predicate AllowedEverywhere(headers: seq<string>, meta: seq<string>, el: Element, aim: Aim) {
    && (forall p :: p in AllPolicies(headers) ==> Allows(p, Header, el, aim))
    && (forall p :: p in AllPolicies(meta) ==> Allows(p, Meta, el, aim))
  }

  ghost predicate Unrepetitive(enforce: seq<string>, meta: seq<string>) {
    forall p :: p in AllPolicies(enforce) + AllPolicies(meta) ==> NoRepeats(p)
  }

  lemma LadderClears(ds: seq<SourceList>, ms: seq<SourceList>, d: SourceList)
    requires Ladder(ds, ms) != Skip && (d in ds || d in ms)
    ensures !Forbids(d)
    ensures Ladder(ds, ms) == External ==> SelfFine(d)
    ensures Ladder(ds, ms) != External && d in ms ==> !d.restricting
    ensures Ladder(ds, ms) == Inline && d in ds ==> InlineFine(d) && !Dynamic(d)
  {
    assert d in ds + ms;
  }

  lemma NothingForbids(enforce: seq<string>, meta: seq<string>, p: string)
    requires ModeFor(enforce, meta) != Skip && p in AllPolicies(enforce) + AllPolicies(meta)
    ensures !Forbids(EffectiveOf(p))
    ensures ModeFor(enforce, meta) == External ==> SelfFine(EffectiveOf(p))
    ensures ModeFor(enforce, meta) != External && p in AllPolicies(meta) ==> !EffectiveOf(p).restricting
    ensures ModeFor(enforce, meta) == Inline && p in AllPolicies(enforce) ==>
              InlineFine(EffectiveOf(p)) && !Dynamic(EffectiveOf(p))
  {
    hide EffectiveOf, AllPolicies, Ladder, Forbids, SelfFine, InlineFine, Dynamic;
    EffectiveIn(AllPolicies(enforce), p);
    EffectiveIn(AllPolicies(meta), p);
    LadderClears(EffectiveAll(AllPolicies(enforce)), EffectiveAll(AllPolicies(meta)), EffectiveOf(p));
  }

  lemma EffectiveIn(ps: seq<string>, p: string)
    ensures p in ps ==> EffectiveOf(p) in EffectiveAll(ps)
  {
    if p in ps {
      var i :| 0 <= i < |ps| && ps[i] == p;
      assert EffectiveAll(ps)[i] == EffectiveOf(p);
    }
  }

  // What keeps a planned element from its aim under a policy that was in force before the plan.
  predicate PassesUnder(mode: Mode, policy: string, from: Delivery, el: Element, aim: Aim) {
    && !Stopped(policy, from, aim)
    && (!EditsHeaders(mode) ==> !FirstForbids(policy, el))
    && (mode == External && GovernsOnce(policy) ==> !Dynamic(EffectiveOf(policy)))
  }

  ghost predicate PassesEverywhere(mode: Mode, enforce: seq<string>, meta: seq<string>, el: Element, aim: Aim) {
    && (forall p :: p in AllPolicies(enforce) ==> PassesUnder(mode, p, Header, el, aim))
    && (forall p :: p in AllPolicies(meta) ==> PassesUnder(mode, p, Meta, el, aim))
  }

  // Whatever the policies and the page's origin, the planned element runs, or renews, under all of them, as edited,
  // exactly when no header stops that in its first sandbox directive; none that is left unedited forbids the
  // element in the first of a repeated script directive; and, for an external script, none combines 'self' with
  // 'strict-dynamic'.
  lemma PlannedElementIff(enforce: seq<string>, report: seq<string>, meta: seq<string>, nonce: string, digest: string,
                          plan: Plan, own: string -> bool, aim: Aim)
    requires IsBase64(nonce) && IsBase64(digest) && MatchesSelf(own)
    requires IsPlan(plan, enforce, report, meta, nonce, digest) && plan.mode != Skip
    ensures var el := Emitted(plan.mode, nonce, digest, own);
            AllowedEverywhere(HeadersAfter(plan, enforce), meta, el, aim)
            <==> PassesEverywhere(plan.mode, enforce, meta, el, aim)
  {
    hide Allows, PassesUnder, AllPolicies, ModeFor, RewrittenAll, IsBase64, Emitted;
    var el := Emitted(plan.mode, nonce, digest, own);
    forall p | p in AllPolicies(meta) ensures Allows(p, Meta, el, aim) <==> PassesUnder(plan.mode, p, Meta, el, aim) {
      UneditedIff(enforce, meta, p, Meta, nonce, digest, own, aim);
    }
    if EditsHeaders(plan.mode) {
      EditedHeadersIff(enforce, meta, nonce, digest, plan, own, aim);
    } else {
      forall p | p in AllPolicies(enforce) ensures Allows(p, Header, el, aim) <==> PassesUnder(plan.mode, p, Header, el, aim) {
        UneditedIff(enforce, meta, p, Header, nonce, digest, own, aim);
      }
    }
  }

  // A policy the plan leaves alone.
  lemma UneditedIff(enforce: seq<string>, meta: seq<string>, p: string, from: Delivery, nonce: string, digest: string,
                    own: string -> bool, aim: Aim)
    requires ModeFor(enforce, meta) != Skip && p in AllPolicies(enforce) + AllPolicies(meta) && MatchesSelf(own)
    requires EditsHeaders(ModeFor(enforce, meta)) ==> p in AllPolicies(meta)
    ensures var mode := ModeFor(enforce, meta);
            var el := Emitted(mode, nonce, digest, own);
            Allows(p, from, el, aim) <==> PassesUnder(mode, p, from, el, aim)
  {
    hide AllPolicies, EffectiveOf, BrowserSources, Stopped, GovernsOnce, ModeFor, SourcesAllow, MatchesSelf;
    NothingForbids(enforce, meta, p);
    if ModeFor(enforce, meta) == External {
      ExternalAllowedIff(p, from, own, aim);
    } else if p in AllPolicies(meta) {
      ReadAlike(p);
    } else {
      InlineAllowedIff(p, from, digest, aim);
    }
  }

  lemma EditedHeadersIff(enforce: seq<string>, meta: seq<string>, nonce: string, digest: string, plan: Plan,
                         own: string -> bool, aim: Aim)
    requires IsBase64(nonce) && IsBase64(digest) && EditsHeaders(plan.mode)
    requires plan.enforce == RewrittenAll(enforce, Source(plan.mode, nonce, digest))
    ensures var el := Emitted(plan.mode, nonce, digest, own);
            (forall q :: q in AllPolicies(HeadersAfter(plan, enforce)) ==> Allows(q, Header, el, aim))
            <==> forall p :: p in AllPolicies(enforce) ==> PassesUnder(plan.mode, p, Header, el, aim)
  {
    hide Allows, EffectiveOf, Stopped, GovernsOnce, Edited, FirstForbids, IsToken, IsBase64;
    var el := Emitted(plan.mode, nonce, digest, own);
    var src := Source(plan.mode, nonce, digest);
    SourcesAreTokens(nonce);
    SourcesAreTokens(digest);
    var ps := AllPolicies(enforce);
    forall p ensures Allows(Edited(p, src), Header, el, aim) <==> PassesUnder(plan.mode, p, Header, el, aim) {
      EditedAllowedIff(p, src, el, aim);
    }
    if enforce != [] {
      PoliciesAfterRewrite(enforce, src);
      var edited := EditedAll(ps, src);
      assert AllPolicies(HeadersAfter(plan, enforce)) == edited;
      MembersOfEdited(ps, src);
    }
  }

  lemma MembersOfEdited(ps: seq<string>, src: string)
    ensures forall q :: q in EditedAll(ps, src) ==> exists p :: p in ps && q == Edited(p, src)
    ensures forall p :: p in ps ==> Edited(p, src) in EditedAll(ps, src)
  {
    hide Edited;
    var edited := EditedAll(ps, src);
    forall q | q in edited ensures exists p :: p in ps && q == Edited(p, src) {
      var i :| 0 <= i < |edited| && edited[i] == q;
      assert ps[i] in ps;
    }
    forall p | p in ps ensures Edited(p, src) in edited {
      var i :| 0 <= i < |ps| && ps[i] == p;
      assert edited[i] == Edited(p, src);
    }
  }

  // Where no policy repeats a script or sandbox directive, every planned inline loader runs and renews, and an
  // external script exactly without 'strict-dynamic'.
  lemma UnrepeatedPlanRuns(enforce: seq<string>, report: seq<string>, meta: seq<string>, nonce: string, digest: string,
                           plan: Plan, own: string -> bool, aim: Aim)
    requires Unrepetitive(enforce, meta) && IsBase64(nonce) && IsBase64(digest) && MatchesSelf(own)
    requires IsPlan(plan, enforce, report, meta, nonce, digest) && plan.mode != Skip
    ensures AllowedEverywhere(HeadersAfter(plan, enforce), meta, Emitted(plan.mode, nonce, digest, own), aim)
            <==> (plan.mode == External ==>
                    forall p :: p in AllPolicies(enforce) + AllPolicies(meta) ==> !Dynamic(EffectiveOf(p)))
  {
    PlannedElementIff(enforce, report, meta, nonce, digest, plan, own, aim);
    hide AllPolicies, EffectiveOf, BrowserSources, Stopped, GovernsOnce, ModeFor, SourcesAllow, AllowedEverywhere;
    hide IsBase64, NoRepeats, RewrittenAll, Emitted, MatchesSelf;
    var el := Emitted(plan.mode, nonce, digest, own);
    forall p, from | p in AllPolicies(enforce) + AllPolicies(meta)
      ensures PassesUnder(plan.mode, p, from, el, aim) <==> (plan.mode == External ==> !Dynamic(EffectiveOf(p)))
    {
      NothingForbids(enforce, meta, p);
      SandboxReadAlike(p);
      RunsIfItRenews(p, from, aim);
      ReadAlike(p);
    }
  }

  // The plan reads the last of a repeated directive and a browser enforces the first, which here matches nothing.
  lemma RepeatedDirectiveIsMisread(from: Delivery, own: string -> bool, aim: Aim)
    requires !own("'none'")
    ensures var policy := "script-src 'none';script-src 'self'";
            ModeFor([policy], []) == External && !Allows(policy, from, ExternalScript(own), aim)
  {
    var none, self := "'none'", "'self'";
    var policy := ("script-src " + none) + [';'] + ("script-src " + self);
    assert policy == "script-src 'none';script-src 'self'";
    assert "script-src " + none == "script-src" + [' '] + none && "script-src " + self == "script-src" + [' '] + self;
    KnownToken(none);
    KnownToken(self);
    MisreadParses("script-src", none, self, policy, from, own, aim);
  }

  // A printable character that is no letter in upper case and no separator.
  predicate IsPlain(c: char) {
    '!' <= c <= '~' && !('A' <= c <= 'Z') && c != ',' && c != ';'
  }

  lemma PlainToken(w: string)
    requires w != "" && forall i :: 0 <= i < |w| ==> IsPlain(w[i])
    ensures IsToken(w) && ToLower(w) == w
  {
    assert forall i :: 0 <= i < |w| ==> !IsSpace(w[i]) && LowerChar(w[i]) == w[i];
  }

  lemma KnownToken(w: string)
    requires w == "script-src" || w == "'self'" || w == "'none'" || w == "'strict-dynamic'"
    ensures IsToken(w) && ToLower(w) == w
  {
    hide IsToken, ToLower, IsSpace, LowerChar;
    PlainToken(w);
  }

  lemma MisreadParses(name: string, none: string, self: string, policy: string, from: Delivery, own: string -> bool, aim: Aim)
    requires name == "script-src" && none == "'none'" && self == "'self'" && IsToken(none) && IsToken(self)
    requires ToLower(self) == self && ToLower(none) == none && !own(none)
    requires policy == (name + [' '] + none) + [';'] + (name + [' '] + self)
    ensures ModeFor([policy], []) == External && !Allows(policy, from, ExternalScript(own), aim)
  {
    hide EffectiveOf, Split, GoverningName, FirstNamed, SegVals, Fields, GovernsOnce;
    hide ModeFor, AllPolicies, SourcesAllow, Stopped;
    TwoDirectives(name, none, self);
    assert BrowserSources(policy) == Some([none]);
    NoneForbidsExternal(none, own);
    assert ',' !in policy;
    OnePolicy(policy);
    var d := SourceList(name, [self], true, false);
    assert self in d.sources && "'none'" !in d.sources;
    PlannedExternal(policy, d);
  }

  lemma NoneForbidsExternal(none: string, own: string -> bool)
    requires ToLower(none) == none && !own(none)
    ensures !SourcesAllow([none], ExternalScript(own))
  {
    assert LowerAll([none]) == [none];
  }

  // A policy on its own that the gate reads as listing 'self' and not 'none' is planned an external script.
  lemma PlannedExternal(policy: string, d: SourceList)
    requires AllPolicies([policy]) == [policy] && AllPolicies([]) == [] && EffectiveOf(policy) == d
    requires !Forbids(d) && SelfFine(d)
    ensures ModeFor([policy], []) == External
  {
    hide AllPolicies, EffectiveOf, Forbids, SelfFine;
    assert EffectiveAll([policy]) == [d] && EffectiveAll([]) == [];
    assert [d] + [] == [d];
  }

  lemma OnePolicy(policy: string)
    requires ',' !in policy
    ensures AllPolicies([policy]) == [policy] && AllPolicies([]) == []
  {
    SplitAtSeparator(policy, "", ',');
  }

  // script-src 'self' 'strict-dynamic': the plan is an external script a browser does not run.
  lemma StrictDynamicWithSelfIsMissed(from: Delivery, own: string -> bool, aim: Aim)
    requires MatchesSelf(own)
    ensures var policy := "script-src 'self' 'strict-dynamic'";
            ModeFor([policy], []) == External && NoRepeats(policy) && !Allows(policy, from, ExternalScript(own), aim)
  {
    var self, dynamic := "'self'", "'strict-dynamic'";
    var policy := "script-src" + [' '] + (self + [' '] + dynamic);
    assert policy == "script-src 'self' 'strict-dynamic'";
    KnownToken("script-src");
    KnownToken(self);
    KnownToken(dynamic);
    SelfDynamicMissed("script-src", self, dynamic, policy, from, own, aim);
  }

  lemma SelfDynamicMissed(name: string, self: string, dynamic: string, policy: string,
                          from: Delivery, own: string -> bool, aim: Aim)
    requires MatchesSelf(own)
    requires name == "script-src" && self == "'self'" && dynamic == "'strict-dynamic'"
    requires IsToken(name) && IsToken(self) && IsToken(dynamic)
    requires ToLower(name) == name && ToLower(self) == self && ToLower(dynamic) == dynamic
    requires policy == name + [' '] + (self + [' '] + dynamic)
    ensures ModeFor([policy], []) == External && NoRepeats(policy) && !Allows(policy, from, ExternalScript(own), aim)
  {
    SelfDynamicParses(name, self, dynamic, policy);
    var d := SourceList(name, [self, dynamic], true, false);
    assert self in d.sources && dynamic in d.sources && "'none'" !in d.sources;
    PlannedExternal(policy, d);
    hide NoRepeats, GovernsOnce, Allows, EffectiveOf;
    ExternalAllowedIff(policy, from, own, aim);
    SandboxReadAlike(policy);
    ReadAlike(policy);
  }

  lemma ThreeFields(name: string, v: string, w: string, policy: string)
    requires IsToken(name) && IsToken(v) && IsToken(w) && policy == name + [' '] + (v + [' '] + w)
    ensures Split(policy, ';') == [policy] && Split(policy, ',') == [policy]
    ensures Fields(policy) == [name, v, w]
  {
    assert ',' !in policy && ';' !in policy;
    SplitAtSeparator(policy, "", ';');
    SplitAtSeparator(policy, "", ',');
    TwoFields(v, w);
    FieldsAcrossSpace(name, ' ', v + [' '] + w);
    FieldsOfWord(name);
  }

  lemma SelfDynamicParses(name: string, self: string, dynamic: string, policy: string)
    requires name == "script-src" && IsToken(name) && IsToken(self) && IsToken(dynamic)
    requires ToLower(name) == name && ToLower(self) == self && ToLower(dynamic) == dynamic
    requires policy == name + [' '] + (self + [' '] + dynamic)
    ensures AllPolicies([policy]) == [policy] && AllPolicies([]) == [] && NoRepeats(policy)
    ensures EffectiveOf(policy) == SourceList(name, [self, dynamic], true, false)
  {
    ThreeFields(name, self, dynamic, policy);
    assert SegName(policy) == name && SegVals(policy) == [self, dynamic];
    OneSegment([policy], name);
    assert LowerAll([self, dynamic]) == [self, dynamic];
  }

  lemma OneSegment(segs: seq<string>, name: string)
    requires |segs| == 1 && SegName(segs[0]) == name == "script-src"
    ensures GoverningName(segs) == name && LastNamed(segs, name, 1) == 0
    ensures LastNamed(segs, "sandbox", 1) == -1
    ensures forall other :: other != name ==> !Has(segs, other)
    ensures forall other :: OccursOnce(segs, other)
  {
    assert !Has(segs, "script-src-elem");
  }
}
