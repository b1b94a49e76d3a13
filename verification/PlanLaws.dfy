/** What a plan does to a page, told from the policies as a browser reads them. (internal/gate/inject.go) */
module PlanLaws {
  import opened Wrappers
  import opened Text
  import opened Csp
  import opened CspPlan

  predicate Restricts(p: string) {
    BrowserSources(p).Some?
  }

  // Keywords are matched without case.
  predicate Lists(p: string, keyword: string) {
    Restricts(p) && keyword in LowerAll(BrowserSources(p).value)
  }

  // No script of the gate's can run and renew under this policy.
  predicate Shuts(p: string) {
    Stopped(p, Header, Renew) || Lists(p, "'none'")
  }

  predicate AllowsSelf(p: string) {
    Restricts(p) ==> Lists(p, "'self'")
  }

  // The inline loader runs as it is.
  predicate AllowsInline(p: string, digest: string) {
    Restricts(p) ==> SourcesAllow(BrowserSources(p).value, InlineScript(digest, None))
  }

  predicate ListsDigest(p: string, digest: string) {
    Restricts(p) && HashSource(digest) in BrowserSources(p).value
  }

  // ---------------------------------------------------------------------------
  // Which directive governs scripts
  // ---------------------------------------------------------------------------

  ghost predicate NoneNamed(segs: seq<string>, name: string) {
    forall j :: 0 <= j < |segs| ==> SegName(segs[j]) != name
  }

  // The more specific name goes first, and of one name the first occurrence.
  ghost predicate Governing(segs: seq<string>, k: int) {
    && 0 <= k < |segs| && (forall j :: 0 <= j < k ==> SegName(segs[j]) != SegName(segs[k]))
    && match SegName(segs[k])
       case "script-src-elem" => true
       case "script-src" => NoneNamed(segs, "script-src-elem")
       case "default-src" => NoneNamed(segs, "script-src-elem") && NoneNamed(segs, "script-src")
       case _ => false
  }

  lemma BrowserSourcesIff(policy: string, segs: seq<string>, vals: seq<string>)
    requires segs == Split(policy, ';')
    ensures BrowserSources(policy) == Some(vals) <==> exists k :: Governing(segs, k) && SegVals(segs[k]) == vals
  {
    hide SegName, SegVals, Governing, GoverningName;
    GoverningIsFirst(segs);
    if GoverningName(segs) != "" {
      assert Governing(segs, FirstNamed(segs, GoverningName(segs), 0));
    }
  }

  lemma GoverningIsFirst(segs: seq<string>)
    ensures var name := GoverningName(segs);
            forall k :: Governing(segs, k) <==> name != "" && k == FirstNamed(segs, name, 0)
    ensures GoverningName(segs) != "" ==> FirstNamed(segs, GoverningName(segs), 0) < |segs|
  {
    hide SegName, SegVals, LastNamed, FirstNamed;
    NamedIff(segs, "script-src-elem");
    NamedIff(segs, "script-src");
    NamedIff(segs, "default-src");
    var name := GoverningName(segs);
    FirstAndLast(segs, name);
    forall k ensures Governing(segs, k) <==> name != "" && k == FirstNamed(segs, name, 0) {
      if Governing(segs, k) {
        assert SegName(segs[k]) == name;
        OneFirst(segs, name, k);
      }
    }
  }

  lemma NamedIff(segs: seq<string>, name: string)
    ensures Has(segs, name) <==> !NoneNamed(segs, name)
  {
    hide SegName;
  }

  lemma OneFirst(segs: seq<string>, name: string, k: nat)
    requires k < |segs| && SegName(segs[k]) == name && forall j :: 0 <= j < k ==> SegName(segs[j]) != name
    ensures FirstNamed(segs, name, 0) == k
  {
    hide SegName;
  }

  // ---------------------------------------------------------------------------
  // Which form
  // ---------------------------------------------------------------------------

  lemma GateReadsLikeBrowser(p: string, digest: string)
    requires NoRepeats(p)
    ensures Forbids(EffectiveOf(p)) <==> Shuts(p)
    ensures EffectiveOf(p).restricting <==> Restricts(p)
    ensures SelfFine(EffectiveOf(p)) <==> AllowsSelf(p)
    ensures Dynamic(EffectiveOf(p)) <==> Lists(p, "'strict-dynamic'")
    ensures (InlineFine(EffectiveOf(p)) && !Dynamic(EffectiveOf(p))) || ListsDigest(p, digest) <==> AllowsInline(p, digest)
  {
    hide EffectiveOf, BrowserSources, Stopped, GovernsOnce, LowerAll, HashSource, NoRepeats;
    ReadAlike(p);
    SandboxReadAlike(p);
    var eff := EffectiveOf(p);
    if Restricts(p) {
      assert eff.sources == LowerAll(BrowserSources(p).value);
      assert eff.HasNonceOrHash() <==> exists i :: 0 <= i < |eff.sources| && IsNonceOrHash(eff.sources[i]);
    }
  }

  // The ladder over policies rather than over what they reduce to.
  lemma ModeFromReadings(enforce: seq<string>, meta: seq<string>)
    ensures var es, ms, mode := AllPolicies(enforce), AllPolicies(meta), ModeFor(enforce, meta);
            && (mode == Skip <==>
                  || (exists p :: p in es + ms && Forbids(EffectiveOf(p)))
                  || ((exists p :: p in es + ms && !SelfFine(EffectiveOf(p))) && exists p :: p in ms && EffectiveOf(p).restricting))
            && (mode == External <==> forall p :: p in es + ms ==> !Forbids(EffectiveOf(p)) && SelfFine(EffectiveOf(p)))
            && (mode == InlineNonce ==> exists p :: p in es && Dynamic(EffectiveOf(p)))
            && (mode == InlineHash || mode == Inline ==> forall p :: p in es ==> !Dynamic(EffectiveOf(p)))
            && (mode == Inline ==> forall p :: p in es ==> InlineFine(EffectiveOf(p)))
            && (mode == InlineHash ==> exists p :: p in es && !InlineFine(EffectiveOf(p)))
  {
    hide EffectiveOf, Forbids, SelfFine, Dynamic, InlineFine, AllPolicies;
    var es, ms := AllPolicies(enforce), AllPolicies(meta);
    forall p ensures p in es ==> EffectiveOf(p) in EffectiveAll(es) {
      EffectiveIn(es, p);
    }
    forall p ensures p in ms ==> EffectiveOf(p) in EffectiveAll(ms) {
      EffectiveIn(ms, p);
    }
    forall d ensures d in EffectiveAll(es) ==> exists p :: p in es && EffectiveOf(p) == d {
      ReadingOfOne(es, d);
    }
    forall d ensures d in EffectiveAll(ms) ==> exists p :: p in ms && EffectiveOf(p) == d {
      ReadingOfOne(ms, d);
    }
  }

  lemma ReadingOfOne(ps: seq<string>, d: SourceList)
    ensures d in EffectiveAll(ps) ==> exists p :: p in ps && EffectiveOf(p) == d
  {
    hide EffectiveOf;
    if d in EffectiveAll(ps) {
      var i :| 0 <= i < |EffectiveAll(ps)| && EffectiveAll(ps)[i] == d;
      assert ps[i] in ps;
    }
  }

  ghost predicate NoneLists(enforce: seq<string>, meta: seq<string>, digest: string) {
    forall p :: p in AllPolicies(enforce) + AllPolicies(meta) ==> !ListsDigest(p, digest)
  }

  // From the policies: there is no way past them exactly when one shuts the script out, or one that does not list
  // 'self' calls for an edit and a meta policy restricts, which no edit reaches. The external script is for exactly
  // the policies that all list 'self'. Headers are edited exactly when that is not so, no meta policy restricts, and
  // one header would stop the inline loader; and then with a nonce exactly when one lists 'strict-dynamic'.
  lemma PlanFromPolicies(enforce: seq<string>, report: seq<string>, meta: seq<string>, nonce: string, digest: string, plan: Plan)
    requires Unrepetitive(enforce, meta) && IsPlan(plan, enforce, report, meta, nonce, digest)
    ensures var es, ms := AllPolicies(enforce), AllPolicies(meta);
            && (plan.mode == Skip <==>
                  || (exists p :: p in es + ms && Shuts(p))
                  || ((exists p :: p in es + ms && !AllowsSelf(p)) && exists p :: p in ms && Restricts(p)))
            && (plan.mode == External <==> forall p :: p in es + ms ==> !Shuts(p) && AllowsSelf(p))
            && (EditsHeaders(plan.mode) ==> (plan.mode == InlineNonce <==> exists p :: p in es && Lists(p, "'strict-dynamic'")))
            && (NoneLists(enforce, meta, digest) ==>
                  (EditsHeaders(plan.mode) <==>
                     && (forall p :: p in es + ms ==> !Shuts(p)) && (forall p :: p in ms ==> !Restricts(p))
                     && (exists p :: p in es && !AllowsSelf(p)) && exists p :: p in es && !AllowsInline(p, digest)))
  {
    hide AllPolicies, EffectiveOf, NoRepeats, Forbids, SelfFine, Dynamic, InlineFine, ModeFor;
    hide Shuts, AllowsSelf, AllowsInline, Restricts, Lists, ListsDigest, RewrittenAll;
    ModeFromReadings(enforce, meta);
    forall p | p in AllPolicies(enforce) + AllPolicies(meta)
      ensures Forbids(EffectiveOf(p)) <==> Shuts(p)
      ensures EffectiveOf(p).restricting <==> Restricts(p)
      ensures SelfFine(EffectiveOf(p)) <==> AllowsSelf(p)
      ensures Dynamic(EffectiveOf(p)) <==> Lists(p, "'strict-dynamic'")
      ensures (InlineFine(EffectiveOf(p)) && !Dynamic(EffectiveOf(p))) || ListsDigest(p, digest) <==> AllowsInline(p, digest)
    {
      GateReadsLikeBrowser(p, digest);
    }
    forall p ensures !Restricts(p) ==> AllowsSelf(p) {
      SaysNothing(p);
    }
  }

  lemma SaysNothing(p: string)
    ensures !Restricts(p) ==> AllowsSelf(p)
  {
  }

  // Where the loader would run as it is, nothing is edited: an edit could only stop scripts of the page.
  lemma NoEditUnlessNeeded(enforce: seq<string>, report: seq<string>, meta: seq<string>, nonce: string, digest: string,
                           plan: Plan, aim: Aim)
    requires Unrepetitive(enforce, meta) && NoneLists(enforce, meta, digest)
    requires IsPlan(plan, enforce, report, meta, nonce, digest)
    requires AllowedEverywhere(enforce, meta, InlineScript(digest, None), aim)
    ensures plan.enforce == None && plan.report == None && plan.nonce == ""
  {
    hide AllPolicies, NoRepeats, ModeFor, Shuts, AllowsSelf, Lists, Stopped, SourcesAllow, BrowserSources;
    hide RewrittenAll, NoneLists, Unrepetitive;
    PlanFromPolicies(enforce, report, meta, nonce, digest, plan);
    assert forall p :: p in AllPolicies(enforce) ==> AllowsInline(p, digest);
  }

  // ---------------------------------------------------------------------------
  // What the edits do to everything else on the page
  // ---------------------------------------------------------------------------

  function ReportAfter(plan: Plan, report: seq<string>): seq<string> {
    if plan.report.Some? then plan.report.value else report
  }

  // One more source at the end of what a browser reads, and nothing else changed.
  predicate GainsSource(p: string, q: string, src: string) {
    && BrowserSandbox(q) == BrowserSandbox(p)
    && BrowserSources(q) == if Restricts(p) then Some(BrowserSources(p).value + [src]) else None
  }

  // And in the text of it: the governing directive has one more word, every other segment is what it was, byte for byte.
  lemma EditKeepsTheRest(p: string, src: string, segs: seq<string>, after: seq<string>)
    requires IsToken(src) && segs == Split(p, ';') && after == Split(Edited(p, src), ';')
    ensures BrowserSources(p).None? ==> Edited(p, src) == p
    ensures |after| == |segs| && forall i :: 0 <= i < |segs| && !Governing(segs, i) ==> after[i] == segs[i]
    ensures forall i :: Governing(segs, i) ==> Fields(after[i]) == Fields(segs[i]) + [src]
  {
    hide Fields, Extended, SegName, SegVals, Governing;
    GoverningIsFirst(segs);
    var name := GoverningName(segs);
    if name != "" {
      var k := FirstNamed(segs, name, 0);
      GoverningOccurs(segs, name, k);
      AppendedSegments(p, name, src);
      ExtendedFields(segs[k], src);
    }
  }

  // Every policy, enforcing or report-only, gains the one source the loader needs, if any is edited at all.
  lemma EveryPolicyGains(enforce: seq<string>, report: seq<string>, meta: seq<string>, nonce: string, digest: string, plan: Plan)
    requires IsPlan(plan, enforce, report, meta, nonce, digest) && IsBase64(nonce) && IsBase64(digest)
    ensures !EditsHeaders(plan.mode) ==> HeadersAfter(plan, enforce) == enforce && ReportAfter(plan, report) == report
    ensures EditsHeaders(plan.mode) ==>
              var src := if plan.mode == InlineNonce then NonceSource(nonce) else HashSource(digest);
              && AllGain(AllPolicies(enforce), AllPolicies(HeadersAfter(plan, enforce)), src)
              && AllGain(AllPolicies(report), AllPolicies(ReportAfter(plan, report)), src)
  {
    hide AllPolicies, ModeFor, IsBase64, AllGain, NonceSource, HashSource, EditedHeaders;
    if EditsHeaders(plan.mode) {
      var src := Source(plan.mode, nonce, digest);
      SourcesAreTokens(nonce);
      SourcesAreTokens(digest);
      RewrittenGain(enforce, src);
      RewrittenGain(report, src);
    }
  }

  predicate AllGain(ps: seq<string>, qs: seq<string>, src: string) {
    |qs| == |ps| && forall i :: 0 <= i < |ps| ==> GainsSource(ps[i], qs[i], src)
  }

  lemma RewrittenGain(headers: seq<string>, src: string)
    requires IsToken(src)
    ensures AllGain(AllPolicies(headers), AllPolicies(EditedHeaders(headers, src)), src)
    ensures headers == [] ==> EditedHeaders(headers, src) == headers
  {
    hide AllPolicies, BrowserSources, BrowserSandbox, Edited, EditedHeaders;
    PoliciesAfterRewrite(headers, src);
    var ps := AllPolicies(headers);
    forall i | 0 <= i < |ps| ensures GainsSource(ps[i], EditedAll(ps, src)[i], src) {
      BrowserReadsTheSource(ps[i], src);
    }
    EmptyStaysEmpty(src);
  }

  lemma EmptyStaysEmpty(src: string)
    ensures EditedHeaders([], src) == []
  {
  }

  // So a report-only policy that is edited does not report the loader.
  lemma NothingIsReported(p: string, q: string, src: string, loader: Element)
    requires GainsSource(p, q, src)
    requires loader.InlineScript?
    requires src == HashSource(loader.digest) || (loader.nonce.Some? && src == NonceSource(loader.nonce.value))
    ensures BrowserSources(q).Some? ==> SourcesAllow(BrowserSources(q).value, loader)
  {
    hide BrowserSources, BrowserSandbox, LowerAll;
    if Restricts(p) {
      assert src == (BrowserSources(p).value + [src])[|BrowserSources(p).value|];
    }
  }

  // An inline script of the page's own that the policy names by its own nonce or digest.
  predicate Named(p: string, digest: string, nonce: Option<string>) {
    Restricts(p) ==>
      HashSource(digest) in BrowserSources(p).value || (nonce.Some? && NonceSource(nonce.value) in BrowserSources(p).value)
  }

  // The price of an edit, exactly: an inline script of the page's own still runs under an edited policy if and only if
  // the policy names it; one that ran only by 'unsafe-inline' is stopped.
  lemma OwnScriptAfterEdit(p: string, q: string, src: string, digest: string, nonce: Option<string>, from: Delivery, aim: Aim)
    requires GainsSource(p, q, src) && IsNonceOrHash(src)
    requires src != HashSource(digest) && (nonce.Some? ==> src != NonceSource(nonce.value))
    ensures Allows(q, from, InlineScript(digest, nonce), aim) <==> !Stopped(p, from, aim) && Named(p, digest, nonce)
  {
    hide BrowserSources, BrowserSandbox;
    if Restricts(p) {
      var tokens := BrowserSources(p).value;
      LowerAllSnoc(tokens, src);
      IsNonceOrHashLowered(src);
      var lower := LowerAll(tokens + [src]);
      assert lower[|tokens|] == ToLower(src);
      assert IsNonceOrHash(lower[|tokens|]);
    }
  }

  lemma IsNonceOrHashLowered(src: string)
    requires IsNonceOrHash(src)
    ensures IsNonceOrHash(ToLower(src))
  {
  }

  lemma SourcesDiffer(nonce: string, digest: string, other: string, otherNonce: Option<string>)
    requires other != digest && (otherNonce.Some? ==> otherNonce.value != nonce)
    ensures HashSource(other) != HashSource(digest) && HashSource(other) != NonceSource(nonce)
    ensures otherNonce.Some? ==> NonceSource(otherNonce.value) != NonceSource(nonce) && NonceSource(otherNonce.value) != HashSource(digest)
    ensures IsNonceOrHash(HashSource(digest)) && IsNonceOrHash(NonceSource(nonce))
  {
    Around("'sha256-", digest, other);
    assert HashSource(other)[1] == 's' && NonceSource(nonce)[1] == 'n' && HashSource(digest)[1] == 's';
    if otherNonce.Some? {
      Around("'nonce-", nonce, otherNonce.value);
      assert NonceSource(otherNonce.value)[1] == 'n';
    }
    assert HashSource(digest)[..8] == "'sha256-" && NonceSource(nonce)[..7] == "'nonce-";
  }

  lemma Around(pre: string, a: string, b: string)
    requires a != b
    ensures pre + a + "'" != pre + b + "'"
  {
    var x, y := pre + a + "'", pre + b + "'";
    assert x[|pre|..|x| - 1] == a && y[|pre|..|y| - 1] == b;
  }

  // What a plan leaves of an inline script of the page's own, on any page: everything if it edits nothing, and
  // otherwise what every enforcing policy names by its nonce or digest.
  lemma PageScriptAfterPlan(enforce: seq<string>, report: seq<string>, meta: seq<string>, nonce: string, digest: string,
                            plan: Plan, own: string, ownNonce: Option<string>, aim: Aim)
    requires IsPlan(plan, enforce, report, meta, nonce, digest) && IsBase64(nonce) && IsBase64(digest)
    requires own != digest && (ownNonce.Some? ==> ownNonce.value != nonce)
    ensures AllowedEverywhere(HeadersAfter(plan, enforce), meta, InlineScript(own, ownNonce), aim)
            <==> && (forall p :: p in AllPolicies(meta) ==> Allows(p, Meta, InlineScript(own, ownNonce), aim))
                 && forall p :: p in AllPolicies(enforce) ==>
                      if EditsHeaders(plan.mode) then !Stopped(p, Header, aim) && Named(p, own, ownNonce)
                      else Allows(p, Header, InlineScript(own, ownNonce), aim)
  {
    hide AllPolicies, ModeFor, IsBase64, NonceSource, HashSource, HeadersAfter, RewrittenAll, Allows, Named, Stopped, GainsSource, IsNonceOrHash;
    var el := InlineScript(own, ownNonce);
    EveryPolicyGains(enforce, report, meta, nonce, digest, plan);
    if EditsHeaders(plan.mode) {
      var src := if plan.mode == InlineNonce then NonceSource(nonce) else HashSource(digest);
      var ps, qs := AllPolicies(enforce), AllPolicies(HeadersAfter(plan, enforce));
      SourcesDiffer(nonce, digest, own, ownNonce);
      forall i | 0 <= i < |ps| ensures Allows(qs[i], Header, el, aim) <==> !Stopped(ps[i], Header, aim) && Named(ps[i], own, ownNonce) {
        assert GainsSource(ps[i], qs[i], src);
        OwnScriptAfterEdit(ps[i], qs[i], src, own, ownNonce, Header, aim);
      }
      assert forall p :: p in ps ==> exists i :: 0 <= i < |ps| && ps[i] == p;
      assert forall q :: q in qs ==> exists i :: 0 <= i < |qs| && qs[i] == q;
    }
  }

  // ---------------------------------------------------------------------------
  // A page whose own script an edit stops
  // ---------------------------------------------------------------------------

  lemma OneDirective(name: string, v: string, policy: string)
    requires name == "script-src" && IsToken(v) && policy == name + [' '] + v
    ensures Split(policy, ',') == [policy] && NoRepeats(policy)
    ensures BrowserSources(policy) == Some([v]) && BrowserSandbox(policy) == None
  {
    ScriptSrc(name);
    assert ',' !in policy && ';' !in policy;
    SplitAtSeparator(policy, "", ';');
    SplitAtSeparator(policy, "", ',');
    TwoFields(name, v);
    assert SegName(policy) == name && SegVals(policy) == [v];
    OneSegment([policy], name);
    FirstAndLast([policy], "sandbox");
    FirstAndLast([policy], name);
  }

  lemma TwoHeaders(a: string, b: string)
    requires Split(a, ',') == [a] && Split(b, ',') == [b]
    ensures AllPolicies([a, b]) == [a, b] && AllPolicies([]) == []
  {
    hide Split;
    assert [a, b][1..] == [b] && [b][1..] == [];
    assert AllPolicies([b]) == [b];
  }

  // Two headers, one that allows inline scripts and one that names the page's only script. It runs under both, and
  // the digest the plan adds to both for the loader stops it under the first.
  lemma EditStopsOwnScript(own: string, report: seq<string>, nonce: string, digest: string, plan: Plan, aim: Aim)
    requires IsBase64(own) && IsBase64(nonce) && IsBase64(digest) && own != digest
    requires IsPlan(plan, ["script-src 'unsafe-inline'", "script-src 'sha256-" + own + "'"], report, [], nonce, digest)
    ensures var enforce := ["script-src 'unsafe-inline'", "script-src 'sha256-" + own + "'"];
            && plan.mode == InlineHash
            && AllowedEverywhere(enforce, [], InlineScript(own, None), aim)
            && !AllowedEverywhere(HeadersAfter(plan, enforce), [], InlineScript(own, None), aim)
  {
    hide ToLower, IsNonceOrHash, LowerAll, AllPolicies, Split, HashSource, IsPlan, AllowedEverywhere, HeadersAfter, IsBase64;
    var a, b, u := "script-src 'unsafe-inline'", "script-src 'sha256-" + own + "'", "'unsafe-inline'";
    InlineWords(a, u);
    TwoWords(own, b, HashSource(own));
    StopsTheirOwn(u, a, b, own, report, nonce, digest, plan, aim);
  }

  lemma StopsTheirOwn(u: string, a: string, b: string, own: string, report: seq<string>, nonce: string, digest: string,
                      plan: Plan, aim: Aim)
    requires u == "'unsafe-inline'" && a == "script-src" + [' '] + u && b == "script-src" + [' '] + HashSource(own)
    requires IsBase64(own) && IsBase64(nonce) && IsBase64(digest) && own != digest
    requires IsPlan(plan, [a, b], report, [], nonce, digest)
    ensures plan.mode == InlineHash
    ensures AllowedEverywhere([a, b], [], InlineScript(own, None), aim)
    ensures !AllowedEverywhere(HeadersAfter(plan, [a, b]), [], InlineScript(own, None), aim)
  {
    hide ToLower, IsNonceOrHash, LowerAll, AllPolicies, Split, IsToken, HashSource, NoRepeats, BrowserSources, BrowserSandbox;
    hide IsPlan, AllowedEverywhere, HeadersAfter, IsBase64;
    var h := HashSource(own);
    UnsafeInlineToken(u);
    SourcesAreTokens(own);
    OneDirective("script-src", u, a);
    OneDirective("script-src", h, b);
    TwoHeaders(a, b);
    StopsOwn(u, h, a, b, own, report, nonce, digest, plan, aim);
  }

  lemma InlineWords(a: string, u: string)
    requires a == "script-src 'unsafe-inline'" && u == "'unsafe-inline'"
    ensures a == "script-src" + [' '] + u
  {
  }

  lemma TwoWords(own: string, b: string, h: string)
    requires b == "script-src 'sha256-" + own + "'" && h == HashSource(own)
    ensures b == "script-src" + [' '] + h
  {
    assert "script-src 'sha256-" == "script-src" + [' '] + "'sha256-";
  }

  lemma UnsafeInlineToken(u: string)
    requires u == "'unsafe-inline'"
    ensures IsToken(u) && ToLower(u) == u && !IsNonceOrHash(u)
  {
    hide IsToken, ToLower, IsNonceOrHash;
    PlainToken(u);
    hide IsPlain;
    UnsafeIsNoHash(u);
  }

  lemma UnsafeIsNoHash(u: string)
    requires u == "'unsafe-inline'"
    ensures !IsNonceOrHash(u)
  {
    assert u[1] == 'u';
  }

  // 'unsafe-inline' on its own.
  lemma InlineOnly(u: string, a: string, own: string, digest: string, aim: Aim)
    requires u == "'unsafe-inline'" && ToLower(u) == u && !IsNonceOrHash(u)
    requires BrowserSources(a) == Some([u]) && BrowserSandbox(a) == None
    ensures Restricts(a) && !Shuts(a) && !AllowsSelf(a) && !Lists(a, "'strict-dynamic'")
    ensures !ListsDigest(a, digest) && !Named(a, own, None) && Allows(a, Header, InlineScript(own, None), aim)
  {
    hide BrowserSources, BrowserSandbox, IsNonceOrHash, ToLower;
    assert LowerAll([u]) == [u];
    assert u[1] == 'u';
    assert HashSource(own)[1] == 's' && HashSource(digest)[1] == 's';
  }

  // The digest of one script on its own.
  lemma DigestOnly(h: string, b: string, own: string, digest: string, aim: Aim)
    requires h == HashSource(own) && own != digest
    requires BrowserSources(b) == Some([h]) && BrowserSandbox(b) == None
    ensures Restricts(b) && !Shuts(b) && !Lists(b, "'strict-dynamic'")
    ensures !ListsDigest(b, digest) && !AllowsInline(b, digest) && Allows(b, Header, InlineScript(own, None), aim)
  {
    hide BrowserSources, BrowserSandbox, IsNonceOrHash;
    var lower := LowerAll([h]);
    assert |lower| == 1 && lower[0] == ToLower(h);
    assert h[1] == 's' && h[2] == 'h';
    assert ToLower(h)[1] == 's' && ToLower(h)[2] == 'h';
    Around("'sha256-", own, digest);
  }

  lemma StopsOwn(u: string, h: string, a: string, b: string, own: string, report: seq<string>, nonce: string, digest: string,
                 plan: Plan, aim: Aim)
    requires u == "'unsafe-inline'" && ToLower(u) == u && !IsNonceOrHash(u) && h == HashSource(own) && own != digest
    requires AllPolicies([a, b]) == [a, b] && AllPolicies([]) == [] && NoRepeats(a) && NoRepeats(b)
    requires BrowserSources(a) == Some([u]) && BrowserSandbox(a) == None
    requires BrowserSources(b) == Some([h]) && BrowserSandbox(b) == None
    requires IsBase64(nonce) && IsBase64(digest) && IsPlan(plan, [a, b], report, [], nonce, digest)
    ensures plan.mode == InlineHash
    ensures AllowedEverywhere([a, b], [], InlineScript(own, None), aim)
    ensures !AllowedEverywhere(HeadersAfter(plan, [a, b]), [], InlineScript(own, None), aim)
  {
    InlineOnly(u, a, own, digest, aim);
    DigestOnly(h, b, own, digest, aim);
    hide BrowserSources, BrowserSandbox, IsNonceOrHash, ToLower, HashSource, NoRepeats, IsBase64, IsPlan, HeadersAfter;
    hide Shuts, AllowsSelf, AllowsInline, Lists, ListsDigest, Named, Allows, Stopped, AllPolicies, Restricts, AllowedEverywhere;
    HashForTwo(a, b, report, nonce, digest, plan);
    AllowedByTwo(a, b, InlineScript(own, None), aim);
    PageScriptAfterPlan([a, b], report, [], nonce, digest, plan, own, None, aim);
    assert a in AllPolicies([a, b]);
  }

  lemma AllowedByTwo(a: string, b: string, el: Element, aim: Aim)
    requires AllPolicies([a, b]) == [a, b] && AllPolicies([]) == []
    requires Allows(a, Header, el, aim) && Allows(b, Header, el, aim)
    ensures AllowedEverywhere([a, b], [], el, aim)
  {
    hide Allows, AllPolicies;
  }

  lemma HashForTwo(a: string, b: string, report: seq<string>, nonce: string, digest: string, plan: Plan)
    requires AllPolicies([a, b]) == [a, b] && AllPolicies([]) == [] && NoRepeats(a) && NoRepeats(b)
    requires IsPlan(plan, [a, b], report, [], nonce, digest)
    requires !Shuts(a) && !Shuts(b) && !ListsDigest(a, digest) && !ListsDigest(b, digest)
    requires !AllowsSelf(a) && !AllowsInline(b, digest)
    requires !Lists(a, "'strict-dynamic'") && !Lists(b, "'strict-dynamic'")
    ensures plan.mode == InlineHash
  {
    hide AllPolicies, IsPlan, NoRepeats, Shuts, ListsDigest, AllowsSelf, AllowsInline, Lists, Restricts;
    assert [a, b] + [] == [a, b];
    PlanFromPolicies([a, b], report, [], nonce, digest, plan);
    assert a in [a, b] && b in [a, b];
    assert EditsHeaders(plan.mode);
  }
}
