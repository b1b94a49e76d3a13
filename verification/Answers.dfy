/** What an answer to a challenge comes to, for every submission and every reading of the clock.
    (internal/gate/endpoints.go) */
module Answers {
  import opened Wrappers
  import opened Token
  import opened Routes
  import opened Session
  import C = Challenges
  import Pow

  // The submission is challenge c under a tag that was made for it and for this site.
  predicate Offers(issued: set<C.Issued>, r: Request, sub: Submission, c: C.Challenge) {
    sub.Answer? && sub.offer == C.Offer(c) && C.Issued(c, r.aud) in issued
  }

  // The two ends of the life of a challenge.
  function Early(c: C.Challenge): int {
    c.ts * SECOND - 60 * SECOND
  }

  function Late(c: C.Challenge): int {
    c.ts * SECOND + c.profile.ttl
  }

  ghost predicate Entitled(g: Gate, signed: set<Pass>, r: Request, c: C.Challenge) {
    c.profile.kind == C.RENEW ==>
      exists j :: FirstBest(g, signed, r, j, c.ts * SECOND) && WithinSession(g, r.cookies[j].value.pass, c.ts * SECOND)
  }

  // Everything an answer can come to, exactly when. It is malformed if it offers no challenge made for this site.
  // Otherwise it is refused, in this order, outside the life of the challenge, for a renewal without the pass that
  // entitles, short of the signed threshold, and at or past the deadline; what is left buys a pass if the sender can be
  // resolved and the pass would end in a later second than it begins.
  lemma OutcomeIff(g: Gate, issued: set<C.Issued>, signed: set<Pass>, r: Request, sub: Submission, t1: int, t2: int, t3: int)
    ensures var out := OutcomeOf(g, issued, signed, r, sub, t1, t2, t3);
            && (out == MalformedAnswer <==> forall c :: !Offers(issued, r, sub, c))
            && forall c :: Offers(issued, r, sub, c) ==>
                 && (out == StaleAnswer <==> t1 < Early(c) || Late(c) < t1)
                 && (Early(c) <= t1 <= Late(c) ==>
                       && (out == NotEntitled <==> !Entitled(g, signed, r, c))
                       && (Entitled(g, signed, r, c) ==>
                             && (out == BadPoW <==> !g.Solves(c, r.aud, sub.nonce))
                             && (g.Solves(c, r.aud, sub.nonce) ==>
                                   && (out == WindowElapsed <==> Late(c) <= t2)
                                   && (t2 < Late(c) ==> out == MintRefused || out.Granted?))))
  {
    hide RootFor, Pow.Number, PoWPass, Pass.Valid, Chosen, FirstBest, WithinSession;
    forall c | Offers(issued, r, sub, c) {
      EntitledIff(g, signed, r, c);
    }
    if sub.Answer? && sub.offer.Offer? && C.Issued(sub.offer.challenge, r.aud) in issued {
      assert Offers(issued, r, sub, sub.offer.challenge);
    }
  }

  // The renewal challenge is for exactly the requests whose first best cookie is a solved pass within its session.
  lemma OfferedIff(g: Gate, w: World, r: Request, now: int, rand: seq<Pow.byte>)
    requires g.Valid()
    ensures var w', c := Challenged(g, w, r, now, rand), C.Challenge(Unix(now), rand, ProfileFor(g, w.signed, r, now));
            && w'.issued == w.issued + {C.Issued(c, r.aud)} && w'.signed == w.signed && w'.mints == w.mints
            && (c.profile == g.admit || c.profile == g.renew)
            && (c.profile == g.renew <==>
                  exists j :: FirstBest(g, w.signed, r, j, now) && WithinSession(g, r.cookies[j].value.pass, now))
  {
    RenewableIff(g, w.signed, r, now);
    hide FirstBest, WithinSession, RenewRoot, Chosen;
  }

  // The root a solved pass carries: its own, which is written 0, or that of the pass it renews.
  ghost predicate Inherits(g: Gate, signed: set<Pass>, r: Request, c: C.Challenge, rt: int) {
    if c.profile.kind == C.RENEW then exists j :: FirstBest(g, signed, r, j, c.ts * SECOND) && r.cookies[j].value.pass.RootAt() == rt
    else rt == 0
  }

  // What a solved answer in time buys, when it buys anything: a pass for the whole site, bound to the site and the
  // sender's network, dated by the last reading of the clock and ending at the deadline of the challenge.
  lemma GrantedPass(g: Gate, issued: set<C.Issued>, signed: set<Pass>, r: Request, sub: Submission, c: C.Challenge,
                    t1: int, t2: int, t3: int)
    requires Offers(issued, r, sub, c)
    ensures var out := OutcomeOf(g, issued, signed, r, sub, t1, t2, t3);
            out.Granted? ==>
              var p := out.pass;
              && p.kind == PoW && p.scope == "*" && p.aud == r.aud && p.ipp == r.prefix && p.payer == "" && p.tx == ""
              && p.iat == Unix(t3) && p.exp == Unix(Late(c)) && Inherits(g, signed, r, c, p.rt) && p.Valid()
              && out.kind == c.profile.kind
  {
    hide FirstBest, Pow.Number, Chosen, RenewRoot;
    EntitledIff(g, signed, r, c);
  }

  // And when exactly it buys that: when the sender can be resolved, the pass would end in a later second than it
  // begins, and its root is not after it.
  lemma GrantedIff(g: Gate, issued: set<C.Issued>, signed: set<Pass>, r: Request, sub: Submission, c: C.Challenge,
                   t1: int, t2: int, t3: int)
    requires Offers(issued, r, sub, c) && Early(c) <= t1 <= Late(c) && Entitled(g, signed, r, c)
    requires g.Solves(c, r.aud, sub.nonce) && t2 < Late(c)
    ensures OutcomeOf(g, issued, signed, r, sub, t1, t2, t3).Granted? <==>
              && r.aud != "" && r.prefix != "" && 0 < Unix(t3) < Unix(Late(c))
              && exists rt :: Inherits(g, signed, r, c, rt) && 0 <= rt <= Unix(t3)
  {
    hide Pow.Number, Chosen, RenewRoot;
    EntitledIff(g, signed, r, c);
    OneInheritance(g, signed, r, c);
    var root := if c.profile.kind == C.RENEW then RootFor(g, signed, r, c) else None;
    var rt := if root.Some? then root.value else 0;
    assert Inherits(g, signed, r, c, rt);
  }

  lemma OneInheritance(g: Gate, signed: set<Pass>, r: Request, c: C.Challenge)
    ensures forall a, b :: Inherits(g, signed, r, c, a) && Inherits(g, signed, r, c, b) ==> a == b
  {
    forall i, j | FirstBest(g, signed, r, i, c.ts * SECOND) && FirstBest(g, signed, r, j, c.ts * SECOND) ensures i == j {
    }
  }

  // What a cookie opens: a well-formed pass that was signed opens a request to its own site, within its life, and, if it
  // was solved for, from its own network, or, if it was paid for, for a page that its scope prices now.
  lemma OpensIff(signed: set<Pass>, routes: seq<Route>, r: Request, p: Pass, at: int)
    ensures Opens(signed, routes, r, Crumb("anteroom_pass", Signed(p)), at) <==>
              && p in signed && p.Valid() && p.aud == r.aud
              && p.iat * SECOND - 60 * SECOND <= at < p.exp * SECOND
              && if p.kind == PoW then p.ipp == r.prefix else PaidScopeCovers(routes, p.scope, r.path)
  {
    hide PaidScopeCovers;
    LifeOfAPass(signed, Signed(p), at, p);
  }

  // The pass an answer bought opens every page of the site, from the network it was bought on, until its second of
  // expiry, whatever other cookies come with it and whatever else is signed.
  lemma GrantedPassOpens(g: Gate, issued: set<C.Issued>, signed: set<Pass>, r: Request, sub: Submission, t1: int, t2: int, t3: int,
                         later: set<Pass>, r': Request, at: int, k: int)
    requires var out := OutcomeOf(g, issued, signed, r, sub, t1, t2, t3);
             out.Granted? && out.pass in later && Presents(r', out.pass, k)
    requires t3 <= at
    ensures var p := OutcomeOf(g, issued, signed, r, sub, t1, t2, t3).pass;
            Opens(later, g.routes, r', r'.cookies[k], at) <==> r'.aud == r.aud && r'.prefix == r.prefix && at < p.exp * SECOND
  {
    var p := OutcomeOf(g, issued, signed, r, sub, t1, t2, t3).pass;
    GrantedPass(g, issued, signed, r, sub, sub.offer.challenge, t1, t2, t3);
    hide OutcomeOf;
    Floor(t3);
    OpensIff(later, g.routes, r', p, at);
  }

  // What is counted: one answer, under the name of its outcome.
  lemma CountedAs(g: Gate, w: World, r: Request, sub: Submission, t1: int, t2: int, t3: int)
    ensures var out, w' := OutcomeOf(g, w.issued, w.signed, r, sub, t1, t2, t3), Answered(g, w, r, sub, t1, t2, t3);
            && (out == MalformedAnswer ==> w'.answers == w.answers + multiset{"malformed"})
            && (out == StaleAnswer ==> w'.answers == w.answers + multiset{"stale"})
            && (out == NotEntitled || out == BadPoW ==> w'.answers == w.answers + multiset{"bad_pow"})
            && (out == WindowElapsed ==> w'.answers == w.answers + multiset{"window_elapsed"})
            && (out == MintRefused ==> w'.answers == w.answers + multiset{"error"})
            && (out.Granted? ==> w'.answers == w.answers + multiset{if sub.offer.challenge.profile.kind == 2 then "ok_renew" else "ok_admit"})
            && w'.signed == w.signed + (if out.Granted? then {out.pass} else {})
            && w'.issued == w.issued && w'.offered == w.offered
  {
    hide Pow.Number, Chosen, RenewRoot;
  }
}
