/** The free door: which of a request's cookies counts, what a challenge is issued at, and what an answer
    buys. The server stores nothing; its state is the MACs that exist.
    (internal/gate/gate.go, internal/gate/endpoints.go) */
module Session {
  import opened Wrappers
  import opened Token
  import opened Routes
  import C = Challenges
  import Pow

  const COOKIE_NAME := "anteroom_pass"

  datatype Crumb = Crumb(name: string, value: Cookie)

  // What a request says about its sender: the normalized authority, the resolved network prefix ("" if it
  // cannot be resolved), the User-Agent, the path and the cookies in order.
  datatype Request = Request(aud: string, prefix: string, ua: string, path: string, cookies: seq<Crumb>)

  datatype Gate = Gate(admit: C.Profile, renew: C.Profile, maxSession: int, routes: seq<Route>,
                       sha256: (C.Challenge, string, string) -> Pow.Word)
  {
    // What configuration validation leaves.
    predicate Valid() {
      && admit.kind == C.ADMIT && renew.kind == C.RENEW
      && admit.ttl == renew.ttl >= SECOND && maxSession >= admit.ttl
    }

    // The nonce solves the challenge at the threshold signed into it.
    predicate Solves(c: C.Challenge, aud: string, nonce: string) {
      Pow.Number(sha256(c, aud, nonce)) < Pow.Number(c.profile.threshold)
    }
  }

  // A short hash: some text that is never empty.
  function UaHash(ua: string): string {
    "#" + ua
  }

  // ---------------------------------------------------------------------------
  // Which pass counts
  // ---------------------------------------------------------------------------

  ghost predicate ScopeCovers(routes: seq<Route>, p: Pass, path: string) {
    if p.kind != Paid then p.scope == SCOPE_ALL else PaidScopeCovers(routes, p.scope, path)
  }

  method Covers(routes: seq<Route>, p: Pass, path: string) returns (b: bool)
    ensures b <==> ScopeCovers(routes, p, path)
  {
    if p.kind != Paid {
      return p.scope == SCOPE_ALL;
    }
    var route := MatchRoute(routes, path);
    return route.Some? && route.value.scope == p.scope;
  }

  // A cookie that carries a live pass for this audience and, if it was solved for, this network.
  predicate Usable(signed: set<Pass>, r: Request, c: Crumb, at: int) {
    && c.name == COOKIE_NAME && Verify(signed, c.value, at).Some?
    && c.value.pass.aud == r.aud
    && (c.value.pass.kind == PoW ==> c.value.pass.ipp == r.prefix)
  }

  ghost predicate Best(signed: set<Pass>, routes: seq<Route>, r: Request, c: Crumb, at: int) {
    Usable(signed, r, c, at) && (c.value.pass.kind == PoW || ScopeCovers(routes, c.value.pass, r.path))
  }

  // Cookie k decides: the first that was solved for or covers the path; failing that, the first usable one.
  ghost predicate Decides(signed: set<Pass>, routes: seq<Route>, r: Request, at: int, n: nat, k: int)
    requires n <= |r.cookies|
  {
    && 0 <= k < n && Usable(signed, r, r.cookies[k], at)
    && if Best(signed, routes, r, r.cookies[k], at) then forall j :: 0 <= j < k ==> !Best(signed, routes, r, r.cookies[j], at)
       else && (forall j :: 0 <= j < n ==> !Best(signed, routes, r, r.cookies[j], at))
            && (forall j :: 0 <= j < k ==> !Usable(signed, r, r.cookies[j], at))
  }

  ghost predicate IsChoice(signed: set<Pass>, routes: seq<Route>, r: Request, at: int, n: nat, found: Option<Pass>)
    requires n <= |r.cookies|
  {
    if found.None? then forall k :: 0 <= k < n ==> !Usable(signed, r, r.cookies[k], at)
    else exists k :: Decides(signed, routes, r, at, n, k) && r.cookies[k].value.pass == found.value
  }

  ghost function Scan(signed: set<Pass>, routes: seq<Route>, r: Request, at: int, n: nat): (found: Option<Pass>)
    requires n <= |r.cookies|
    ensures IsChoice(signed, routes, r, at, n, found)
  {
    if n == 0 then None
    else
      var c := r.cookies[n - 1];
      var before := Scan(signed, routes, r, at, n - 1);
      if exists k :: 0 <= k < n - 1 && Best(signed, routes, r, r.cookies[k], at) then before
      else if Best(signed, routes, r, c, at) then Some(c.value.pass)
      else if before.Some? then before
      else if Usable(signed, r, c, at) then Some(c.value.pass)
      else None
  }

  ghost function Chosen(signed: set<Pass>, routes: seq<Route>, r: Request, at: int): (found: Option<Pass>)
    ensures IsChoice(signed, routes, r, at, |r.cookies|, found)
  {
    Scan(signed, routes, r, at, |r.cookies|)
  }

  lemma {:induction false} BestIsFinal(signed: set<Pass>, routes: seq<Route>, r: Request, at: int, k: nat, n: nat)
    requires k < n <= |r.cookies| && Best(signed, routes, r, r.cookies[k], at)
    requires forall j :: 0 <= j < k ==> !Best(signed, routes, r, r.cookies[j], at)
    ensures Scan(signed, routes, r, at, n) == Some(r.cookies[k].value.pass)
  {
    if n > k + 1 {
      BestIsFinal(signed, routes, r, at, k, n - 1);
    }
  }

  method ValidPassAt(signed: set<Pass>, routes: seq<Route>, r: Request, at: int) returns (found: Option<Pass>)
    ensures found == Chosen(signed, routes, r, at)
  {
    var fallback: Option<Pass> := None;
    var i := 0;
    while i < |r.cookies|
      invariant 0 <= i <= |r.cookies| && fallback == Scan(signed, routes, r, at, i)
      invariant forall j :: 0 <= j < i ==> !Best(signed, routes, r, r.cookies[j], at)
    {
      var c := r.cookies[i];
      i := i + 1;
      if c.name != COOKIE_NAME {
        continue;
      }
      var p := Verify(signed, c.value, at);
      if p.None? || p.value.aud != r.aud {
        continue;
      }
      if p.value.kind == PoW && p.value.ipp != r.prefix {
        continue;
      }
      var covers := Covers(routes, p.value, r.path);
      if p.value.kind == PoW || covers {
        BestIsFinal(signed, routes, r, at, i - 1, |r.cookies|);
        return p;
      }
      if fallback.None? {
        fallback := p;
      }
    }
    return fallback;
  }

  // The cookie opens this request.
  ghost predicate Opens(signed: set<Pass>, routes: seq<Route>, r: Request, c: Crumb, now: int) {
    Usable(signed, r, c, now) && ScopeCovers(routes, c.value.pass, r.path)
  }

  lemma BestOpens(signed: set<Pass>, routes: seq<Route>, r: Request, c: Crumb, now: int)
    ensures Best(signed, routes, r, c, now) <==> Opens(signed, routes, r, c, now)
  {
  }

  // The pass rung of the ladder. Junk, expired, foreign or narrow cookies never shadow a good one.
  method PassRung(signed: set<Pass>, routes: seq<Route>, r: Request, now: int) returns (admitted: Option<Pass>)
    ensures admitted.Some? <==> exists c :: c in r.cookies && Opens(signed, routes, r, c, now)
    ensures admitted.Some? ==> exists c :: c in r.cookies && Opens(signed, routes, r, c, now) && c.value.pass == admitted.value
  {
    var p := ValidPassAt(signed, routes, r, now);
    forall c ensures Best(signed, routes, r, c, now) <==> Opens(signed, routes, r, c, now) {
      BestOpens(signed, routes, r, c, now);
    }
    hide Usable, Best, ScopeCovers;
    if p.None? {
      assert forall c :: c in r.cookies ==> !Usable(signed, r, c, now);
      return None;
    }
    var covers := Covers(routes, p.value, r.path);
    return if covers then p else None;
  }

  // ---------------------------------------------------------------------------
  // Renewal
  // ---------------------------------------------------------------------------

  // The root admission to carry forward, if the pass entitles its holder to renew at this instant.
  function RenewRoot(g: Gate, found: Option<Pass>, at: int): Option<int> {
    if found.None? || found.value.kind != PoW || found.value.scope != SCOPE_ALL then None
    else if at - found.value.RootAt() * SECOND >= g.maxSession then None
    else Some(found.value.RootAt())
  }

  method MayRenew(g: Gate, signed: set<Pass>, r: Request, at: int) returns (root: Option<int>)
    ensures root == RenewRoot(g, Chosen(signed, g.routes, r, at), at)
  {
    var p := ValidPassAt(signed, g.routes, r, at);
    return RenewRoot(g, p, at);
  }

  // ---------------------------------------------------------------------------
  // Outcomes of an answer
  // ---------------------------------------------------------------------------

  datatype Submission = Undecodable | Answer(offer: C.Offer, nonce: string)

  datatype Outcome = MalformedAnswer | StaleAnswer | NotEntitled | BadPoW | WindowElapsed | MintRefused
                   | Granted(pass: Pass, kind: Pow.byte)
  {
    // The name it is counted under.
    function Name(): string {
      match this
      case MalformedAnswer => "malformed"
      case StaleAnswer => "stale"
      case NotEntitled => "bad_pow"
      case BadPoW => "bad_pow"
      case WindowElapsed => "window_elapsed"
      case MintRefused => "error"
      case Granted(_, kind) => if kind == C.RENEW then "ok_renew" else "ok_admit"
    }
  }

  // The pass setPassCookie builds for a solved challenge.
  function PoWPass(r: Request, deadline: int, root: Option<int>, now: int): Pass {
    Pass(PoW, SCOPE_ALL, r.aud, Unix(now), Unix(deadline), r.prefix, UaHash(r.ua),
         if root.Some? then root.value else 0, "", "")
  }

  // The whole of serveAnswer as a function of what it reads. The clock is read three times: to verify, for
  // the remaining life, and to date the pass.
  ghost function OutcomeOf(g: Gate, issued: set<C.Issued>, signed: set<Pass>, r: Request, sub: Submission,
                           t1: int, t2: int, t3: int): Outcome
  {
    if sub.Undecodable? then MalformedAnswer
    else match C.Verify(issued, sub.offer, r.aud, t1)
      case Err(e) => if e == C.Stale then StaleAnswer else MalformedAnswer
      case Ok(c) =>
        var root := if c.profile.kind == C.RENEW then RootFor(g, signed, r, c) else None;
        if c.profile.kind == C.RENEW && root.None? then NotEntitled
        else if !g.Solves(c, r.aud, sub.nonce) then BadPoW
        else if c.Deadline() - t2 <= 0 then WindowElapsed
        else
          var p := PoWPass(r, c.Deadline(), root, t3);
          if p.Valid() then Granted(p, c.profile.kind) else MintRefused
  }

  // Entitlement is judged at the instant the challenge was issued.
  ghost function RootFor(g: Gate, signed: set<Pass>, r: Request, c: C.Challenge): Option<int> {
    RenewRoot(g, Chosen(signed, g.routes, r, c.IssuedAt()), c.IssuedAt())
  }

  // ---------------------------------------------------------------------------
  // The endpoints
  // ---------------------------------------------------------------------------

  // What happened at a mint: the challenge, its solution, and the pass presented if it was a renewal.
  datatype Minted = Minted(pass: Pass, challenge: C.Challenge, nonce: string, at: int, parent: Option<Pass>)

  datatype World = World(now: int, issued: set<C.Issued>, signed: set<Pass>, mints: seq<Minted>,
                         offered: multiset<Pow.byte>, answers: multiset<string>, minted: nat)

  datatype Reply = Reply(challenge: C.Challenge, kind: Pow.byte, deadlineMs: int)

  const MILLISECOND: int := 1_000_000

  // The deadline as a client is told it.
  function AdvertisedMs(c: C.Challenge): int {
    c.Deadline() / MILLISECOND
  }

  ghost function ProfileFor(g: Gate, signed: set<Pass>, r: Request, now: int): C.Profile {
    if RenewRoot(g, Chosen(signed, g.routes, r, now), now).Some? then g.renew else g.admit
  }

  ghost function Challenged(g: Gate, w: World, r: Request, now: int, rand: seq<Pow.byte>): World {
    var profile := ProfileFor(g, w.signed, r, now);
    w.(now := now, issued := w.issued + {C.Issued(C.Challenge(Unix(now), rand, profile), r.aud)},
       offered := w.offered + multiset{profile.kind})
  }

  ghost function Answered(g: Gate, w: World, r: Request, sub: Submission, t1: int, t2: int, t3: int): World {
    var out := OutcomeOf(g, w.issued, w.signed, r, sub, t1, t2, t3);
    var noted := w.(now := t3, answers := w.answers + multiset{out.Name()});
    if out.Granted? then
      var c := sub.offer.challenge;
      noted.(signed := w.signed + {out.pass}, minted := w.minted + 1,
             mints := w.mints + [Minted(out.pass, c, sub.nonce, t3, ParentOf(g, w.signed, r, c))])
    else noted
  }

  ghost function ParentOf(g: Gate, signed: set<Pass>, r: Request, c: C.Challenge): Option<Pass> {
    if c.profile.kind == C.RENEW then Chosen(signed, g.routes, r, c.IssuedAt()) else None
  }

  class Endpoints {
    const gate: Gate
    var clock: int
    var issued: set<C.Issued>         // the challenge MACs that exist
    var signed: set<Pass>             // the pass MACs that exist
    var offered: multiset<Pow.byte>   // counters
    var answers: multiset<string>
    var minted: nat
    ghost var mints: seq<Minted>

    ghost function State(): World
      reads this
    {
      World(clock, issued, signed, mints, offered, answers, minted)
    }

    constructor (gate: Gate, now: int)
      ensures this.gate == gate && State() == Start(now)
    {
      this.gate, clock := gate, now;
      issued, signed, offered, answers, minted, mints := {}, {}, multiset{}, multiset{}, 0, [];
    }

    method ServeChallenge(r: Request, now: int, rand: seq<Pow.byte>) returns (reply: Reply)
      requires gate.Valid()
      modifies this
      ensures State() == Challenged(gate, old(State()), r, now, rand)
      ensures C.Issued(reply.challenge, r.aud) in issued && reply.challenge.ts == Unix(now)
      ensures reply.kind == reply.challenge.profile.kind
      ensures reply.deadlineMs == AdvertisedMs(reply.challenge)
    {
      var profile := gate.admit;
      var root := MayRenew(gate, signed, r, now);
      if root.Some? {
        profile := gate.renew;
      }
      var c := C.Issue(now, rand, profile);
      issued := issued + {C.Issued(c.value, r.aud)};
      offered := offered + multiset{profile.kind};
      clock := now;
      return Reply(c.value, profile.kind, (c.value.IssuedAt() + profile.ttl) / MILLISECOND);
    }

    // The checks, in order; the pass is only signed once all have passed.
    method Judge(r: Request, sub: Submission, t1: int, t2: int, t3: int) returns (out: Outcome)
      ensures out == OutcomeOf(gate, issued, signed, r, sub, t1, t2, t3)
    {
      hide C.Verify, RenewRoot, Chosen, PoWPass, Pow.Number, Pass.Valid;
      if sub.Undecodable? {
        return MalformedAnswer;
      }
      var v := C.Verify(issued, sub.offer, r.aud, t1);
      if v.Err? {
        return if v.error == C.Stale then StaleAnswer else MalformedAnswer;
      }
      var c := v.value;
      var root: Option<int> := None;
      if c.profile.kind == C.RENEW {
        root := MayRenew(gate, signed, r, c.IssuedAt());
        if root.None? {
          return NotEntitled;
        }
      }
      var ok := Pow.CheckPoW(gate.sha256(c, r.aud, sub.nonce), c.profile.threshold);
      if !ok {
        return BadPoW;
      }
      var remaining := c.Deadline() - t2;
      if remaining <= 0 {
        return WindowElapsed;
      }
      var p := PoWPass(r, c.Deadline(), root, t3);
      return if p.Valid() then Granted(p, c.profile.kind) else MintRefused;
    }

    method ServeAnswer(r: Request, sub: Submission, t1: int, t2: int, t3: int) returns (out: Outcome)
      modifies this
      ensures out == OutcomeOf(gate, old(issued), old(signed), r, sub, t1, t2, t3)
      ensures State() == Answered(gate, old(State()), r, sub, t1, t2, t3)
    {
      out := Judge(r, sub, t1, t2, t3);
      clock := t3;
      answers := answers + multiset{out.Name()};
      if out.Granted? {
        mints := mints + [Minted(out.pass, sub.offer.challenge, sub.nonce, t3, ParentOf(gate, signed, r, sub.offer.challenge))];
        signed := signed + {out.pass};
        minted := minted + 1;
      }
    }
  }

  // ---------------------------------------------------------------------------
  // Runs
  // ---------------------------------------------------------------------------

  function Start(now: int): World {
    World(now, {}, {}, [], multiset{}, multiset{}, 0)
  }

  // Anyone may ask for challenges and submit anything at any time; the pay door signs paid passes.
  datatype Event = Ask(r: Request, at: int, rand: seq<Pow.byte>)
                 | Submit(r: Request, sub: Submission, t1: int, t2: int, t3: int)
                 | Sell(pass: Pass, at: int)

  // One clock, which does not run backwards. Events stand in the order of the readings that date what they sign;
  // an answer may have begun before events that it stands behind, so answers overlap freely.
  predicate Legal(w: World, e: Event) {
    match e
    case Ask(_, at, _) => w.now <= at
    case Submit(_, _, t1, t2, t3) => t1 <= t2 <= t3 && w.now <= t3
    case Sell(pass, at) => w.now <= at && pass.kind == Paid && pass.Valid() && pass.iat <= Unix(at)
  }

  ghost function After(g: Gate, w: World, e: Event): World {
    match e
    case Ask(r, at, rand) => Challenged(g, w, r, at, rand)
    case Submit(r, sub, t1, t2, t3) => Answered(g, w, r, sub, t1, t2, t3)
    case Sell(pass, at) => w.(now := at, signed := w.signed + {pass})
  }

  ghost predicate Follows(g: Gate, w: World, e: Event, w': World) {
    Legal(w, e) && w' == After(g, w, e)
  }

  // A run passes through the worlds ws by the events es, from a gate that has signed nothing.
  ghost predicate IsRun(g: Gate, ws: seq<World>, es: seq<Event>) {
    && |ws| == |es| + 1 && ws[0] == Start(ws[0].now)
    && forall k {:trigger es[k]} :: 0 <= k < |es| ==> Follows(g, ws[k], es[k], ws[k + 1])
  }

  // ---------------------------------------------------------------------------
  // What every reachable world keeps
  // ---------------------------------------------------------------------------

  // Mint i of a run is the admission that mint a is, or renews a pass that descends from it.
  ghost predicate Descends(mints: seq<Minted>, i: int, a: int)
    requires 0 <= i < |mints|
    decreases i
  {
    if mints[i].parent.None? then i == a
    else exists j :: 0 <= j < i && mints[j].pass == mints[i].parent.value && Descends(mints, j, a)
  }

  // Every mint was paid for at the threshold of its own kind, and a renewal within the session of the root
  // it inherits.
  ghost predicate Lineage(g: Gate, w: World, i: int)
    requires 0 <= i < |w.mints|
  {
    var m := w.mints[i];
    && m.pass in w.signed && m.pass.kind == PoW && m.pass.Valid()
    && C.Issued(m.challenge, m.pass.aud) in w.issued && g.Solves(m.challenge, m.pass.aud, m.nonce)
    && m.pass.iat == Unix(m.at) && m.challenge.IssuedAt() <= m.at <= w.now
    && m.pass.exp == Unix(m.challenge.Deadline())
    && if m.parent.None? then m.challenge.profile == g.admit && m.pass.rt == 0
       else && m.challenge.profile == g.renew
            && m.pass.RootAt() == m.parent.value.RootAt()
            && m.challenge.IssuedAt() - m.pass.RootAt() * SECOND < g.maxSession
            && m.parent.value.kind == PoW && m.parent.value.aud == m.pass.aud
            && exists j :: 0 <= j < i && w.mints[j].pass == m.parent.value
  }

  ghost predicate Sound(g: Gate, w: World) {
    && (forall x :: x in w.issued ==>
          (x.challenge.profile == g.admit || x.challenge.profile == g.renew) && x.challenge.IssuedAt() <= w.now)
    && (forall p :: p in w.signed ==> p.Valid() && p.iat <= Unix(w.now))
    && (forall p :: p in w.signed && p.kind == PoW ==> exists i :: 0 <= i < |w.mints| && w.mints[i].pass == p)
    && (forall i :: 0 <= i < |w.mints| ==> Lineage(g, w, i))
    && w.minted == |w.mints| == w.answers["ok_admit"] + w.answers["ok_renew"]
  }

  lemma ChosenIsSigned(signed: set<Pass>, routes: seq<Route>, r: Request, at: int)
    ensures var found := Chosen(signed, routes, r, at);
            found.Some? ==> found.value in signed && found.value.Valid()
  {
    var found := Chosen(signed, routes, r, at);
    if found.Some? {
      var k :| Decides(signed, routes, r, at, |r.cookies|, k) && r.cookies[k].value.pass == found.value;
    }
  }

  lemma AskKeepsSound(g: Gate, w: World, r: Request, at: int, rand: seq<Pow.byte>)
    requires g.Valid() && Sound(g, w) && w.now <= at
    ensures Sound(g, Challenged(g, w, r, at, rand))
  {
    var w' := Challenged(g, w, r, at, rand);
    forall i | 0 <= i < |w'.mints| ensures Lineage(g, w', i) {
      assert Lineage(g, w, i);
    }
  }

  lemma SellKeepsSound(g: Gate, w: World, e: Event)
    requires g.Valid() && Sound(g, w) && Legal(w, e) && e.Sell?
    ensures Sound(g, After(g, w, e))
  {
    var w' := After(g, w, e);
    forall i | 0 <= i < |w'.mints| ensures Lineage(g, w', i) {
      assert Lineage(g, w, i);
    }
  }

  // What a granted answer adds to the ledger.
  lemma GrantedMint(g: Gate, w: World, r: Request, sub: Submission, t1: int, t2: int, t3: int)
    requires g.Valid() && Sound(g, w) && t1 <= t2 <= t3 && w.now <= t3
    requires OutcomeOf(g, w.issued, w.signed, r, sub, t1, t2, t3).Granted?
    ensures Lineage(g, Answered(g, w, r, sub, t1, t2, t3), |w.mints|)
  {
    var c := sub.offer.challenge;
    var w' := Answered(g, w, r, sub, t1, t2, t3);
    assert C.Issued(c, r.aud) in w.issued;
    if c.profile.kind == C.RENEW {
      ChosenIsSigned(w.signed, g.routes, r, c.IssuedAt());
      var parent := Chosen(w.signed, g.routes, r, c.IssuedAt()).value;
      var j :| 0 <= j < |w.mints| && w.mints[j].pass == parent;
      assert w'.mints[j].pass == parent;
    }
  }

  lemma AnswerKeepsSound(g: Gate, w: World, r: Request, sub: Submission, t1: int, t2: int, t3: int)
    requires g.Valid() && Sound(g, w) && t1 <= t2 <= t3 && w.now <= t3
    ensures Sound(g, Answered(g, w, r, sub, t1, t2, t3))
  {
    hide OutcomeOf, ParentOf;
    var w' := Answered(g, w, r, sub, t1, t2, t3);
    var out := OutcomeOf(g, w.issued, w.signed, r, sub, t1, t2, t3);
    if out.Granted? {
      GrantedMint(g, w, r, sub, t1, t2, t3);
      assert w'.mints[|w.mints|].pass == out.pass;
    }
    forall i | 0 <= i < |w'.mints| ensures Lineage(g, w', i) {
      if i < |w.mints| {
        assert Lineage(g, w, i);
        LineageStays(g, w, w', i);
      }
    }
    forall p | p in w'.signed && p.kind == PoW ensures exists i :: 0 <= i < |w'.mints| && w'.mints[i].pass == p {
      if p in w.signed {
        var i :| 0 <= i < |w.mints| && w.mints[i].pass == p;
        assert w'.mints[i].pass == p;
      }
    }
  }

  lemma LineageStays(g: Gate, w: World, w': World, i: int)
    requires 0 <= i < |w.mints| && Lineage(g, w, i)
    requires w.mints <= w'.mints && w.signed <= w'.signed && w.issued <= w'.issued && w.now <= w'.now
    ensures Lineage(g, w', i)
  {
  }

  lemma {:induction false} RunIsSound(g: Gate, ws: seq<World>, es: seq<Event>, n: nat)
    requires g.Valid() && IsRun(g, ws, es) && n <= |es|
    ensures Sound(g, ws[n])
  {
    if n > 0 {
      RunIsSound(g, ws, es, n - 1);
      var w := ws[n - 1];
      assert Follows(g, w, es[n - 1], ws[n]);
      match es[n - 1]
      case Ask(r, at, rand) => AskKeepsSound(g, w, r, at, rand);
      case Submit(r, sub, t1, t2, t3) => AnswerKeepsSound(g, w, r, sub, t1, t2, t3);
      case Sell(_, _) => SellKeepsSound(g, w, es[n - 1]);
    }
  }

  // ---------------------------------------------------------------------------
  // The session cap
  // ---------------------------------------------------------------------------

  lemma {:induction false} RootAdmission(g: Gate, w: World, i: int) returns (a: int)
    requires Sound(g, w) && 0 <= i < |w.mints|
    ensures 0 <= a <= i && w.mints[a].parent.None? && Descends(w.mints, i, a)
    ensures w.mints[i].pass.RootAt() == w.mints[a].pass.iat
    decreases i
  {
    assert Lineage(g, w, i);
    if w.mints[i].parent.None? {
      return i;
    }
    var j :| 0 <= j < i && w.mints[j].pass == w.mints[i].parent.value;
    a := RootAdmission(g, w, j);
  }

  // Pass p goes back to one admission, solved at the admission threshold, whose time it carries as its root;
  // it ends within the session and one pass life of that root, and of the issue of the admission challenge
  // within one more.
  ghost predicate Capped(g: Gate, w: World, p: Pass, i: int, a: int) {
    && 0 <= a <= i < |w.mints| && w.mints[i].pass == p && Descends(w.mints, i, a)
    && w.mints[a].challenge.profile == g.admit
    && g.Solves(w.mints[a].challenge, p.aud, w.mints[a].nonce)
    && p.RootAt() == w.mints[a].pass.iat
    && p.exp * SECOND < p.RootAt() * SECOND + g.maxSession + g.admit.ttl
    && p.exp * SECOND < w.mints[a].challenge.IssuedAt() + g.maxSession + 2 * g.admit.ttl
  }

  lemma {:induction false} OneAudience(g: Gate, w: World, i: int, a: int)
    requires Sound(g, w) && 0 <= i < |w.mints| && Descends(w.mints, i, a)
    ensures 0 <= a <= i && w.mints[i].pass.aud == w.mints[a].pass.aud
    decreases i
  {
    assert Lineage(g, w, i);
    if w.mints[i].parent.Some? {
      var j :| 0 <= j < i && w.mints[j].pass == w.mints[i].parent.value && Descends(w.mints, j, a);
      OneAudience(g, w, j, a);
    }
  }

  lemma SessionIsCapped(g: Gate, ws: seq<World>, es: seq<Event>, n: nat, p: Pass)
    requires g.Valid() && IsRun(g, ws, es) && n <= |es|
    requires p in ws[n].signed && p.kind == PoW
    ensures exists i, a :: Capped(g, ws[n], p, i, a)
  {
    var w := ws[n];
    RunIsSound(g, ws, es, n);
    var i :| 0 <= i < |w.mints| && w.mints[i].pass == p;
    var a := RootAdmission(g, w, i);
    OneAudience(g, w, i, a);
    assert Lineage(g, w, i) && Lineage(g, w, a);
    var m, adm := w.mints[i], w.mints[a];
    Floor(m.challenge.Deadline());
    Floor(adm.challenge.Deadline());
    Floor(adm.at);
    assert Capped(g, w, p, i, a);
  }

  lemma Floor(x: int)
    ensures Unix(x) * SECOND <= x < Unix(x) * SECOND + SECOND
  {
  }

  // ---------------------------------------------------------------------------
  // The advertised deadline is the enforced one
  // ---------------------------------------------------------------------------

  // A client that does everything right: it can be resolved, it names the site, it presents a challenge of
  // this site with a solution, and for a renewal the pass that entitles it.
  ghost predicate Correct(g: Gate, w: World, r: Request, c: C.Challenge, nonce: string) {
    && r.aud != "" && r.prefix != ""
    && C.Issued(c, r.aud) in w.issued && c.ts > 0
    && g.Solves(c, r.aud, nonce)
    && (c.profile.kind == C.RENEW ==> RootFor(g, w.signed, r, c).Some?)
  }

  // In every reachable world a correct answer is granted exactly when its pass would outlive the second it is
  // dated in, and the pass is accepted from then until its expiry.
  lemma DeadlineInSeconds(g: Gate, w: World, r: Request, c: C.Challenge, nonce: string, t1: int, t2: int, t3: int)
    requires g.Valid() && Sound(g, w) && Correct(g, w, r, c, nonce)
    requires c.IssuedAt() <= t1 <= t2 <= t3 && w.now <= t3
    ensures var out := OutcomeOf(g, w.issued, w.signed, r, Answer(C.Offer(c), nonce), t1, t2, t3);
            && (out.Granted? <==> Unix(t3) < Unix(c.Deadline()))
            && (out.Granted? ==> out.pass.exp == Unix(c.Deadline()) && AcceptedUntil(out.pass, t3, Unix(c.Deadline())))
  {
    Floor(t3);
    Floor(c.Deadline());
    var root := RootFor(g, w.signed, r, c);
    if c.profile.kind == C.RENEW {
      ChosenIsSigned(w.signed, g.routes, r, c.IssuedAt());
    }
    if Unix(t3) < Unix(c.Deadline()) {
      var p := PoWPass(r, c.Deadline(), if c.profile.kind == C.RENEW then root else None, t3);
      UnixGrows(c.IssuedAt(), t3);
      UnixGrows(w.now, t3);
      assert p.Valid();
      assert C.Verify(w.issued, C.Offer(c), r.aud, t1) == Ok(c);
      forall at, c: Cookie, signed: set<Pass> | t3 <= at && c == Signed(p) && p in signed
        ensures Verify(signed, c, at) == if Unix(at) < p.exp then Some(p) else None
      {
        UnixGrows(t3, at + CLOCK_SKEW);
      }
    }
  }

  // Whoever signs it, a pass dated t is accepted from t on until the second it expires in, and not after.
  ghost predicate AcceptedUntil(p: Pass, t: int, exp: int) {
    forall at, signed: set<Pass> :: t <= at && p in signed ==>
      Verify(signed, Signed(p), at) == if Unix(at) < exp then Some(p) else None
  }

  lemma UnixGrows(a: int, b: int)
    requires a <= b
    ensures Unix(a) <= Unix(b)
  {
  }

  lemma WholeSeconds(c: C.Challenge, at: int)
    requires c.profile.ttl % SECOND == 0
    ensures Unix(at) < Unix(c.Deadline()) <==> at < c.Deadline()
    ensures AdvertisedMs(c) * MILLISECOND == c.Deadline()
  {
    assert c.profile.ttl == c.profile.ttl / SECOND * SECOND;
    WholeBoundary(c.ts + c.profile.ttl / SECOND, at);
  }

  lemma WholeBoundary(k: int, at: int)
    ensures Unix(at) < Unix(k * SECOND) <==> at < k * SECOND
    ensures k * SECOND / MILLISECOND * MILLISECOND == k * SECOND
  {
    assert k * SECOND / MILLISECOND == 1000 * k;
    assert Unix(k * SECOND) == k;
    Floor(at);
  }

  // After any run: with a pass_ttl of whole seconds a correct answer is granted before the advertised deadline
  // and never at or after it, and its pass admits until that same instant.
  lemma DeadlineIsExact(g: Gate, ws: seq<World>, es: seq<Event>, n: nat, r: Request, c: C.Challenge, nonce: string,
                        t1: int, t2: int, t3: int)
    requires g.Valid() && IsRun(g, ws, es) && n <= |es|
    requires Correct(g, ws[n], r, c, nonce) && c.IssuedAt() <= t1 <= t2 <= t3 && ws[n].now <= t3
    requires c.profile.ttl % SECOND == 0
    ensures var out := OutcomeOf(g, ws[n].issued, ws[n].signed, r, Answer(C.Offer(c), nonce), t1, t2, t3);
            && (out.Granted? <==> t3 < AdvertisedMs(c) * MILLISECOND)
            && (out.Granted? ==> forall at, signed: set<Pass> :: t3 <= at && out.pass in signed ==>
                  (Verify(signed, Signed(out.pass), at).Some? <==> at < AdvertisedMs(c) * MILLISECOND))
  {
    RunIsSound(g, ws, es, n);
    DeadlineInSeconds(g, ws[n], r, c, nonce, t1, t2, t3);
    WholeSeconds(c, t3);
    forall at ensures Unix(at) < Unix(c.Deadline()) <==> at < c.Deadline() {
      WholeSeconds(c, at);
    }
  }

  // With any other pass_ttl the last part-second of the window is advertised and refused.
  lemma PartSecondIsRefused(g: Gate, ws: seq<World>, es: seq<Event>, n: nat, r: Request, c: C.Challenge, nonce: string, t: int)
    requires g.Valid() && IsRun(g, ws, es) && n <= |es|
    requires ws[n].now <= t && Correct(g, ws[n], r, c, nonce)
    requires c.profile.ttl % SECOND != 0 && c.Deadline() - c.Deadline() % SECOND <= t < c.Deadline()
    ensures OutcomeOf(g, ws[n].issued, ws[n].signed, r, Answer(C.Offer(c), nonce), t, t, t) == MintRefused
  {
    RunIsSound(g, ws, es, n);
    DeadlineInSeconds(g, ws[n], r, c, nonce, t, t, t);
    assert C.Verify(ws[n].issued, C.Offer(c), r.aud, t) == Ok(c);
  }

  // ---------------------------------------------------------------------------
  // A renewal challenge keeps its promise
  // ---------------------------------------------------------------------------

  // Cookie j is the first that was solved for or covers the path.
  ghost predicate FirstBest(g: Gate, signed: set<Pass>, r: Request, j: int, at: int) {
    && 0 <= j < |r.cookies| && Best(signed, g.routes, r, r.cookies[j], at)
    && forall i :: 0 <= i < j ==> !Best(signed, g.routes, r, r.cookies[i], at)
  }

  lemma {:induction false} SomeFirstBest(g: Gate, signed: set<Pass>, r: Request, k: nat, at: int) returns (j: nat)
    requires k < |r.cookies| && Best(signed, g.routes, r, r.cookies[k], at)
    ensures j <= k && FirstBest(g, signed, r, j, at)
  {
    hide Best;
    if i :| 0 <= i < k && Best(signed, g.routes, r, r.cookies[i], at) {
      j := SomeFirstBest(g, signed, r, i, at);
    } else {
      j := k;
    }
  }

  // A solved pass, less than max_session after its root.
  predicate WithinSession(g: Gate, p: Pass, at: int) {
    p.kind == PoW && at < p.RootAt() * SECOND + g.maxSession
  }

  // A request is entitled to renew exactly when its first best cookie is a solved pass within its session; that
  // pass's root is carried forward.
  lemma RenewableIff(g: Gate, signed: set<Pass>, r: Request, at: int)
    ensures var root := RenewRoot(g, Chosen(signed, g.routes, r, at), at);
            && (root.Some? <==> exists j :: FirstBest(g, signed, r, j, at) && WithinSession(g, r.cookies[j].value.pass, at))
            && forall j :: FirstBest(g, signed, r, j, at) ==>
                 var p := r.cookies[j].value.pass;
                 root == if WithinSession(g, p, at) then Some(p.RootAt()) else None
  {
    forall j | FirstBest(g, signed, r, j, at)
      ensures Chosen(signed, g.routes, r, at) == Some(r.cookies[j].value.pass)
    {
      BestIsFinal(signed, g.routes, r, at, j, |r.cookies|);
    }
    var found := Chosen(signed, g.routes, r, at);
    if found.Some? {
      var k :| Decides(signed, g.routes, r, at, |r.cookies|, k) && r.cookies[k].value.pass == found.value;
      if Best(signed, g.routes, r, r.cookies[k], at) {
        var j := SomeFirstBest(g, signed, r, k, at);
      }
    }
  }

  // So is a renewal answer, as of the instant its challenge was issued.
  lemma EntitledIff(g: Gate, signed: set<Pass>, r: Request, c: C.Challenge)
    ensures RootFor(g, signed, r, c).Some? <==>
              exists j :: FirstBest(g, signed, r, j, c.IssuedAt()) && WithinSession(g, r.cookies[j].value.pass, c.IssuedAt())
    ensures forall j :: FirstBest(g, signed, r, j, c.IssuedAt()) ==>
              var p := r.cookies[j].value.pass;
              RootFor(g, signed, r, c) == if WithinSession(g, p, c.IssuedAt()) then Some(p.RootAt()) else None
  {
    hide FirstBest, WithinSession, RenewRoot, Chosen;
    RenewableIff(g, signed, r, c.IssuedAt());
  }

  predicate Presents(r: Request, p: Pass, k: int) {
    0 <= k < |r.cookies| && r.cookies[k] == Crumb(COOKIE_NAME, Signed(p))
  }

  // A pass that earned a renewal challenge still counts when it is presented with the answer, from the same
  // network and to the same site: also when it has lapsed since, and whatever has been signed since.
  lemma EarnedPassStillCounts(g: Gate, before: set<Pass>, asked: Request, now: int, p: Pass,
                              after: set<Pass>, r: Request, k: int, c: C.Challenge)
    requires Chosen(before, g.routes, asked, now) == Some(p) && RenewRoot(g, Some(p), now).Some?
    requires before <= after && r.aud == asked.aud && r.prefix == asked.prefix
    requires c.ts == Unix(now) && Presents(r, p, k)
    ensures Best(after, g.routes, r, r.cookies[k], c.IssuedAt())
    ensures RenewRoot(g, Some(p), c.IssuedAt()) == RenewRoot(g, Some(p), now)
  {
    var j :| Decides(before, g.routes, asked, now, |asked.cookies|, j) && asked.cookies[j].value.pass == p;
    Floor(now);
    assert Unix(c.IssuedAt()) == Unix(now);
    assert Unix(c.IssuedAt() + CLOCK_SKEW) == Unix(now) + 60 == Unix(now + CLOCK_SKEW);
  }

  // Nothing signed is ever unsigned.
  lemma {:induction false} OnlyGrows(g: Gate, ws: seq<World>, es: seq<Event>, m: nat, n: nat)
    requires IsRun(g, ws, es) && m <= n <= |es|
    ensures ws[m].signed <= ws[n].signed && ws[m].issued <= ws[n].issued
  {
    if m < n {
      OnlyGrows(g, ws, es, m, n - 1);
      assert Follows(g, ws[n - 1], es[n - 1], ws[n]);
      StepGrows(g, ws[n - 1], es[n - 1]);
    }
  }

  lemma StepGrows(g: Gate, w: World, e: Event)
    ensures w.signed <= After(g, w, e).signed && w.issued <= After(g, w, e).issued
  {
  }

  // The challenge a renewable pass earned at event m of a run is answered after any number of further events by
  // a request that presents that pass. Among its cookies some first best one stands no later than the pass, and
  // it alone decides: an answer in time is refused for want of entitlement exactly when that cookie is no solved
  // pass within its session. When it is the presented pass itself, the answer is never so refused and the pass it
  // buys has the same root.
  lemma RenewalIsRefusedIff(g: Gate, ws: seq<World>, es: seq<Event>, m: nat, n: nat, p: Pass, r: Request, k: int,
                            nonce: string, t1: int, t2: int, t3: int)
    requires IsRun(g, ws, es) && g.Valid() && m < n <= |es| && es[m].Ask?
    requires Chosen(ws[m].signed, g.routes, es[m].r, es[m].at) == Some(p)
    requires RenewRoot(g, Some(p), es[m].at).Some?
    requires r.aud == es[m].r.aud && r.prefix == es[m].r.prefix && Presents(r, p, k)
    ensures var c := C.Challenge(Unix(es[m].at), es[m].rand, g.renew);
            var out := OutcomeOf(g, ws[n].issued, ws[n].signed, r, Answer(C.Offer(c), nonce), t1, t2, t3);
            && C.Issued(c, r.aud) in ws[n].issued
            && (g.Solves(c, r.aud, nonce) ==> out != BadPoW)
            && (exists j :: j <= k && FirstBest(g, ws[n].signed, r, j, c.IssuedAt()) &&
                  var decisive := r.cookies[j].value.pass;
                  && (out == NotEntitled <==> C.InTime(c, t1) && !WithinSession(g, decisive, c.IssuedAt()))
                  && (out.Granted? ==> out.pass.RootAt() == decisive.RootAt()))
            && (FirstBest(g, ws[n].signed, r, k, c.IssuedAt()) ==>
                  out != NotEntitled && (out.Granted? ==> out.pass.RootAt() == p.RootAt()))
  {
    var c := C.Challenge(Unix(es[m].at), es[m].rand, g.renew);
    assert Follows(g, ws[m], es[m], ws[m + 1]);
    assert C.Issued(c, r.aud) in ws[m + 1].issued;
    OnlyGrows(g, ws, es, m, n);
    OnlyGrows(g, ws, es, m + 1, n);
    EarnedPassStillCounts(g, ws[m].signed, es[m].r, es[m].at, p, ws[n].signed, r, k, c);
    var j := SomeFirstBest(g, ws[n].signed, r, k, c.IssuedAt());
    DecisiveCookie(g, ws[n], r, c, nonce, j, t1, t2, t3);
    if FirstBest(g, ws[n].signed, r, k, c.IssuedAt()) {
      DecisiveCookie(g, ws[n], r, c, nonce, k, t1, t2, t3);
    }
  }

  lemma DecisiveCookie(g: Gate, w: World, r: Request, c: C.Challenge, nonce: string, j: int, t1: int, t2: int, t3: int)
    requires C.Issued(c, r.aud) in w.issued && c.profile.kind == C.RENEW
    requires FirstBest(g, w.signed, r, j, c.IssuedAt())
    ensures var out := OutcomeOf(g, w.issued, w.signed, r, Answer(C.Offer(c), nonce), t1, t2, t3);
            var decisive := r.cookies[j].value.pass;
            && (out == NotEntitled <==> C.InTime(c, t1) && !WithinSession(g, decisive, c.IssuedAt()))
            && (out.Granted? ==> out.pass.RootAt() == decisive.RootAt())
  {
    EntitledIff(g, w.signed, r, c);
    assert r.cookies[j].value.pass.Valid();
  }

  // ---------------------------------------------------------------------------
  // The refusal does happen
  // ---------------------------------------------------------------------------

  // A gate whose passes live ten seconds and whose sessions last ten seconds, with work that is always done.
  function SmallGate(): (g: Gate)
    ensures g.Valid()
  {
    var top: Pow.Word := seq(Pow.WORD_LEN, _ => 0xff);
    var zero: Pow.Word := seq(Pow.WORD_LEN, _ => 0);
    Gate(C.Profile(C.ADMIT, 10 * SECOND, top), C.Profile(C.RENEW, 10 * SECOND, top), 10 * SECOND, [], (_, _, _) => zero)
  }

  lemma SmallGateSolves(c: C.Challenge, aud: string, nonce: string)
    requires c.profile == SmallGate().admit || c.profile == SmallGate().renew
    ensures SmallGate().Solves(c, aud, nonce)
  {
    Pow.FirstDifference(SmallGate().sha256(c, aud, nonce), c.profile.threshold, 0);
  }

  function Jar(ps: seq<Pass>): (cs: seq<Crumb>)
    ensures |cs| == |ps| && forall i :: 0 <= i < |ps| ==> cs[i] == Crumb(COOKIE_NAME, Signed(ps[i]))
  {
    seq(|ps|, i requires 0 <= i < |ps| => Crumb(COOKIE_NAME, Signed(ps[i])))
  }

  // The visitor, with these passes for cookies in this order.
  function Visit(ps: seq<Pass>): Request {
    Request("site", "net", "ua", "/", Jar(ps))
  }

  function ChallengeAt(ts: int, profile: C.Profile): C.Challenge {
    C.Challenge(ts, seq(C.RAND_LEN, _ => 0), profile)
  }

  function AskAt(ps: seq<Pass>, ts: int): Event {
    Ask(Visit(ps), ts * SECOND, seq(C.RAND_LEN, _ => 0))
  }

  function AnswerAt(ps: seq<Pass>, c: C.Challenge): Event {
    Submit(Visit(ps), Answer(C.Offer(c), "n"), c.IssuedAt(), c.IssuedAt(), c.IssuedAt())
  }

  // A pass of the visitor, dated and expiring at these seconds, of a session begun at root if that is not 0.
  function PassAt(iat: int, exp: int, root: int): Pass {
    Pass(PoW, SCOPE_ALL, "site", iat, exp, "net", UaHash("ua"), root, "", "")
  }

  predicate LiveAt(p: Pass, ts: int) {
    p == PassAt(p.iat, p.exp, p.rt) && 0 < p.iat <= ts < p.exp && 0 <= p.rt <= p.iat
  }

  lemma LiveIsBest(g: Gate, signed: set<Pass>, ps: seq<Pass>, i: nat, ts: int)
    requires i < |ps| && ps[i] in signed && LiveAt(ps[i], ts)
    ensures Best(signed, g.routes, Visit(ps), Visit(ps).cookies[i], ts * SECOND)
  {
    WholeBoundary(ts, ts * SECOND);
    assert Unix(ts * SECOND + CLOCK_SKEW) >= ts;
  }

  // A live pass in front decides.
  lemma FrontDecides(g: Gate, signed: set<Pass>, ps: seq<Pass>, ts: int)
    requires ps != [] && ps[0] in signed && LiveAt(ps[0], ts)
    ensures Chosen(signed, g.routes, Visit(ps), ts * SECOND) == Some(ps[0])
    ensures FirstBest(g, signed, Visit(ps), 0, ts * SECOND)
  {
    LiveIsBest(g, signed, ps, 0, ts);
    BestIsFinal(signed, g.routes, Visit(ps), ts * SECOND, 0, |ps|);
  }

  lemma Asked(g: Gate, w: World, ps: seq<Pass>, ts: int, profile: C.Profile)
    requires profile == if ps == [] then g.admit else g.renew
    requires ps != [] ==> ps[0] in w.signed && LiveAt(ps[0], ts) && ts * SECOND - ps[0].RootAt() * SECOND < g.maxSession
    ensures var w' := After(g, w, AskAt(ps, ts));
            && w'.now == ts * SECOND && w'.signed == w.signed && w.issued <= w'.issued
            && C.Issued(ChallengeAt(ts, profile), "site") in w'.issued
  {
    WholeBoundary(ts, ts * SECOND);
    if ps == [] {
      assert Chosen(w.signed, g.routes, Visit(ps), ts * SECOND) == None;
    } else {
      FrontDecides(g, w.signed, ps, ts);
    }
  }

  // The visitor answers a challenge of this second, presenting what it takes, and gets a pass.
  lemma Granting(w: World, ps: seq<Pass>, ts: int, profile: C.Profile, root: int)
    requires C.Issued(ChallengeAt(ts, profile), "site") in w.issued && 0 <= root <= ts && ts > 0
    requires if profile.kind == C.RENEW then
               && profile == SmallGate().renew && ps != [] && ps[0] in w.signed && LiveAt(ps[0], ts)
               && root == ps[0].RootAt() && ts * SECOND - root * SECOND < 10 * SECOND
             else profile == SmallGate().admit && root == 0
    ensures var g, c, p := SmallGate(), ChallengeAt(ts, profile), PassAt(ts, ts + 10, root);
            var at := ts * SECOND;
            && OutcomeOf(g, w.issued, w.signed, Visit(ps), Answer(C.Offer(c), "n"), at, at, at) == Granted(p, profile.kind)
            && var w' := After(g, w, AnswerAt(ps, c));
               w'.now == ts * SECOND && w.signed + {p} == w'.signed && w.issued == w'.issued
  {
    var g, c := SmallGate(), ChallengeAt(ts, profile);
    SmallGateSolves(c, "site", "n");
    WholeBoundary(ts, ts * SECOND);
    WholeBoundary(ts + 10, c.Deadline());
    if profile.kind == C.RENEW {
      FrontDecides(g, w.signed, ps, ts);
    }
  }

  // A run in which one visitor gets two passes: one of a session begun at second 90 and renewed at second 99, and
  // one of a session begun at second 95, which then earns a renewal challenge at second 100. The first session
  // has just ended and its pass is still live. Answered with the earning pass alone the challenge renews;
  // answered with the other pass in front of it, it is refused.
  lemma AnEndedSessionShadows()
    ensures exists ws: seq<World>, es: seq<Event>, ended: Pass, current: Pass ::
              var g, at := SmallGate(), 100 * SECOND;
              && IsRun(g, ws, es) && |es| == 7 && es[6] == AskAt([current], 100)
              && Chosen(ws[6].signed, g.routes, es[6].r, at) == Some(current) && RenewRoot(g, Some(current), at).Some?
              && Verify(ws[7].signed, Signed(ended), at).Some?
              && var answer := Answer(C.Offer(ChallengeAt(100, g.renew)), "n");
                 && OutcomeOf(g, ws[7].issued, ws[7].signed, Visit([current]), answer, at, at, at).Granted?
                 && OutcomeOf(g, ws[7].issued, ws[7].signed, Visit([ended, current]), answer, at, at, at) == NotEntitled
  {
    hide After, OutcomeOf, Chosen, Verify, SmallGate, Jar, RenewRoot;
    var g, at := SmallGate(), 100 * SECOND;
    var first, ended, current := PassAt(90, 100, 0), PassAt(99, 109, 90), PassAt(95, 105, 0);
    var ws, es := ShadowedRun();
    EndedRefuses(ws[7]);
    FrontDecides(g, ws[6].signed, [current], 100);
    SmallRenewal(current);
    assert es[6].r == Visit([current]);
  }

  lemma SmallRenewal(p: Pass)
    requires p == PassAt(95, 105, 0)
    ensures RenewRoot(SmallGate(), Some(p), 100 * SECOND) == Some(95)
  {
  }

  lemma EndedRefuses(w: World)
    requires var g := SmallGate();
             && C.Issued(ChallengeAt(100, g.renew), "site") in w.issued
             && PassAt(99, 109, 90) in w.signed && PassAt(95, 105, 0) in w.signed
    ensures var g, at, ended, current := SmallGate(), 100 * SECOND, PassAt(99, 109, 90), PassAt(95, 105, 0);
            var answer := Answer(C.Offer(ChallengeAt(100, g.renew)), "n");
            && Verify(w.signed, Signed(ended), at).Some?
            && OutcomeOf(g, w.issued, w.signed, Visit([current]), answer, at, at, at).Granted?
            && OutcomeOf(g, w.issued, w.signed, Visit([ended, current]), answer, at, at, at) == NotEntitled
  {
    var g, at, ended, current := SmallGate(), 100 * SECOND, PassAt(99, 109, 90), PassAt(95, 105, 0);
    Granting(w, [current], 100, g.renew, 95);
    FrontDecides(g, w.signed, [ended, current], 100);
    DecisiveCookie(g, w, Visit([ended, current]), ChallengeAt(100, g.renew), "n", 0, at, at, at);
  }

  lemma ShadowedRun() returns (ws: seq<World>, es: seq<Event>)
    ensures var g := SmallGate();
            && IsRun(g, ws, es) && |es| == 7 && es[6] == AskAt([PassAt(95, 105, 0)], 100)
            && PassAt(95, 105, 0) in ws[6].signed
            && PassAt(99, 109, 90) in ws[7].signed && PassAt(95, 105, 0) in ws[7].signed
            && C.Issued(ChallengeAt(100, g.renew), "site") in ws[7].issued
  {
    hide After, Visit;
    var g := SmallGate();
    var first, ended, current := PassAt(90, 100, 0), PassAt(99, 109, 90), PassAt(95, 105, 0);
    es := [AskAt([], 90), AnswerAt([], ChallengeAt(90, g.admit)), AskAt([], 95), AnswerAt([], ChallengeAt(95, g.admit)),
           AskAt([first], 99), AnswerAt([first], ChallengeAt(99, g.renew)), AskAt([current], 100)];
    var w0 := Start(0);
    var w1 := After(g, w0, es[0]);
    Asked(g, w0, [], 90, g.admit);
    var w2 := After(g, w1, es[1]);
    Granting(w1, [], 90, g.admit, 0);
    var w3 := After(g, w2, es[2]);
    Asked(g, w2, [], 95, g.admit);
    var w4 := After(g, w3, es[3]);
    Granting(w3, [], 95, g.admit, 0);
    var w5 := After(g, w4, es[4]);
    Asked(g, w4, [first], 99, g.renew);
    var w6 := After(g, w5, es[5]);
    Granting(w5, [first], 99, g.renew, 90);
    var w7 := After(g, w6, es[6]);
    Asked(g, w6, [current], 100, g.renew);
    ws := [w0, w1, w2, w3, w4, w5, w6, w7];
    forall k {:trigger es[k]} | 0 <= k < |es| ensures Follows(g, ws[k], es[k], ws[k + 1]) {
    }
  }
}
