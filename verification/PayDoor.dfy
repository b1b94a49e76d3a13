/** The pay door as a transition system: any number of servePayment calls, in any number of processes,
    interleaved at their transactions on the one durable ledger, around an arbitrary facilitator.
    (internal/gate/pay.go, internal/payment/store.go) */
module PayDoor {
  import opened Wrappers
  import opened Grants
  import opened Identity
  import opened Token

  // ---------------------------------------------------------------------------
  // Expiry
  // ---------------------------------------------------------------------------

  function PaidExpiry(now: int, ttl: int): int {
    var exp := now + ttl;
    if exp % SECOND == 0 then exp else Unix(exp) * SECOND + SECOND
  }

  // The paid period is rounded up to a whole second and by less than one.
  lemma PaidExpiryRoundsUp(now: int, ttl: int)
    ensures PaidExpiry(now, ttl) % SECOND == 0
    ensures now + ttl <= PaidExpiry(now, ttl) < now + ttl + SECOND
    ensures Unix(PaidExpiry(now, ttl)) * SECOND == PaidExpiry(now, ttl)
  {
  }

  // ---------------------------------------------------------------------------
  // States and steps
  // ---------------------------------------------------------------------------

  // What the request being paid for fixes: the matched route's scope and lifetime, the request's
  // audience, and the network of the matched rail.
  datatype Purchase = Purchase(scope: string, audience: string, network: string, ttl: nat)

  // Reserved: Begin answered New. Settled: the facilitator's verdict was Valid. Serving: a grant is in
  // hand. Leaving: only the deferred Release is left.
  datatype Stage = Reserved
                 | Settled(payer: string, tx: string, amount: string)
                 | Serving(grant: Grant)
                 | Leaving

  datatype Attempt = Attempt(id: Name, purchase: Purchase, lease: string, beganAt: nat, stage: Stage) {
    predicate Pays() {
      stage.Reserved? || stage.Settled?
    }
  }

  // The clock reading and lifetime a grant's expiry was computed from.
  datatype Receipt = Receipt(readAt: nat, ttl: nat)

  function SlotAt(slots: map<Name, Slot>, id: Name): Slot {
    if id in slots then slots[id] else Free
  }

  // `slots` is the ledger. The rest of the durable part is history: leases drawn, how often a commit
  // wrote a grant, how often countPaidValue ran, how often it ran on a grant that was already there,
  // and every pass minted, with the payment it was minted for.
  datatype State = State(slots: map<Name, Slot>, attempts: map<nat, Attempt>, clock: nat,
                         drawn: set<string>, created: multiset<Name>, receipts: map<Name, Receipt>,
                         counted: multiset<Name>, overtaken: multiset<Name>, minted: set<(Name, Pass)>)
  {
    function At(id: Name): Slot {
      SlotAt(slots, id)
    }

    function Put(id: Name, slot: Slot): State {
      this.(slots := slots[id := slot])
    }

    function Go(who: nat, stage: Stage): State
      requires who in attempts
    {
      this.(attempts := attempts[who := attempts[who].(stage := stage)])
    }
  }

  const START := State(map[], map[], 0, {}, multiset{}, map[], multiset{}, multiset{}, {})

  // `at` is when the step happens; readAt and checkedAt are earlier clock readings the step acts on.
  // disk says whether the transaction on the ledger went through.
  datatype Event =
    | Begin(who: nat, at: nat, id: Name, purchase: Purchase, entropy: Option<string>, readAt: nat, disk: bool)
    | Refuse(who: nat, at: nat)
    | Settle(who: nat, at: nat, payer: string, tx: string, amount: string)
    | Commit(who: nat, at: nat, readAt: nat, disk: bool)
    | Serve(who: nat, at: nat, checkedAt: nat)
    | Release(who: nat, at: nat, disk: bool)
    | Crash(who: nat, at: nat)

  predicate Enabled(s: State, e: Event) {
    match e
    case Begin(who, _, _, _, entropy, _, _) =>
      who !in s.attempts && (entropy.Some? ==> entropy.value != "" && entropy.value !in s.drawn)
    case Refuse(who, _) => who in s.attempts && s.attempts[who].stage.Reserved?
    case Settle(who, _, _, tx, _) => who in s.attempts && s.attempts[who].stage.Reserved? && tx != ""
    case Commit(who, _, _, _) => who in s.attempts && s.attempts[who].stage.Settled?
    case Serve(who, _, _) => who in s.attempts && s.attempts[who].stage.Serving?
    case Release(who, _, _) => who in s.attempts && s.attempts[who].stage.Leaving?
    case Crash(who, _) => who in s.attempts
  }

  function OnBegin(s: State, e: Event): State
    requires e.Begin?
  {
    if !e.disk then s
    else match BeginSlot(s.At(e.id), e.readAt, e.entropy)
      case (slot, Ok(New(lease))) =>
        s.Put(e.id, slot).(
          attempts := s.attempts[e.who := Attempt(e.id, e.purchase, lease, e.readAt, Reserved)],
          drawn := s.drawn + {lease})
      case (_, Ok(Recoverable(g))) =>
        if g.scope != e.purchase.scope || g.audience != e.purchase.audience then s
        else s.(attempts := s.attempts[e.who := Attempt(e.id, e.purchase, "", e.readAt, Serving(g))])
      case _ => s
  }

  function GrantFor(a: Attempt, readAt: nat): Grant
    requires a.stage.Settled?
  {
    Grant(a.purchase.scope, a.purchase.audience, a.stage.payer, a.stage.tx, a.stage.amount,
          a.purchase.network, Unix(PaidExpiry(readAt, a.purchase.ttl)))
  }

  // The created flag plays no part; only scope and audience are compared.
  function OnCommit(s: State, e: Event): State
    requires e.Commit? && Enabled(s, e)
  {
    var a := s.attempts[e.who];
    if !e.disk then s.Go(e.who, Leaving)
    else match CommitSlot(s.At(a.id), a.lease, GrantFor(a, e.readAt))
      case (_, Err(_)) => s.Go(e.who, Leaving)
      case (slot, Ok((g, created))) =>
        var s1 := if !created then s else s.Put(a.id, slot).(
          created := s.created + multiset{a.id},
          receipts := s.receipts[a.id := Receipt(e.readAt, a.purchase.ttl)]);
        if g.scope != a.purchase.scope || g.audience != a.purchase.audience then s1.Go(e.who, Leaving)
        else s1.Go(e.who, Serving(g)).(
          counted := s.counted + multiset{a.id},
          overtaken := if created then s.overtaken else s.overtaken + multiset{a.id})
  }

  const MAX_SETTLEMENT_FIELD := 128

  function SettlementField(v: string): string {
    if |v| <= MAX_SETTLEMENT_FIELD then v else ""
  }

  function PaidPass(g: Grant, audience: string, now: nat): Pass {
    Pass(Paid, g.scope, audience, Unix(now), g.expiresAt, "", "", 0,
         SettlementField(g.payer), SettlementField(g.transaction))
  }

  function OnServe(s: State, e: Event): State
    requires e.Serve? && Enabled(s, e)
  {
    var a := s.attempts[e.who];
    var g := a.stage.grant;
    var pass := PaidPass(g, a.purchase.audience, e.at);
    if e.checkedAt >= g.expiresAt * SECOND || !pass.Valid() then s.Go(e.who, Leaving)
    else s.Go(e.who, Leaving).(minted := s.minted + {(a.id, pass)})
  }

  function OnRelease(s: State, e: Event): State
    requires e.Release? && Enabled(s, e)
  {
    var a := s.attempts[e.who];
    var s1 := if e.disk then s.Put(a.id, ReleaseSlot(s.At(a.id), a.lease).0) else s;
    s1.(attempts := s.attempts - {e.who})
  }

  function Apply(s: State, e: Event): State
    requires Enabled(s, e)
  {
    var s' := match e
      case Begin(_, _, _, _, _, _, _) => OnBegin(s, e)
      case Refuse(who, _) => s.Go(who, Leaving)
      case Settle(who, _, payer, tx, amount) => s.Go(who, Settled(payer, tx, amount))
      case Commit(_, _, _, _) => OnCommit(s, e)
      case Serve(_, _, _) => OnServe(s, e)
      case Release(_, _, _) => OnRelease(s, e)
      case Crash(who, _) => s.(attempts := s.attempts - {who});
    s'.(clock := e.at)
  }

  ghost predicate Follows(s: State, e: Event, s': State) {
    Enabled(s, e) && s' == Apply(s, e)
  }

  // A run passes from an empty ledger through the states ss by the events es, each enabled where it happens.
  ghost predicate IsRun(ss: seq<State>, es: seq<Event>) {
    && |ss| == |es| + 1 && ss[0] == START
    && forall k {:trigger es[k]} :: 0 <= k < |es| ==> Follows(ss[k], es[k], ss[k + 1])
  }

  // ---------------------------------------------------------------------------
  // What every interleaving keeps, with no assumption on clocks
  // ---------------------------------------------------------------------------

  ghost predicate LedgerOk(slots: map<Name, Slot>, drawn: set<string>) {
    forall id :: id in slots ==> slots[id].WellFormed() && (slots[id].Held? ==> slots[id].lease in drawn)
  }

  ghost predicate AttemptOk(a: Attempt, slots: map<Name, Slot>, drawn: set<string>) {
    && (a.lease != "" ==> a.lease in drawn)
    && (a.Pays() ==> a.lease != "")
    && (a.stage.Settled? ==> a.stage.tx != "")
    && (a.stage.Serving? ==> SlotAt(slots, a.id) == Bought(a.stage.grant) && ForPurchase(a.stage.grant, a.purchase))
  }

  predicate ForPurchase(g: Grant, p: Purchase) {
    g.scope == p.scope && g.audience == p.audience
  }

  ghost predicate AttemptsOk(attempts: map<nat, Attempt>, slots: map<Name, Slot>, drawn: set<string>) {
    forall w :: w in attempts ==> AttemptOk(attempts[w], slots, drawn)
  }

  ghost predicate OwnLeases(attempts: map<nat, Attempt>) {
    forall v, w :: v in attempts && w in attempts && attempts[v].lease == attempts[w].lease != "" ==> v == w
  }

  function One(s: Slot): nat {
    if s.Bought? then 1 else 0
  }

  ghost predicate HistoryAt(s: State, id: Name) {
    && s.created[id] == One(s.At(id))
    && s.counted[id] == One(s.At(id)) + s.overtaken[id]
    && (s.At(id).Bought? ==> id in s.receipts && Honours(s.At(id).grant, s.receipts[id]))
  }

  predicate Honours(g: Grant, r: Receipt) {
    g.expiresAt == Unix(PaidExpiry(r.readAt, r.ttl))
  }

  ghost predicate HistoryOk(s: State) {
    forall id :: HistoryAt(s, id)
  }

  ghost predicate Sells(slot: Slot, p: Pass) {
    && slot.Bought? && p.Valid() && p.kind == Paid
    && p.scope == slot.grant.scope && p.aud == slot.grant.audience && p.exp == slot.grant.expiresAt
  }

  ghost predicate PassesOk(minted: set<(Name, Pass)>, slots: map<Name, Slot>) {
    forall m :: m in minted ==> Sells(SlotAt(slots, m.0), m.1)
  }

  ghost predicate Inv(s: State) {
    && LedgerOk(s.slots, s.drawn)
    && AttemptsOk(s.attempts, s.slots, s.drawn)
    && OwnLeases(s.attempts)
    && HistoryOk(s)
    && PassesOk(s.minted, s.slots)
  }

  // A grant, once in the ledger, stays as it is.
  ghost predicate KeepsGrants(slots: map<Name, Slot>, slots': map<Name, Slot>) {
    forall id :: SlotAt(slots, id).Bought? ==> SlotAt(slots', id) == SlotAt(slots, id)
  }

  // Changing one slot that is not bought, and drawing more leases, hurts no other attempt and no pass.
  lemma SlotChangeFrame(s: State, id: Name, slot: Slot, drawn: set<string>)
    requires Inv(s) && s.drawn <= drawn
    requires s.At(id).Bought? ==> slot == s.At(id)
    requires slot.WellFormed() && (slot.Held? ==> slot.lease in drawn)
    ensures LedgerOk(s.slots[id := slot], drawn)
    ensures KeepsGrants(s.slots, s.slots[id := slot])
    ensures AttemptsOk(s.attempts, s.slots[id := slot], drawn)
    ensures PassesOk(s.minted, s.slots[id := slot])
  {
    var slots := s.slots[id := slot];
    assert KeepsGrants(s.slots, slots);
    forall w | w in s.attempts ensures AttemptOk(s.attempts[w], slots, drawn) {
      assert AttemptOk(s.attempts[w], s.slots, s.drawn);
    }
    forall m | m in s.minted ensures Sells(SlotAt(slots, m.0), m.1) {
      assert Sells(SlotAt(s.slots, m.0), m.1);
    }
  }

  lemma BeginKeepsInv(s: State, e: Event)
    requires Inv(s) && e.Begin? && Enabled(s, e)
    ensures Inv(OnBegin(s, e)) && KeepsGrants(s.slots, OnBegin(s, e).slots)
  {
    var s' := OnBegin(s, e);
    if e.disk {
      var (slot, r) := BeginSlot(s.At(e.id), e.readAt, e.entropy);
      if r.Ok? && r.value.New? {
        NewKeepsInv(s, e, slot);
      } else {
        assert s'.slots == s.slots && s'.drawn == s.drawn;
        forall id ensures HistoryAt(s', id) {
          assert HistoryAt(s, id);
        }
      }
    }
  }

  lemma NewKeepsInv(s: State, e: Event, slot: Slot)
    requires Inv(s) && e.Begin? && Enabled(s, e) && e.disk
    requires BeginSlot(s.At(e.id), e.readAt, e.entropy).0 == slot
    requires BeginSlot(s.At(e.id), e.readAt, e.entropy).1.Ok? && BeginSlot(s.At(e.id), e.readAt, e.entropy).1.value.New?
    ensures Inv(OnBegin(s, e)) && KeepsGrants(s.slots, OnBegin(s, e).slots)
  {
    var s' := OnBegin(s, e);
    SlotChangeFrame(s, e.id, slot, s.drawn + {e.entropy.value});
    forall id ensures HistoryAt(s', id) {
      assert HistoryAt(s, id);
    }
    forall v | v in s.attempts ensures s.attempts[v].lease != e.entropy.value {
      assert AttemptOk(s.attempts[v], s.slots, s.drawn);
    }
  }

  lemma GoKeepsInv(s: State, who: nat, stage: Stage)
    requires Inv(s) && who in s.attempts
    requires AttemptOk(s.attempts[who].(stage := stage), s.slots, s.drawn)
    ensures Inv(s.Go(who, stage))
  {
    forall id ensures HistoryAt(s.Go(who, stage), id) {
      assert HistoryAt(s, id);
    }
  }

  // What a commit that answers Ok leads to, case by case.

  ghost function Written(s: State, a: Attempt, readAt: nat): State
    requires a.stage.Settled?
  {
    s.Put(a.id, Bought(GrantFor(a, readAt))).(
      created := s.created + multiset{a.id},
      counted := s.counted + multiset{a.id},
      receipts := s.receipts[a.id := Receipt(readAt, a.purchase.ttl)])
  }

  lemma WrittenKeepsInv(s: State, a: Attempt, readAt: nat)
    requires Inv(s) && a.stage.Settled? && s.At(a.id).Held? && CompleteGrant(GrantFor(a, readAt))
    ensures Inv(Written(s, a, readAt)) && KeepsGrants(s.slots, Written(s, a, readAt).slots)
  {
    SlotChangeFrame(s, a.id, Bought(GrantFor(a, readAt)), s.drawn);
    forall id ensures HistoryAt(Written(s, a, readAt), id) {
      assert HistoryAt(s, id);
    }
  }

  lemma OvertakenKeepsInv(s: State, id: Name)
    requires Inv(s) && s.At(id).Bought?
    ensures Inv(s.(counted := s.counted + multiset{id}, overtaken := s.overtaken + multiset{id}))
  {
    var s' := s.(counted := s.counted + multiset{id}, overtaken := s.overtaken + multiset{id});
    forall other ensures HistoryAt(s', other) {
      assert HistoryAt(s, other);
    }
  }

  lemma CommitKeepsInv(s: State, e: Event)
    requires Inv(s) && e.Commit? && Enabled(s, e)
    ensures Inv(OnCommit(s, e)) && KeepsGrants(s.slots, OnCommit(s, e).slots)
  {
    var a := s.attempts[e.who];
    assert AttemptOk(a, s.slots, s.drawn);
    var r := CommitSlot(s.At(a.id), a.lease, GrantFor(a, e.readAt)).1;
    if !e.disk || r.Err? || (!r.value.1 && !ForPurchase(r.value.0, a.purchase)) {
      GoKeepsInv(s, e.who, Leaving);
    } else if r.value.1 {
      var s1 := Written(s, a, e.readAt);
      WrittenKeepsInv(s, a, e.readAt);
      GoKeepsInv(s1, e.who, Serving(r.value.0));
      assert OnCommit(s, e) == s1.Go(e.who, Serving(r.value.0));
    } else {
      var s1 := s.(counted := s.counted + multiset{a.id}, overtaken := s.overtaken + multiset{a.id});
      OvertakenKeepsInv(s, a.id);
      GoKeepsInv(s1, e.who, Serving(r.value.0));
      assert OnCommit(s, e) == s1.Go(e.who, Serving(r.value.0));
    }
  }

  lemma ServeKeepsInv(s: State, e: Event)
    requires Inv(s) && e.Serve? && Enabled(s, e)
    ensures Inv(OnServe(s, e)) && KeepsGrants(s.slots, OnServe(s, e).slots)
  {
    var a := s.attempts[e.who];
    assert AttemptOk(a, s.slots, s.drawn);
    GoKeepsInv(s, e.who, Leaving);
    forall id ensures HistoryAt(OnServe(s, e), id) {
      assert HistoryAt(s, id);
    }
  }

  lemma ReleaseKeepsInv(s: State, e: Event)
    requires Inv(s) && e.Release? && Enabled(s, e)
    ensures Inv(OnRelease(s, e)) && KeepsGrants(s.slots, OnRelease(s, e).slots)
  {
    var a := s.attempts[e.who];
    var s' := OnRelease(s, e);
    var slot := ReleaseSlot(s.At(a.id), a.lease).0;
    SlotChangeFrame(s, a.id, slot, s.drawn);
    assert s'.slots == if e.disk then s.slots[a.id := slot] else s.slots;
    forall id ensures HistoryAt(s', id) {
      assert HistoryAt(s, id);
    }
  }

  lemma CrashKeepsInv(s: State, who: nat)
    requires Inv(s)
    ensures Inv(s.(attempts := s.attempts - {who}))
  {
    forall id ensures HistoryAt(s.(attempts := s.attempts - {who}), id) {
      assert HistoryAt(s, id);
    }
  }

  lemma ClockKeepsInv(s: State, at: nat)
    requires Inv(s)
    ensures Inv(s.(clock := at))
  {
    forall id ensures HistoryAt(s.(clock := at), id) {
      assert HistoryAt(s, id);
    }
  }

  lemma StepKeepsInv(s: State, e: Event)
    requires Inv(s) && Enabled(s, e)
    ensures Inv(Apply(s, e)) && KeepsGrants(s.slots, Apply(s, e).slots)
  {
    match e
    case Begin(_, at, _, _, _, _, _) =>
      BeginKeepsInv(s, e);
      ClockKeepsInv(OnBegin(s, e), at);
    case Refuse(who, at) =>
      assert AttemptOk(s.attempts[who], s.slots, s.drawn);
      GoKeepsInv(s, who, Leaving);
      ClockKeepsInv(s.Go(who, Leaving), at);
    case Settle(who, at, payer, tx, amount) =>
      assert AttemptOk(s.attempts[who], s.slots, s.drawn);
      GoKeepsInv(s, who, Settled(payer, tx, amount));
      ClockKeepsInv(s.Go(who, Settled(payer, tx, amount)), at);
    case Commit(_, at, _, _) =>
      CommitKeepsInv(s, e);
      ClockKeepsInv(OnCommit(s, e), at);
    case Serve(_, at, _) =>
      ServeKeepsInv(s, e);
      ClockKeepsInv(OnServe(s, e), at);
    case Release(_, at, _) =>
      ReleaseKeepsInv(s, e);
      ClockKeepsInv(OnRelease(s, e), at);
    case Crash(who, at) =>
      CrashKeepsInv(s, who);
      ClockKeepsInv(s.(attempts := s.attempts - {who}), at);
  }

  // Every reachable state, whatever the interleaving, the clocks, the facilitator, crashes and restarts.
  lemma {:induction false} RunKeepsInv(ss: seq<State>, es: seq<Event>, n: nat)
    requires IsRun(ss, es) && n <= |es|
    ensures Inv(ss[n])
  {
    if n == 0 {
      assert forall id :: HistoryAt(START, id);
    } else {
      RunKeepsInv(ss, es, n - 1);
      StepKeepsInv(ss[n - 1], es[n - 1]);
    }
  }

  // ---------------------------------------------------------------------------
  // Grants are permanent
  // ---------------------------------------------------------------------------

  lemma {:induction false} GrantsArePermanent(ss: seq<State>, es: seq<Event>, m: nat, n: nat, id: Name)
    requires IsRun(ss, es) && m <= n <= |es|
    requires ss[m].At(id).Bought?
    ensures ss[n].At(id) == ss[m].At(id)
  {
    hide Inv, Apply, Enabled;
    if m < n {
      GrantsArePermanent(ss, es, m, n - 1, id);
      RunKeepsInv(ss, es, n - 1);
      StepKeepsInv(ss[n - 1], es[n - 1]);
    }
  }

  // Once an id is bought, no later Begin on it reserves or waits, and no later commit writes.
  lemma BoughtIsFinal(ss: seq<State>, es: seq<Event>, m: nat, n: nat, id: Name, now: nat,
                      entropy: Option<string>, lease: string, g: Grant)
    requires IsRun(ss, es) && m <= n <= |es|
    requires ss[m].At(id).Bought?
    ensures var slot := ss[n].At(id);
            && BeginSlot(slot, now, entropy).0 == slot
            && BeginSlot(slot, now, entropy).1.Ok?
            && !BeginSlot(slot, now, entropy).1.value.New?
            && !BeginSlot(slot, now, entropy).1.value.InFlight?
            && (CompleteGrant(g) ==> CommitSlot(slot, lease, g).1 == Ok((slot.grant, false)))
  {
    GrantsArePermanent(ss, es, m, n, id);
  }

  // Over any run the ledger stays readable and a commit writes at most once per id.
  lemma LedgerStaysSound(ss: seq<State>, es: seq<Event>, n: nat, id: Name)
    requires IsRun(ss, es) && n <= |es|
    ensures ss[n].At(id).WellFormed()
    ensures ss[n].created[id] <= 1
    ensures ss[n].created[id] == 1 <==> ss[n].At(id).Bought?
  {
    RunKeepsInv(ss, es, n);
    assert HistoryAt(ss[n], id);
  }

  // A reservation is moved only by its own lease's commit or release, or by a Begin that read a clock at
  // or past its end. In particular a late Release never deletes a newer attempt's reservation.
  lemma OnlyItsLeaseMovesAReservation(ss: seq<State>, es: seq<Event>, n: nat, id: Name)
    requires IsRun(ss, es) && n < |es|
    requires ss[n].At(id).Held? && ss[n + 1].At(id) != ss[n].At(id)
    ensures var s, e := ss[n], es[n];
            || (e.Begin? && e.id == id && e.readAt >= s.At(id).until)
            || ((e.Commit? || e.Release?) && s.attempts[e.who].id == id && s.attempts[e.who].lease == s.At(id).lease)
  {
    RunKeepsInv(ss, es, n);
    ReservationMoves(ss[n], es[n], id);
  }

  lemma ReservationMoves(s: State, e: Event, id: Name)
    requires Enabled(s, e) && s.At(id).Held? && Apply(s, e).At(id) != s.At(id)
    ensures || (e.Begin? && e.id == id && e.readAt >= s.At(id).until)
            || ((e.Commit? || e.Release?) && s.attempts[e.who].id == id && s.attempts[e.who].lease == s.At(id).lease)
  {
    hide OnBegin, OnCommit, OnServe, OnRelease;
    match e
    case Begin(_, _, _, _, _, _, _) => BeginMoves(s, e, id);
    case Commit(_, _, _, _) => CommitMoves(s, e, id);
    case Serve(_, _, _) => ServeMoves(s, e);
    case Release(_, _, _) => ReleaseMoves(s, e, id);
    case _ =>
  }

  lemma BeginMoves(s: State, e: Event, id: Name)
    requires e.Begin? && s.At(id).Held? && OnBegin(s, e).At(id) != s.At(id)
    ensures e.id == id && e.readAt >= s.At(id).until
  {
  }

  lemma CommitMoves(s: State, e: Event, id: Name)
    requires e.Commit? && Enabled(s, e) && s.At(id).Held? && OnCommit(s, e).At(id) != s.At(id)
    ensures s.attempts[e.who].id == id && s.attempts[e.who].lease == s.At(id).lease
  {
    hide GrantFor;
  }

  lemma ServeMoves(s: State, e: Event)
    requires e.Serve? && Enabled(s, e)
    ensures OnServe(s, e).slots == s.slots
  {
    hide PaidPass;
  }

  lemma ReleaseMoves(s: State, e: Event, id: Name)
    requires e.Release? && Enabled(s, e) && s.At(id).Held? && OnRelease(s, e).At(id) != s.At(id)
    ensures s.attempts[e.who].id == id && s.attempts[e.who].lease == s.At(id).lease
  {
  }

  // ---------------------------------------------------------------------------
  // What each step does, in every run
  // ---------------------------------------------------------------------------

  // A Begin whose transaction goes through. A grant for the same purchase is served until the instant it expires;
  // an id that nothing holds is reserved for half a minute; in every other case the request ends there.
  lemma BeginOutcome(ss: seq<State>, es: seq<Event>, n: nat)
    requires IsRun(ss, es) && n < |es| && es[n].Begin?
    ensures var s, s', e := ss[n], ss[n + 1], es[n];
            var slot := s.At(e.id);
            if e.disk && slot.Bought? && e.readAt < slot.grant.expiresAt * SECOND && ForPurchase(slot.grant, e.purchase) then
              s'.slots == s.slots && s'.attempts == s.attempts[e.who := Attempt(e.id, e.purchase, "", e.readAt, Serving(slot.grant))]
            else if e.disk && Vacant(slot, e.readAt) && e.entropy.Some? then
              && s'.slots == s.slots[e.id := Held(e.entropy.value, e.readAt + 30 * SECOND)]
              && s'.attempts == s.attempts[e.who := Attempt(e.id, e.purchase, e.entropy.value, e.readAt, Reserved)]
            else s'.slots == s.slots && s'.attempts == s.attempts
  {
    assert Follows(ss[n], es[n], ss[n + 1]);
    RunKeepsInv(ss, es, n);
    assert ss[n].At(es[n].id).WellFormed();
    hide Inv, OnCommit, OnServe, OnRelease;
  }

  // A Serve adds one pass, for what the grant says and dated to the second it is minted in, exactly while the
  // grant lasts; the attempt is then over either way.
  lemma ServeOutcome(ss: seq<State>, es: seq<Event>, n: nat)
    requires IsRun(ss, es) && n < |es| && es[n].Serve?
    ensures var s, s', e := ss[n], ss[n + 1], es[n];
            && e.who in s.attempts && s.attempts[e.who].stage.Serving?
            && s'.slots == s.slots && s'.attempts == s.attempts[e.who := s.attempts[e.who].(stage := Leaving)]
            && var a, g := s.attempts[e.who], s.attempts[e.who].stage.grant;
               if e.checkedAt < g.expiresAt * SECOND && 0 < Unix(e.at) < g.expiresAt && g.scope != SCOPE_ALL then
                 exists p :: s'.minted == s.minted + {(a.id, p)} && IsPassFor(p, g, Unix(e.at))
               else s'.minted == s.minted
  {
    assert Follows(ss[n], es[n], ss[n + 1]);
    RunKeepsInv(ss, es, n);
    var s, e := ss[n], es[n];
    var a := s.attempts[e.who];
    assert AttemptOk(a, s.slots, s.drawn) && s.At(a.id).WellFormed();
    hide Inv, OnBegin, OnCommit, OnRelease;
    var p := PaidPass(a.stage.grant, a.purchase.audience, e.at);
    assert IsPassFor(p, a.stage.grant, Unix(e.at));
  }

  // The pass a grant entitles to: nothing else is in it, and an identifier the cookie could not carry is left out.
  predicate IsPassFor(p: Pass, g: Grant, iat: int) {
    && p.kind == Paid && p.scope == g.scope && p.aud == g.audience && p.exp == g.expiresAt && p.iat == iat
    && p.ipp == "" && p.uah == "" && p.rt == 0
    && p.payer == (if |g.payer| <= 128 then g.payer else "")
    && p.tx == (if |g.transaction| <= 128 then g.transaction else "")
  }

  // A Release whose transaction goes through frees the id if its own reservation is still there, and nothing else.
  lemma ReleaseOutcome(ss: seq<State>, es: seq<Event>, n: nat)
    requires IsRun(ss, es) && n < |es| && es[n].Release?
    ensures var s, s', e := ss[n], ss[n + 1], es[n];
            && e.who in s.attempts && s'.attempts == s.attempts - {e.who}
            && var a := s.attempts[e.who];
               && s'.At(a.id) == (if e.disk && a.lease != "" && s.At(a.id).Held? && s.At(a.id).lease == a.lease then Free else s.At(a.id))
               && forall id :: id != a.id ==> s'.At(id) == s.At(id)
  {
    assert Follows(ss[n], es[n], ss[n + 1]);
    hide OnBegin, OnCommit, OnServe;
  }

  // A Commit writes a complete grant over its own reservation, serves a grant for the same purchase that it finds,
  // and in every other case leaves the ledger alone and ends the attempt.
  lemma CommitOutcome(ss: seq<State>, es: seq<Event>, n: nat)
    requires IsRun(ss, es) && n < |es| && es[n].Commit?
    ensures var s, s', e := ss[n], ss[n + 1], es[n];
            && e.who in s.attempts && s.attempts[e.who].stage.Settled?
            && var a := s.attempts[e.who];
               var g := GrantFor(a, e.readAt);
               var writes := e.disk && CompleteGrant(g) && a.lease != "" && s.At(a.id).Held? && s.At(a.id).lease == a.lease;
               && (writes ==> s'.At(a.id) == Bought(g) && s'.attempts[e.who].stage == Serving(g))
               && (FindsGrant(s, e, a.id) ==> s'.attempts[e.who].stage == Serving(s.At(a.id).grant))
               && (!writes && !FindsGrant(s, e, a.id) ==> s'.attempts[e.who].stage == Leaving)
               && (!writes ==> s'.slots == s.slots)
               && s'.counted == (if writes || FindsGrant(s, e, a.id) then s.counted + multiset{a.id} else s.counted)
  {
    assert Follows(ss[n], es[n], ss[n + 1]);
    hide OnBegin, OnRelease, OnServe, CompleteGrant, GrantFor;
  }

  // What a settled attempt writes: the purchase it was begun for, what the facilitator reported, and the first
  // whole second at or after the end of the paid period.
  lemma GrantIsThePurchase(a: Attempt, readAt: nat)
    requires a.stage.Settled?
    ensures var g := GrantFor(a, readAt);
            && ForPurchase(g, a.purchase) && g.network == a.purchase.network
            && g.payer == a.stage.payer && g.transaction == a.stage.tx && g.amount == a.stage.amount
            && readAt + a.purchase.ttl <= g.expiresAt * SECOND < readAt + a.purchase.ttl + SECOND
  {
    PaidExpiryRoundsUp(readAt, a.purchase.ttl);
  }

  // Between reservation and commit there are the facilitator's verdict and crashes.
  lemma VerdictOutcome(ss: seq<State>, es: seq<Event>, n: nat)
    requires IsRun(ss, es) && n < |es| && (es[n].Refuse? || es[n].Settle? || es[n].Crash?)
    ensures var s, s', e := ss[n], ss[n + 1], es[n];
            && s'.slots == s.slots && s'.minted == s.minted && s'.counted == s.counted && e.who in s.attempts
            && (e.Refuse? ==> s'.attempts == s.attempts[e.who := s.attempts[e.who].(stage := Leaving)])
            && (e.Settle? ==> s'.attempts == s.attempts[e.who := s.attempts[e.who].(stage := Settled(e.payer, e.tx, e.amount))])
            && (e.Crash? ==> s'.attempts == s.attempts - {e.who})
  {
    assert Follows(ss[n], es[n], ss[n + 1]);
    hide OnBegin, OnCommit, OnServe, OnRelease;
  }

  lemma {:induction false} Untouched(ss: seq<State>, es: seq<Event>, m: nat, n: nat, who: nat)
    requires IsRun(ss, es) && m <= n <= |es| && forall k {:trigger es[k]} :: m <= k < n ==> es[k].who != who
    ensures who in ss[n].attempts <==> who in ss[m].attempts
    ensures who in ss[m].attempts ==> ss[n].attempts[who] == ss[m].attempts[who]
  {
    hide Apply, Enabled;
    if m < n {
      Untouched(ss, es, m, n - 1, who);
      assert Follows(ss[n - 1], es[n - 1], ss[n]);
      OthersAreUnchanged(ss[n - 1], es[n - 1], who);
    }
  }

  // A payer whose first response was lost gets what was bought: once a grant is written, a request that presents
  // the payment again for the same purchase before it expires, and is served before it expires, is minted a pass
  // for exactly that grant, whatever happened between and happens meanwhile.
  lemma RetryGetsItsPass(ss: seq<State>, es: seq<Event>, m: nat, n: nat, k: nat, id: Name)
    requires IsRun(ss, es) && m <= n < k < |es| && ss[m].At(id).Bought?
    requires var g, b := ss[m].At(id).grant, es[n];
             && b.Begin? && b.id == id && b.disk && b.readAt < g.expiresAt * SECOND && ForPurchase(g, b.purchase)
             && es[k].Serve? && es[k].who == b.who && (forall j {:trigger es[j]} :: n < j < k ==> es[j].who != b.who)
             && es[k].checkedAt < g.expiresAt * SECOND && 0 < Unix(es[k].at) < g.expiresAt && g.scope != SCOPE_ALL
    ensures exists p :: ss[k + 1].minted == ss[k].minted + {(id, p)} && IsPassFor(p, ss[m].At(id).grant, Unix(es[k].at))
  {
    hide Apply, Enabled, IsPassFor, IsRun;
    GrantsArePermanent(ss, es, m, n, id);
    BeginOutcome(ss, es, n);
    Untouched(ss, es, n + 1, k, es[n].who);
    ServeOutcome(ss, es, k);
  }

  // ---------------------------------------------------------------------------
  // One authorization buys one entitlement
  // ---------------------------------------------------------------------------

  // Two presentations that sign the same sender and nonce on the same rail, however spelled, mint passes
  // for one scope, one audience and one expiry, over all retries, processes and restarts.
  lemma OneAuthorizationOneEntitlement(ss: seq<State>, es: seq<Event>, m: nat, n: nat, p: Payload, req: Requirements,
                                       p': Payload, req': Requirements, x: Pass, y: Pass)
    requires IsRun(ss, es) && m <= n <= |es|
    requires PaymentName(p, req).Ok? && PaymentName(p', req').Ok?
    requires req.network == req'.network && Text.EqualFold(req.asset, req'.asset)
    requires req.TransferMethod() == req'.TransferMethod()
    requires Text.EqualFold(SignedAuth(p, req).from, SignedAuth(p', req').from)
    requires Spells(SignedAuth(p, req).nonce) == Spells(SignedAuth(p', req').nonce)
    requires (PaymentName(p, req).value, x) in ss[m].minted
    requires (PaymentName(p', req').value, y) in ss[n].minted
    ensures x.scope == y.scope && x.aud == y.aud && x.exp == y.exp
  {
    SamePaymentIff(p, req, p', req');
    RunKeepsInv(ss, es, m);
    RunKeepsInv(ss, es, n);
    GrantsArePermanent(ss, es, m, n, PaymentName(p, req).value);
  }

  // Every pass minted for a payment expires when the grant does: at the first whole second at or after
  // the commit's clock reading plus the rule's lifetime. Retries never extend it.
  lemma EntitlementPeriod(ss: seq<State>, es: seq<Event>, n: nat, id: Name, x: Pass)
    requires IsRun(ss, es) && n <= |es| && (id, x) in ss[n].minted
    ensures var s := ss[n];
            && id in s.receipts && s.At(id).Bought?
            && x.scope == s.At(id).grant.scope && x.aud == s.At(id).grant.audience && x.exp == s.At(id).grant.expiresAt
            && var due := s.receipts[id].readAt + s.receipts[id].ttl;
               due <= x.exp * SECOND < due + SECOND
  {
    RunKeepsInv(ss, es, n);
    var s := ss[n];
    assert HistoryAt(s, id) && Sells(s.At(id), x);
    PaidExpiryRoundsUp(s.receipts[id].readAt, s.receipts[id].ttl);
  }

  // ---------------------------------------------------------------------------
  // Lease exclusion, on one clock
  // ---------------------------------------------------------------------------

  // One monotone clock: steps happen in clock order and act on readings already taken.
  ghost predicate Clocked(ss: seq<State>, es: seq<Event>)
    requires IsRun(ss, es)
  {
    forall k {:trigger es[k]} :: 0 <= k < |es| ==> ss[k].clock <= es[k].at && (es[k].Begin? ==> es[k].readAt <= es[k].at)
  }

  ghost predicate HoldsItsSlot(a: Attempt, slots: map<Name, Slot>) {
    SlotAt(slots, a.id) == Held(a.lease, a.beganAt + PAYMENT_LEASE)
  }

  ghost predicate LeaseInv(s: State) {
    forall w :: w in s.attempts && s.attempts[w].Pays() && s.clock < s.attempts[w].beganAt + PAYMENT_LEASE
      ==> HoldsItsSlot(s.attempts[w], s.slots)
  }

  // While its lease runs, no other attempt's step touches the slot an attempt holds.
  lemma OthersLeaveItAlone(s: State, e: Event, w: nat)
    requires Inv(s) && Enabled(s, e) && w in s.attempts && e.who != w
    requires s.attempts[w].Pays() && HoldsItsSlot(s.attempts[w], s.slots)
    requires e.Begin? ==> e.readAt < s.attempts[w].beganAt + PAYMENT_LEASE
    ensures HoldsItsSlot(s.attempts[w], Apply(s, e).slots)
  {
    assert AttemptOk(s.attempts[w], s.slots, s.drawn);
    assert e.who in s.attempts ==> s.attempts[e.who].lease != s.attempts[w].lease;
    hide Inv, AttemptOk;
    if s.At(s.attempts[w].id) != Apply(s, e).At(s.attempts[w].id) {
      ReservationMoves(s, e, s.attempts[w].id);
    }
  }

  // An attempt still on its way to a commit has touched no slot since it reserved one.
  lemma OwnStepsKeepSlot(s: State, e: Event)
    requires Inv(s) && Enabled(s, e) && e.who in Apply(s, e).attempts && Apply(s, e).attempts[e.who].Pays()
    ensures e.Begin? ==> HoldsItsSlot(Apply(s, e).attempts[e.who], Apply(s, e).slots)
    ensures !e.Begin? ==> && e.who in s.attempts && s.attempts[e.who].Pays()
                          && Apply(s, e).slots == s.slots
                          && Apply(s, e).attempts[e.who].(stage := Leaving) == s.attempts[e.who].(stage := Leaving)
  {
    if e.Begin? {
      hide Inv, OnCommit, OnServe, OnRelease;
    } else {
      hide Inv, OnBegin, CommitSlot, GrantFor, PaidPass, ReleaseSlot;
    }
  }

  lemma StepKeepsLeases(s: State, e: Event)
    requires Inv(s) && LeaseInv(s) && Enabled(s, e) && s.clock <= e.at
    requires e.Begin? ==> e.readAt <= e.at
    ensures LeaseInv(Apply(s, e))
  {
    var s' := Apply(s, e);
    forall w | w in s'.attempts && s'.attempts[w].Pays() && s'.clock < s'.attempts[w].beganAt + PAYMENT_LEASE
      ensures HoldsItsSlot(s'.attempts[w], s'.slots)
    {
      if w == e.who {
        OwnStepsKeepSlot(s, e);
      } else {
        OthersAreUnchanged(s, e, w);
        OthersLeaveItAlone(s, e, w);
      }
    }
  }

  // The step of one attempt leaves the others as they are.
  ghost predicate OnlyMoves(before: map<nat, Attempt>, after: map<nat, Attempt>, who: nat) {
    forall w: nat :: w != who ==> (w in after <==> w in before) && (w in before ==> after[w] == before[w])
  }

  lemma OthersAreUnchanged(s: State, e: Event, w: nat)
    requires Enabled(s, e) && w != e.who
    ensures w in Apply(s, e).attempts <==> w in s.attempts
    ensures w in s.attempts ==> Apply(s, e).attempts[w] == s.attempts[w]
  {
    hide OnBegin, OnCommit, OnServe, OnRelease;
    match e
    case Begin(_, _, _, _, _, _, _) => BeginMovesOne(s, e);
    case Commit(_, _, _, _) => CommitMovesOne(s, e);
    case Serve(_, _, _) => ServeMovesOne(s, e);
    case Release(_, _, _) => ReleaseMovesOne(s, e);
    case _ =>
  }

  lemma BeginMovesOne(s: State, e: Event)
    requires e.Begin?
    ensures OnlyMoves(s.attempts, OnBegin(s, e).attempts, e.who)
  {
    hide BeginSlot;
  }

  lemma CommitMovesOne(s: State, e: Event)
    requires e.Commit? && Enabled(s, e)
    ensures OnlyMoves(s.attempts, OnCommit(s, e).attempts, e.who)
  {
    hide CommitSlot, GrantFor, OnlyMoves;
    forall stage ensures OnlyMoves(s.attempts, s.attempts[e.who := s.attempts[e.who].(stage := stage)], e.who) {
      OneUpdate(s.attempts, e.who, s.attempts[e.who].(stage := stage));
    }
  }

  lemma OneUpdate(attempts: map<nat, Attempt>, who: nat, a: Attempt)
    ensures OnlyMoves(attempts, attempts[who := a], who)
  {
  }

  lemma ServeMovesOne(s: State, e: Event)
    requires e.Serve? && Enabled(s, e)
    ensures OnlyMoves(s.attempts, OnServe(s, e).attempts, e.who)
  {
    hide PaidPass;
  }

  lemma ReleaseMovesOne(s: State, e: Event)
    requires e.Release? && Enabled(s, e)
    ensures OnlyMoves(s.attempts, OnRelease(s, e).attempts, e.who)
  {
    hide ReleaseSlot;
  }

  // An attempt that has not yet committed holds its reservation for the whole of its lease.
  lemma {:induction false} LeasesAreHonoured(ss: seq<State>, es: seq<Event>, n: nat)
    requires IsRun(ss, es) && Clocked(ss, es) && n <= |es|
    ensures LeaseInv(ss[n])
  {
    if n > 0 {
      LeasesAreHonoured(ss, es, n - 1);
      RunKeepsInv(ss, es, n - 1);
      StepKeepsLeases(ss[n - 1], es[n - 1]);
    }
  }

  lemma LeaseExclusion(ss: seq<State>, es: seq<Event>, n: nat, v: nat, w: nat)
    requires IsRun(ss, es) && Clocked(ss, es) && n <= |es|
    requires var s := ss[n];
             && v in s.attempts && w in s.attempts && s.attempts[v].id == s.attempts[w].id
             && s.attempts[v].Pays() && s.clock < s.attempts[v].beganAt + PAYMENT_LEASE
             && s.attempts[w].Pays() && s.clock < s.attempts[w].beganAt + PAYMENT_LEASE
    ensures v == w
  {
    RunKeepsInv(ss, es, n);
    LeasesAreHonoured(ss, es, n);
    var s := ss[n];
    assert AttemptOk(s.attempts[v], s.slots, s.drawn);
    assert HoldsItsSlot(s.attempts[v], s.slots) && HoldsItsSlot(s.attempts[w], s.slots);
  }

  // What route compilation and configuration guarantee about a purchase. The audience comes from the request.
  predicate Configured(p: Purchase) {
    p.scope != "" && p.network != "" && p.ttl >= SECOND
  }

  // normalizeAuthority. `split` is net.SplitHostPort, which finds no port in a text without a colon.
  function Authority(host: string, split: string -> Option<(string, string)>): string {
    var authority := Text.ToLower(Text.TrimSpace(host));
    match split(authority)
    case Some((name, port)) => WithoutDot(name) + ":" + port
    case None => WithoutDot(authority)
  }

  function WithoutDot(s: string): string {
    if s != "" && s[|s| - 1] == '.' then s[..|s| - 1] else s
  }

  // The requests that name no site: those with no Host, or a lone dot for one.
  lemma NamelessIff(host: string, split: string -> Option<(string, string)>)
    requires forall t :: ':' !in t ==> split(t) == None
    ensures Authority(host, split) == "" <==> Text.TrimSpace(host) == "" || Text.TrimSpace(host) == ['.']
  {
    var trimmed := Text.TrimSpace(host);
    var lower := Text.ToLower(trimmed);
    if |trimmed| == 1 {
      assert lower[0] == '.' <==> trimmed[0] == '.';
      assert lower == [lower[0]] && trimmed == [trimmed[0]];
    }
  }

  // A commit is in time when its transaction runs before its reservation's lease is over.
  predicate InTime(s: State, e: Event)
    requires e.Commit? && Enabled(s, e)
  {
    e.at < s.attempts[e.who].beganAt + PAYMENT_LEASE
  }

  // A grant for a configured rule is complete exactly when the request named a site.
  lemma CompleteIffNamed(a: Attempt, readAt: nat)
    requires a.stage.Settled? && a.stage.tx != "" && Configured(a.purchase)
    ensures CompleteGrant(GrantFor(a, readAt)) <==> a.purchase.audience != ""
  {
    PaidExpiryRoundsUp(readAt, a.purchase.ttl);
    var exp := PaidExpiry(readAt, a.purchase.ttl);
    assert exp >= SECOND && Unix(exp) * SECOND == exp;
  }

  // A Valid verdict committed in time. The reservation cannot have disappeared or changed and the grant-conflict
  // branch is not taken, so the grant is written, and its value counted as fresh, exactly when it is complete;
  // otherwise the ledger and the count stay as they are and the attempt ends with nothing to serve.
  lemma TimelyCommitCreatesIff(ss: seq<State>, es: seq<Event>, n: nat)
    requires IsRun(ss, es) && Clocked(ss, es) && n < |es|
    requires es[n].Commit? && es[n].disk && InTime(ss[n], es[n])
    ensures var s, s', e := ss[n], ss[n + 1], es[n];
            var a := s.attempts[e.who];
            && (s'.At(a.id).Bought? <==> CompleteGrant(GrantFor(a, e.readAt)))
            && (Configured(a.purchase) ==> (s'.At(a.id).Bought? <==> a.purchase.audience != ""))
            && s'.overtaken == s.overtaken
            && if CompleteGrant(GrantFor(a, e.readAt)) then
                 && s'.At(a.id) == Bought(GrantFor(a, e.readAt))
                 && s'.attempts[e.who].stage == Serving(GrantFor(a, e.readAt))
                 && s'.created == s.created + multiset{a.id}
                 && s'.counted == s.counted + multiset{a.id}
               else
                 && s'.slots == s.slots && s'.created == s.created && s'.counted == s.counted
                 && s'.attempts[e.who].stage == Leaving
  {
    RunKeepsInv(ss, es, n);
    LeasesAreHonoured(ss, es, n);
    var s, e := ss[n], es[n];
    var a := s.attempts[e.who];
    assert HoldsItsSlot(a, s.slots) && AttemptOk(a, s.slots, s.drawn);
    assert Follows(s, e, ss[n + 1]);
    if Configured(a.purchase) {
      CompleteIffNamed(a, e.readAt);
    }
    TimelyCommit(s, e);
  }

  lemma TimelyCommit(s: State, e: Event)
    requires e.Commit? && e.disk && Enabled(s, e)
    requires var a := s.attempts[e.who]; a.lease != "" && s.At(a.id).Held? && s.At(a.id).lease == a.lease
    ensures var s' := Apply(s, e);
            var a := s.attempts[e.who];
            && s'.overtaken == s.overtaken
            && if CompleteGrant(GrantFor(a, e.readAt)) then
                 && s'.At(a.id) == Bought(GrantFor(a, e.readAt))
                 && s'.attempts[e.who].stage == Serving(GrantFor(a, e.readAt))
                 && s'.created == s.created + multiset{a.id}
                 && s'.counted == s.counted + multiset{a.id}
               else
                 && s'.slots == s.slots && s'.created == s.created && s'.counted == s.counted
                 && s'.attempts[e.who].stage == Leaving
  {
    hide CompleteGrant, OnBegin, OnServe, OnRelease;
  }

  ghost predicate AllInTime(ss: seq<State>, es: seq<Event>)
    requires IsRun(ss, es)
  {
    forall k {:trigger es[k]} :: 0 <= k < |es| && es[k].Commit? ==> InTime(ss[k], es[k])
  }

  // Only a commit whose lease has run out can find the grant already written.
  lemma OvertakenOnlyWhenLate(ss: seq<State>, es: seq<Event>, n: nat)
    requires IsRun(ss, es) && Clocked(ss, es) && n < |es|
    requires es[n].Commit? ==> InTime(ss[n], es[n])
    ensures ss[n + 1].overtaken == ss[n].overtaken
  {
    if es[n].Commit? {
      LeasesAreHonoured(ss, es, n);
      var s := ss[n];
      assert HoldsItsSlot(s.attempts[es[n].who], s.slots);
    }
  }

  // If every commit is in time, countPaidValue has run exactly once for each bought id and never for
  // another, although the created flag is ignored.
  lemma {:induction false} TimelyRunsCountOnce(ss: seq<State>, es: seq<Event>, n: nat)
    requires IsRun(ss, es) && Clocked(ss, es) && AllInTime(ss, es) && n <= |es|
    ensures ss[n].overtaken == multiset{}
    ensures forall id :: ss[n].counted[id] == One(ss[n].At(id))
  {
    if n > 0 {
      TimelyRunsCountOnce(ss, es, n - 1);
      OvertakenOnlyWhenLate(ss, es, n - 1);
    }
    RunKeepsInv(ss, es, n);
    forall id ensures ss[n].counted[id] == One(ss[n].At(id)) {
      assert HistoryAt(ss[n], id);
    }
  }

  // The event that counts a payment again: a complete grant for it is committed where a grant for the same
  // purchase already stands.
  predicate FindsGrant(s: State, e: Event, id: Name) {
    && e.Commit? && e.disk && e.who in s.attempts
    && var a := s.attempts[e.who];
       && a.stage.Settled? && a.id == id && CompleteGrant(GrantFor(a, e.readAt))
       && s.At(id).Bought? && ForPurchase(s.At(id).grant, a.purchase)
  }

  // How many of the first n events do that.
  function Repeats(ss: seq<State>, es: seq<Event>, n: nat, id: Name): nat
    requires n <= |es| && n <= |ss|
  {
    if n == 0 then 0 else Repeats(ss, es, n - 1, id) + if FindsGrant(ss[n - 1], es[n - 1], id) then 1 else 0
  }

  lemma OvertakenStep(s: State, e: Event, id: Name)
    requires Enabled(s, e)
    ensures Apply(s, e).overtaken[id] == s.overtaken[id] + if FindsGrant(s, e, id) then 1 else 0
  {
    hide OnBegin, OnCommit, OnServe, OnRelease, FindsGrant;
    match e
    case Begin(_, _, _, _, _, _, _) => BeginCountsNothing(s, e, id);
    case Commit(_, _, _, _) => OvertakenCommit(s, e, id);
    case _ => OthersCountNothing(s, e, id);
  }

  lemma OvertakenCommit(s: State, e: Event, id: Name)
    requires e.Commit? && Enabled(s, e)
    ensures OnCommit(s, e).overtaken[id] == s.overtaken[id] + if FindsGrant(s, e, id) then 1 else 0
  {
    hide GrantFor, CompleteGrant;
  }

  lemma BeginCountsNothing(s: State, e: Event, id: Name)
    requires e.Begin?
    ensures OnBegin(s, e).overtaken == s.overtaken && !FindsGrant(s, e, id)
  {
    hide BeginSlot;
  }

  lemma OthersCountNothing(s: State, e: Event, id: Name)
    requires !e.Begin? && !e.Commit? && Enabled(s, e)
    ensures Apply(s, e).overtaken == s.overtaken && !FindsGrant(s, e, id)
  {
    hide PaidPass, ReleaseSlot;
  }

  lemma {:induction false} OvertakenIsRepeats(ss: seq<State>, es: seq<Event>, n: nat, id: Name)
    requires IsRun(ss, es) && n <= |es|
    ensures ss[n].overtaken[id] == Repeats(ss, es, n, id)
  {
    hide Apply, Enabled, FindsGrant;
    if n > 0 {
      OvertakenIsRepeats(ss, es, n - 1, id);
      assert Follows(ss[n - 1], es[n - 1], ss[n]);
      OvertakenStep(ss[n - 1], es[n - 1], id);
    }
  }

  lemma {:induction false} NoRepeat(ss: seq<State>, es: seq<Event>, n: nat, id: Name)
    requires n <= |es| && n <= |ss|
    ensures Repeats(ss, es, n, id) == 0 <==> forall k :: 0 <= k < n ==> !FindsGrant(ss[k], es[k], id)
  {
    hide FindsGrant;
    if n > 0 {
      NoRepeat(ss, es, n - 1, id);
    }
  }

  // With no assumption on clocks: value is counted for an id once if its grant was written, and once more for
  // every commit that found it written. So a bought id is counted once exactly when no commit did.
  lemma CountedOnceIff(ss: seq<State>, es: seq<Event>, n: nat, id: Name)
    requires IsRun(ss, es) && n <= |es|
    ensures ss[n].counted[id] == One(ss[n].At(id)) + Repeats(ss, es, n, id)
    ensures ss[n].At(id).Bought? ==>
              (ss[n].counted[id] == 1 <==> forall k :: 0 <= k < n ==> !FindsGrant(ss[k], es[k], id))
  {
    RunKeepsInv(ss, es, n);
    assert HistoryAt(ss[n], id);
    OvertakenIsRepeats(ss, es, n, id);
    NoRepeat(ss, es, n, id);
  }

  // It does happen: the first attempt settles but commits after its lease, when a second attempt has
  // already reserved, settled and committed the same authorization.
  function LateSale(): Purchase {
    Purchase("scope", "example.org", "eip155:1", SECOND)
  }

  // One attempt reserves and settles at once.
  function FirstSale(id: Name, sale: Purchase): seq<Event> {
    [ Begin(0, 0, id, sale, Some("a"), 0, true),
      Settle(0, 0, "payer", "tx", "") ]
  }

  function LateRun(id: Name): seq<Event> {
    var later := 31 * SECOND;
    FirstSale(id, LateSale()) +
    [ Begin(1, later, id, LateSale(), Some("b"), later, true),
      Settle(1, later, "payer", "tx", ""),
      Commit(1, later, later, true),
      Commit(0, later, later, true) ]
  }

  // The first states of a run on one clock.
  ghost predicate Walks(ss: seq<State>, es: seq<Event>) {
    && 1 <= |ss| <= |es| + 1 && ss[0] == START
    && forall k {:trigger es[k]} :: 0 <= k < |ss| - 1 ==>
         Follows(ss[k], es[k], ss[k + 1]) && ss[k].clock <= es[k].at && (es[k].Begin? ==> es[k].readAt <= es[k].at)
  }

  lemma OneMore(ss: seq<State>, es: seq<Event>, s': State)
    requires Walks(ss, es) && |ss| <= |es|
    requires var s, e := ss[|ss| - 1], es[|ss| - 1];
             Follows(s, e, s') && s.clock <= e.at && (e.Begin? ==> e.readAt <= e.at)
    ensures Walks(ss + [s'], es)
  {
    hide Follows;
  }

  lemma LateCommitCountsTwice(id: Name)
    ensures exists ss: seq<State>, es: seq<Event> :: IsRun(ss, es) && Clocked(ss, es) && ss[|es|].counted[id] == 2
  {
    var es := LateRun(id);
    var ss := LateRunBuys(id);
    var s, e := ss[5], es[5];
    assert Enabled(s, e);
    assert OnCommit(s, e).counted == s.counted + multiset{id};
    OneMore(ss, es, Apply(s, e));
    var all := ss + [Apply(s, e)];
    assert IsRun(all, es) && Clocked(all, es) && all[6].counted[id] == 2;
  }

  // The fifth step: attempt 1 commits its grant while attempt 0 still waits with its old lease.
  lemma LateRunBuys(id: Name) returns (ss: seq<State>)
    ensures Walks(ss, LateRun(id)) && |ss| == 6
    ensures ss[5].clock == 31 * SECOND && ss[5].counted == multiset{id} && ss[5].At(id).Bought? && 0 in ss[5].attempts
    ensures ss[5].attempts[0] == Attempt(id, LateSale(), "a", 0, Settled("payer", "tx", ""))
    ensures ForPurchase(ss[5].At(id).grant, LateSale())
  {
    var es := LateRun(id);
    ss := LateRunReserves(id);
    var s, e := ss[4], es[4];
    assert Enabled(s, e);
    var a := s.attempts[1];
    CompleteIffNamed(a, e.readAt);
    assert CommitSlot(s.At(id), a.lease, GrantFor(a, e.readAt))
        == (Bought(GrantFor(a, e.readAt)), Ok((GrantFor(a, e.readAt), true)));
    OneMore(ss, es, Apply(s, e));
    ss := ss + [Apply(s, e)];
  }

  // The first four steps: attempt 0 has settled under an old lease, attempt 1 under the one in force.
  lemma LateRunReserves(id: Name) returns (ss: seq<State>)
    ensures Walks(ss, LateRun(id)) && |ss| == 5
    ensures ss[4].clock == 31 * SECOND && ss[4].counted == multiset{} && ss[4].attempts.Keys == {0, 1}
    ensures ss[4].At(id) == Held("b", 31 * SECOND + PAYMENT_LEASE)
    ensures ss[4].attempts[0] == Attempt(id, LateSale(), "a", 0, Settled("payer", "tx", ""))
    ensures ss[4].attempts[1] == Attempt(id, LateSale(), "b", 31 * SECOND, Settled("payer", "tx", ""))
  {
    var es := LateRun(id);
    assert es[..2] == FirstSale(id, LateSale());
    ss := FirstSaleRuns(id, LateSale(), es);
    assert "b" != "a";
    var s3 := Apply(ss[2], es[2]);
    OneMore(ss, es, s3);
    assert s3.attempts.Keys == {0, 1};
    ss := ss + [s3];
    var s4 := Apply(s3, es[3]);
    OneMore(ss, es, s4);
    ss := ss + [s4];
  }

  // The first two: attempt 0 reserves and settles.
  lemma FirstSaleRuns(id: Name, sale: Purchase, es: seq<Event>) returns (ss: seq<State>)
    requires |es| >= 2 && es[..2] == FirstSale(id, sale)
    ensures Walks(ss, es) && |ss| == 3
    ensures ss[2].clock == 0 && ss[2].counted == multiset{} && ss[2].attempts.Keys == {0} && ss[2].drawn == {"a"}
    ensures ss[2].At(id) == Held("a", PAYMENT_LEASE)
    ensures ss[2].attempts[0] == Attempt(id, sale, "a", 0, Settled("payer", "tx", ""))
  {
    assert es[0] == es[..2][0] && es[1] == es[..2][1];
    var s1 := Apply(START, es[0]);
    OneMore([START], es, s1);
    assert s1.At(id) == Held("a", PAYMENT_LEASE) && s1.attempts.Keys == {0} && s1.drawn == {"a"};
    ss := [START, s1];
    assert [START] + [s1] == ss;
    var s2 := Apply(s1, es[1]);
    OneMore(ss, es, s2);
    ss := ss + [s2];
  }

  // A request that names no site is sold to all the same: the payment is reserved and settled, and its grant is
  // refused in time, on a working disk, under a configured rule. A retry that names no site fares the same.
  lemma NamelessSaleIsSettledAndRefused(id: Name)
    ensures exists ss: seq<State>, es: seq<Event> ::
              && IsRun(ss, es) && Clocked(ss, es) && AllInTime(ss, es) && |es| == 3
              && es[1].Settle? && es[2].Commit? && es[2].disk
              && ss[2].attempts[es[2].who].id == id && Configured(ss[2].attempts[es[2].who].purchase)
              && !ss[3].At(id).Bought? && ss[3].counted == multiset{} && ss[3].attempts[es[2].who].stage == Leaving
  {
    var sale := Purchase("scope", "", "eip155:1", SECOND);
    var es := FirstSale(id, sale) + [Commit(0, 0, 0, true)];
    assert es[..2] == FirstSale(id, sale);
    var ss := FirstSaleRuns(id, sale, es);
    var s, e := ss[2], es[2];
    assert Enabled(s, e);
    CompleteIffNamed(s.attempts[0], 0);
    TimelyCommit(s, e);
    OneMore(ss, es, Apply(s, e));
    var all := ss + [Apply(s, e)];
    WalkIsRun(all, es);
    assert InTime(all[2], es[2]);
    assert all[2] == s && all[3] == Apply(s, e);
  }

  lemma WalkIsRun(ss: seq<State>, es: seq<Event>)
    requires Walks(ss, es) && |ss| == |es| + 1
    ensures IsRun(ss, es) && Clocked(ss, es)
  {
    hide Follows;
  }
}
