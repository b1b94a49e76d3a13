/** The two guards in front of facilitator egress: the per-client token bucket and the circuit breaker.
    (internal/payment/guards.go) */
module Guards {
  import opened Wrappers

  // ---------------------------------------------------------------------------
  // Circuit breaker
  // ---------------------------------------------------------------------------

  datatype Dial = Dial(threshold: int, window: int, cooldown: int) {
    predicate Sane() {
      threshold > 0 && window > 0 && cooldown > 0
    }
  }

  // What a breaker remembers. `openUntil` is None for Go's zero time.
  datatype Circuit = Circuit(failures: seq<int>, openUntil: Option<int>) {
    predicate Open(now: int) {
      openUntil.Some? && now < openUntil.value
    }
  }

  // The instants strictly after `cut`, in order.
  function Recent(ts: seq<int>, cut: int): seq<int> {
    if ts == [] then []
    else Recent(ts[..|ts| - 1], cut) + if ts[|ts| - 1] > cut then [ts[|ts| - 1]] else []
  }

  function FailStep(d: Dial, c: Circuit, now: int): (Circuit, bool) {
    if c.Open(now) then (c, false)
    else
      var failures := Recent(c.failures, now - d.window) + [now];
      if |failures| >= d.threshold then (Circuit([], Some(now + d.cooldown)), true)
      else (Circuit(failures, c.openUntil), false)
  }

  const CLOSED := Circuit([], None)

  class Breaker {
    var slots: array<int>   // backing array of the failures slice
    var count: nat          // its length
    var openUntil: Option<int>
    const dial: Dial

    ghost predicate Valid()
      reads this, slots
    {
      dial.Sane() && count <= slots.Length && count < dial.threshold
    }

    ghost function View(): Circuit
      reads this, slots
      requires Valid()
    {
      Circuit(slots[..count], openUntil)
    }

    constructor (threshold: int, window: int, cooldown: int)
      ensures Valid() && fresh(slots) && View() == CLOSED
      ensures dial == Dial(if threshold <= 0 then 3 else threshold,
                           if window <= 0 then 30 * SECOND else window,
                           if cooldown <= 0 then 30 * SECOND else cooldown)
    {
      dial := Dial(if threshold <= 0 then 3 else threshold,
                   if window <= 0 then 30 * SECOND else window,
                   if cooldown <= 0 then 30 * SECOND else cooldown);
      slots, count, openUntil := new int[0], 0, None;
    }

    method IsOpen(now: int) returns (open: bool)
      requires Valid()
      ensures open == View().Open(now)
    {
      open := openUntil.Some? && now < openUntil.value;
    }

    // The advertised wait is the enforced one: absent other calls, the breaker is open at
    // exactly the instants before now + wait.
    method RetryAfter(now: int) returns (wait: int)
      requires Valid()
      ensures wait >= 0
      ensures forall t :: now <= t ==> (View().Open(t) <==> t < now + wait)
    {
      if openUntil.Some? && openUntil.value - now > 0 {
        return openUntil.value - now;
      }
      return 0;
    }

    // The compaction writes into the array it reads from; the write index never passes the read index.
    method Compact(cut: int)
      requires count <= slots.Length
      modifies this`count, slots
      ensures count <= slots.Length
      ensures slots[..count] == Recent(old(slots[..count]), cut)
    {
      ghost var was := slots[..count];
      var kept, i := 0, 0;
      while i < count
        invariant 0 <= kept <= i <= count == |was| <= slots.Length
        invariant forall k :: i <= k < count ==> slots[k] == was[k]
        invariant slots[..kept] == Recent(was[..i], cut)
      {
        assert was[..i + 1][..i] == was[..i];
        if slots[i] > cut {
          slots[kept] := slots[i];
          kept := kept + 1;
          assert slots[..kept] == slots[..kept - 1] + [was[i]];
        }
        i := i + 1;
      }
      assert was[..count] == was;
      count := kept;
    }

    method Append(t: int)
      requires count <= slots.Length
      modifies this, slots
      ensures count <= slots.Length && (slots == old(slots) || fresh(slots))
      ensures slots[..count] == old(slots[..count]) + [t] && openUntil == old(openUntil)
    {
      if count == slots.Length {
        var bigger := new int[count + 1];
        forall k | 0 <= k < count {
          bigger[k] := slots[k];
        }
        bigger[count] := t;
        assert bigger[..count] == slots[..count];
        slots := bigger;
      } else {
        slots[count] := t;
      }
      count := count + 1;
    }

    method Fail(now: int) returns (tripped: bool)
      requires Valid()
      modifies this, slots
      ensures Valid() && (slots == old(slots) || fresh(slots))
      ensures (View(), tripped) == FailStep(dial, old(View()), now)
    {
      hide Recent;
      if openUntil.Some? && now < openUntil.value {
        return false;
      }
      Compact(now - dial.window);
      Append(now);
      if count >= dial.threshold {
        openUntil := Some(now + dial.cooldown);
        slots, count := new int[0], 0;
        return true;
      }
      return false;
    }

    method Succeed()
      requires Valid()
      modifies this
      ensures Valid() && fresh(slots) && View() == CLOSED
    {
      slots, count, openUntil := new int[0], 0, None;
    }
  }

  datatype Report = Failure(at: int) | Success(at: int)

  function Step(d: Dial, c: Circuit, r: Report): (Circuit, bool) {
    if r.Failure? then FailStep(d, c, r.at) else (CLOSED, false)
  }

  // The breaker after the first n reports.
  function Run(d: Dial, c: Circuit, rs: seq<Report>, n: nat): Circuit
    requires n <= |rs|
  {
    if n == 0 then c else Step(d, Run(d, c, rs, n - 1), rs[n - 1]).0
  }

  // Whether report i of a run is the one that opens the breaker.
  predicate Opens(d: Dial, c: Circuit, rs: seq<Report>, i: nat)
    requires i < |rs|
  {
    Step(d, Run(d, c, rs, i), rs[i]).1
  }

  // The same breaker told by its whole history: nothing is ever compacted away. `pending` is every
  // unsuppressed failure since the last reset (a success, or an opening).
  datatype History = History(pending: seq<int>, openUntil: Option<int>) {
    predicate Suppresses(r: Report) {
      openUntil.Some? && r.at < openUntil.value
    }

    // The failures inside the window that ends with a failure at `now`.
    function InWindow(d: Dial, now: int): seq<int> {
      Recent(pending + [now], now - d.window)
    }

    predicate LatestBy(t: int) {
      pending != [] ==> pending[|pending| - 1] <= t
    }
  }

  function Remember(d: Dial, h: History, r: Report): (History, bool) {
    if r.Success? then (History([], None), false)
    else if h.Suppresses(r) then (h, false)
    else if |h.InWindow(d, r.at)| >= d.threshold then (History([], Some(r.at + d.cooldown)), true)
    else (History(h.pending + [r.at], h.openUntil), false)
  }

  function Recall(d: Dial, rs: seq<Report>, n: nat): History
    requires n <= |rs|
  {
    if n == 0 then History([], None) else Remember(d, Recall(d, rs, n - 1), rs[n - 1]).0
  }

  predicate Monotone(rs: seq<Report>) {
    forall i, j :: 0 <= i <= j < |rs| ==> rs[i].at <= rs[j].at
  }

  // What the breaker keeps of a history: the failures in the window that ends at the last of them.
  predicate Mirrors(d: Dial, c: Circuit, h: History) {
    && c.openUntil == h.openUntil
    && |c.failures| < d.threshold
    && (h.pending == [] ==> c.failures == [])
    && (h.pending != [] ==> c.failures == Recent(h.pending, h.pending[|h.pending| - 1] - d.window))
  }

  lemma {:induction false} RecentTwice(ts: seq<int>, low: int, high: int)
    requires low <= high
    ensures Recent(Recent(ts, low), high) == Recent(ts, high)
  {
    if ts != [] {
      var front, last := ts[..|ts| - 1], ts[|ts| - 1];
      RecentTwice(front, low, high);
      if last > low {
        assert Recent(ts, low)[..|Recent(ts, low)| - 1] == Recent(front, low);
      } else {
        assert Recent(ts, low) == Recent(front, low);
      }
    }
  }

  lemma RecentSnoc(ts: seq<int>, t: int, cut: int)
    ensures Recent(ts + [t], cut) == Recent(ts, cut) + if t > cut then [t] else []
  {
    assert (ts + [t])[..|ts|] == ts;
  }

  lemma RecentOfNone(cut: int)
    ensures Recent([], cut) == []
  {
  }

  // What Fail counts is what the history has in the window.
  lemma CompactionLosesNothing(d: Dial, c: Circuit, h: History, now: int)
    requires d.Sane() && Mirrors(d, c, h) && h.LatestBy(now)
    ensures Recent(c.failures, now - d.window) + [now] == h.InWindow(d, now)
  {
    hide Recent;
    RecentSnoc(h.pending, now, now - d.window);
    RecentOfNone(now - d.window);
    if h.pending != [] {
      RecentTwice(h.pending, h.pending[|h.pending| - 1] - d.window, now - d.window);
    }
  }

  lemma StepMirrors(d: Dial, c: Circuit, h: History, r: Report)
    requires d.Sane() && Mirrors(d, c, h) && h.LatestBy(r.at)
    ensures Step(d, c, r).1 == Remember(d, h, r).1
    ensures Mirrors(d, Step(d, c, r).0, Remember(d, h, r).0)
    ensures Remember(d, h, r).0.LatestBy(r.at)
  {
    hide Recent;
    CompactionLosesNothing(d, c, h, r.at);
    RecentSnoc(h.pending, r.at, r.at - d.window);
  }

  // Compacting as it goes loses nothing: at every point of every monotone run the breaker holds exactly
  // the unsuppressed failures since the last reset that were inside the window at the last of them, it is
  // open exactly when the history says so, and it holds fewer than the threshold.
  lemma {:induction false} BreakerRefinesHistory(d: Dial, rs: seq<Report>, n: nat)
    requires d.Sane() && Monotone(rs) && n <= |rs|
    ensures Mirrors(d, Run(d, CLOSED, rs, n), Recall(d, rs, n))
    ensures n < |rs| ==> Recall(d, rs, n).LatestBy(rs[n].at)
  {
    if n > 0 {
      BreakerRefinesHistory(d, rs, n - 1);
      StepMirrors(d, Run(d, CLOSED, rs, n - 1), Recall(d, rs, n - 1), rs[n - 1]);
    }
  }

  // Fail answers true at exactly the unsuppressed failures that bring the in-window count to the threshold.
  lemma FailOpensAtThreshold(d: Dial, rs: seq<Report>, i: nat)
    requires d.Sane() && Monotone(rs) && i < |rs|
    ensures Opens(d, CLOSED, rs, i) <==>
            var h := Recall(d, rs, i);
            rs[i].Failure? && !h.Suppresses(rs[i]) && |h.InWindow(d, rs[i].at)| >= d.threshold
  {
    BreakerRefinesHistory(d, rs, i);
    StepMirrors(d, Run(d, CLOSED, rs, i), Recall(d, rs, i), rs[i]);
  }

  lemma {:induction false} OpenUntilOnlyGrows(d: Dial, c: Circuit, rs: seq<Report>, i: nat, j: nat, until: int)
    requires d.Sane() && i <= j <= |rs|
    requires Run(d, c, rs, i).openUntil == Some(until)
    requires forall k :: i <= k < j ==> rs[k].Failure?
    ensures Run(d, c, rs, j).openUntil.Some? && Run(d, c, rs, j).openUntil.value >= until
  {
    if i < j {
      OpenUntilOnlyGrows(d, c, rs, i, j - 1, until);
    }
  }

  // Two openings with no success between them are at least a cooldown apart, whatever the clock does.
  lemma OpeningsAreACooldownApart(d: Dial, c: Circuit, rs: seq<Report>, i: nat, j: nat)
    requires d.Sane() && i < j < |rs|
    requires Opens(d, c, rs, i) && Opens(d, c, rs, j)
    requires forall k :: i < k < j ==> rs[k].Failure?
    ensures rs[j].at >= rs[i].at + d.cooldown
  {
    OpenUntilOnlyGrows(d, c, rs, i + 1, j, rs[i].at + d.cooldown);
  }

  // An opened breaker is open for the cooldown, to the nanosecond, and has forgotten the failures before it.
  lemma OpeningLastsACooldown(d: Dial, c: Circuit, now: int)
    requires FailStep(d, c, now).1
    ensures FailStep(d, c, now).0.failures == []
    ensures forall t :: FailStep(d, c, now).0.Open(t) <==> t < now + d.cooldown
  {
  }

  // How many of the first n reports came less than a window before `now`.
  function CountWithin(rs: seq<Report>, n: nat, now: int, window: int): nat
    requires n <= |rs|
  {
    if n == 0 then 0 else CountWithin(rs, n - 1, now, window) + if now - rs[n - 1].at < window then 1 else 0
  }

  function Times(rs: seq<Report>, n: nat): seq<int>
    requires n <= |rs|
  {
    if n == 0 then [] else Times(rs, n - 1) + [rs[n - 1].at]
  }

  lemma {:induction false} RecentCounts(rs: seq<Report>, n: nat, now: int, window: int)
    requires n <= |rs|
    ensures |Recent(Times(rs, n), now - window)| == CountWithin(rs, n, now, window)
  {
    if n > 0 {
      RecentCounts(rs, n - 1, now, window);
      RecentSnoc(Times(rs, n - 1), rs[n - 1].at, now - window);
    }
  }

  // Nothing but failures that were not suppressed, and no opening yet, from a breaker that remembers none.
  predicate OnlyFailures(d: Dial, c: Circuit, rs: seq<Report>, i: nat)
    requires i < |rs|
  {
    && c.failures == [] && Monotone(rs)
    && (forall k :: 0 <= k <= i ==> rs[k].Failure? && !c.Open(rs[k].at))
    && (forall j :: 0 <= j < i ==> !Opens(d, c, rs, j))
  }

  lemma KeepsOne(d: Dial, c: Circuit, ts: seq<int>, was: int, now: int)
    requires d.Sane() && was <= now && !c.Open(was) && !FailStep(d, c, was).1
    requires Recent(c.failures, was - d.window) + [was] == Recent(ts, was - d.window)
    ensures FailStep(d, c, was).0.openUntil == c.openUntil
    ensures Recent(FailStep(d, c, was).0.failures, now - d.window) + [now] == Recent(ts + [now], now - d.window)
  {
    hide Recent;
    RecentSnoc(ts, now, now - d.window);
    RecentTwice(ts, was - d.window, now - d.window);
  }

  lemma {:induction false} KeptSoFar(d: Dial, c: Circuit, rs: seq<Report>, i: nat)
    requires d.Sane() && i < |rs| && OnlyFailures(d, c, rs, i)
    ensures Run(d, c, rs, i).openUntil == c.openUntil
    ensures Recent(Run(d, c, rs, i).failures, rs[i].at - d.window) + [rs[i].at] == Recent(Times(rs, i + 1), rs[i].at - d.window)
  {
    hide Recent, FailStep;
    RecentSnoc(Times(rs, i), rs[i].at, rs[i].at - d.window);
    RecentOfNone(rs[i].at - d.window);
    if i > 0 {
      KeptSoFar(d, c, rs, i - 1);
      assert !Opens(d, c, rs, i - 1);
      KeepsOne(d, Run(d, c, rs, i - 1), Times(rs, i), rs[i - 1].at, rs[i].at);
    }
  }

  // Told without the breaker's own memory: in a row of failures the first to open it is the first that makes
  // `threshold` of them within one window.
  lemma OpensAtThreshold(d: Dial, c: Circuit, rs: seq<Report>, i: nat)
    requires d.Sane() && i < |rs| && OnlyFailures(d, c, rs, i)
    ensures Opens(d, c, rs, i) <==> CountWithin(rs, i + 1, rs[i].at, d.window) >= d.threshold
  {
    hide Recent, Times, CountWithin, Run;
    var before := Run(d, c, rs, i);
    KeptSoFar(d, c, rs, i);
    RecentCounts(rs, i + 1, rs[i].at, d.window);
    assert !before.Open(rs[i].at);
  }

  // ---------------------------------------------------------------------------
  // Presentation rate limiting
  // ---------------------------------------------------------------------------

  datatype Bucket = Bucket(tokens: real, last: real)

  // rate is tokens per second; instants here are seconds.
  datatype Rate = Rate(rate: real, burst: real) {
    predicate Sane() {
      rate > 0.0 && burst >= 1.0
    }
  }

  const MAX_BUCKETS: nat := 8192

  // The tokens that accrue over an interval: the rate times its length.
  function Earned(l: Rate, t0: real, t1: real): real {
    l.rate * (t1 - t0)
  }

  function Refill(l: Rate, b: Bucket, now: real): real {
    var tokens := b.tokens + Earned(l, b.last, now);
    if tokens > l.burst then l.burst else tokens
  }

  function AllowStep(l: Rate, m: map<string, Bucket>, key: string, now: real): (map<string, Bucket>, bool) {
    if key !in m then
      ((if |m| > MAX_BUCKETS then map[] else m)[key := Bucket(l.burst - 1.0, now)], true)
    else
      var tokens := Refill(l, m[key], now);
      if tokens < 1.0 then (m[key := Bucket(tokens, now)], false)
      else (m[key := Bucket(tokens - 1.0, now)], true)
  }

  class Limiter {
    var buckets: map<string, Bucket>
    const limit: Rate

    ghost predicate Valid()
      reads this
    {
      limit.Sane() && |buckets| <= MAX_BUCKETS + 1
    }

    constructor (perMinute: int, burst: int)
      ensures Valid() && buckets == map[]
      ensures var per := if perMinute <= 0 then 6 else perMinute;
              limit == Rate(per as real / 60.0, (if burst <= 0 then per else burst) as real)
    {
      var per := if perMinute <= 0 then 6 else perMinute;
      limit := Rate(per as real / 60.0, (if burst <= 0 then per else burst) as real);
      buckets := map[];
    }

    method Allow(key: string, now: real) returns (ok: bool)
      requires Valid()
      modifies this
      ensures Valid()
      ensures (buckets, ok) == AllowStep(limit, old(buckets), key, now)
      // A new client passes, out of a full burst; the map starts over rather than grow past its bound.
      ensures key !in old(buckets) ==>
                && ok
                && buckets == (if |old(buckets)| > 8192 then map[] else old(buckets))[key := Bucket(limit.burst - 1.0, now)]
      // A known one passes exactly when what it had left and has earned since makes one whole token.
      ensures key in old(buckets) ==>
                var earned := old(buckets)[key].tokens + limit.rate * (now - old(buckets)[key].last);
                && (ok <==> limit.burst >= 1.0 && earned >= 1.0)
                && key in buckets && buckets[key].last == now && buckets.Keys == old(buckets).Keys
                && buckets[key].tokens + (if ok then 1.0 else 0.0) == (if earned < limit.burst then earned else limit.burst)
    {
      if key !in buckets {
        if |buckets| > MAX_BUCKETS {
          buckets := map[];
        }
        SizeAfterInsert(buckets, key, Bucket(limit.burst - 1.0, now));
        buckets := buckets[key := Bucket(limit.burst - 1.0, now)];
        assert buckets == AllowStep(limit, old(buckets), key, now).0;
        return true;
      }
      var b := buckets[key];
      var tokens := b.tokens + limit.rate * (now - b.last);
      if tokens > limit.burst {
        tokens := limit.burst;
      }
      assert tokens == Refill(limit, b, now);
      ok := tokens >= 1.0;
      if ok {
        tokens := tokens - 1.0;
      }
      SizeAfterInsert(buckets, key, Bucket(tokens, now));
      buckets := buckets[key := Bucket(tokens, now)];
    }
  }

  lemma SizeAfterInsert(m: map<string, Bucket>, key: string, b: Bucket)
    ensures |m[key := b]| == |m| + if key in m then 0 else 1
  {
    var after := m[key := b];
    assert after.Keys == m.Keys + {key};
    assert |m.Keys| == |m| && |after.Keys| == |after|;
  }

  datatype Call = Call(key: string, at: real)

  // The limiter's map after a sequence of calls, and how many of them let `key` through.
  function AfterCalls(l: Rate, m: map<string, Bucket>, calls: seq<Call>): map<string, Bucket>
    decreases |calls|
  {
    if calls == [] then m
    else AfterCalls(l, AllowStep(l, m, calls[0].key, calls[0].at).0, calls[1..])
  }

  function Passed(l: Rate, m: map<string, Bucket>, calls: seq<Call>, key: string): nat
    decreases |calls|
  {
    if calls == [] then 0
    else
      var (m', ok) := AllowStep(l, m, calls[0].key, calls[0].at);
      (if calls[0].key == key && ok then 1 else 0) + Passed(l, m', calls[1..], key)
  }

  // The bucket of `key`, once present, is never wiped during these calls.
  predicate Kept(l: Rate, m: map<string, Bucket>, calls: seq<Call>, key: string)
    decreases |calls|
  {
    calls != [] ==>
      var m' := AllowStep(l, m, calls[0].key, calls[0].at).0;
      (key in m ==> key in m') && Kept(l, m', calls[1..], key)
  }

  predicate Between(calls: seq<Call>, t0: real, t1: real) {
    if calls == [] then t0 <= t1
    else t0 <= calls[0].at && Between(calls[1..], calls[0].at, t1)
  }

  // Every bucket was last touched by t0 and holds between nothing and the burst.
  predicate Settled(l: Rate, m: map<string, Bucket>, t0: real) {
    forall k :: k in m ==> 0.0 <= m[k].tokens <= l.burst && m[k].last <= t0
  }

  function Credit(l: Rate, m: map<string, Bucket>, key: string, t: real): real {
    if key in m then Refill(l, m[key], t) else l.burst
  }

  lemma EarnedAddsUp(l: Rate, t0: real, t: real, t1: real)
    ensures Earned(l, t0, t) + Earned(l, t, t1) == Earned(l, t0, t1)
  {
  }

  lemma EarnedNonNegative(l: Rate, t0: real, t1: real)
    requires l.rate > 0.0 && t0 <= t1
    ensures Earned(l, t0, t1) >= 0.0
  {
    var span := t1 - t0;
    assert span >= 0.0 && l.rate * span >= 0.0;
  }

  // Over time a bucket only fills, and never past the burst.
  lemma RefillBounds(l: Rate, b: Bucket, now: real)
    requires l.Sane() && b.last <= now && 0.0 <= b.tokens <= l.burst
    ensures b.tokens <= Refill(l, b, now) <= l.burst
  {
    EarnedNonNegative(l, b.last, now);
  }

  lemma AllowKeepsBounds(l: Rate, m: map<string, Bucket>, key: string, now: real, t0: real)
    requires l.Sane() && Settled(l, m, t0) && t0 <= now
    ensures Settled(l, AllowStep(l, m, key, now).0, now)
  {
    if key in m {
      RefillBounds(l, m[key], now);
    }
  }

  lemma {:induction false} TokensStayInRange(l: Rate, m: map<string, Bucket>, calls: seq<Call>, t0: real, t1: real)
    requires l.Sane() && Settled(l, m, t0) && Between(calls, t0, t1)
    ensures Settled(l, AfterCalls(l, m, calls), t1)
    decreases |calls|
  {
    if calls != [] {
      AllowKeepsBounds(l, m, calls[0].key, calls[0].at, t0);
      TokensStayInRange(l, AllowStep(l, m, calls[0].key, calls[0].at).0, calls[1..], calls[0].at, t1);
    }
  }

  lemma {:induction false} MapStaysBounded(l: Rate, m: map<string, Bucket>, calls: seq<Call>)
    requires |m| <= MAX_BUCKETS + 1
    ensures |AfterCalls(l, m, calls)| <= MAX_BUCKETS + 1
    decreases |calls|
  {
    if calls != [] {
      var c := calls[0];
      var base := if c.key !in m && |m| > MAX_BUCKETS then map[] else m;
      var m' := AllowStep(l, m, c.key, c.at).0;
      SizeAfterInsert(base, c.key, m'[c.key]);
      MapStaysBounded(l, m', calls[1..]);
    }
  }

  lemma CreditAccrues(l: Rate, m: map<string, Bucket>, key: string, t: real, u: real)
    requires l.Sane() && t <= u
    ensures Credit(l, m, key, u) <= Credit(l, m, key, t) + Earned(l, t, u)
  {
    EarnedNonNegative(l, t, u);
    if key in m {
      EarnedAddsUp(l, m[key].last, t, u);
    }
  }

  // A call pays for what it lets through out of its own key's credit, and leaves every other kept key's alone.
  lemma CallSpendsCredit(l: Rate, m: map<string, Bucket>, c: Call, key: string, t0: real)
    requires l.Sane() && Settled(l, m, t0) && t0 <= c.at
    requires key in m ==> key in AllowStep(l, m, c.key, c.at).0
    ensures var (m', ok) := AllowStep(l, m, c.key, c.at);
            Credit(l, m', key, c.at) + (if c.key == key && ok then 1.0 else 0.0) <= Credit(l, m, key, c.at)
  {
    var m' := AllowStep(l, m, c.key, c.at).0;
    if c.key == key {
      assert m'[key].last == c.at && Earned(l, c.at, c.at) == 0.0;
      if key in m {
        RefillBounds(l, m[key], c.at);
      }
    }
  }

  lemma FirstCredit(l: Rate, m: map<string, Bucket>, key: string, t0: real)
    requires l.Sane() && Settled(l, m, t0)
    ensures 0.0 <= Credit(l, m, key, t0) <= l.burst
  {
    if key in m {
      RefillBounds(l, m[key], t0);
    }
  }

  lemma {:induction false} PassedWithinCredit(l: Rate, m: map<string, Bucket>, calls: seq<Call>, key: string, t0: real, t1: real)
    requires l.Sane() && Settled(l, m, t0) && Between(calls, t0, t1) && Kept(l, m, calls, key)
    ensures Passed(l, m, calls, key) as real <= Credit(l, m, key, t0) + Earned(l, t0, t1)
    decreases |calls|
  {
    if calls == [] {
      FirstCredit(l, m, key, t0);
      EarnedNonNegative(l, t0, t1);
    } else {
      var c := calls[0];
      var (m', ok) := AllowStep(l, m, c.key, c.at);
      AllowKeepsBounds(l, m, c.key, c.at, t0);
      PassedWithinCredit(l, m', calls[1..], key, c.at, t1);
      CallSpendsCredit(l, m, c, key, t0);
      CreditAccrues(l, m, key, t0, c.at);
      EarnedAddsUp(l, t0, c.at, t1);
      PassedUnfolds(l, m, calls, key);
    }
  }

  lemma PassedUnfolds(l: Rate, m: map<string, Bucket>, calls: seq<Call>, key: string)
    requires calls != []
    ensures var (m', ok) := AllowStep(l, m, calls[0].key, calls[0].at);
            Passed(l, m, calls, key) as real
            == (if calls[0].key == key && ok then 1.0 else 0.0) + Passed(l, m', calls[1..], key) as real
  {
  }

  // In any window [t0, t1] a client whose bucket is not wiped gets at most burst + rate * (t1 - t0) calls through,
  // however its calls interleave with everyone else's.
  lemma TokenBucketBound(l: Rate, m: map<string, Bucket>, calls: seq<Call>, key: string, t0: real, t1: real)
    requires l.Sane() && Settled(l, m, t0) && Between(calls, t0, t1) && Kept(l, m, calls, key)
    ensures Passed(l, m, calls, key) as real <= l.burst + Earned(l, t0, t1)
  {
    PassedWithinCredit(l, m, calls, key, t0, t1);
    FirstCredit(l, m, key, t0);
  }

  function CallsOf(calls: seq<Call>, key: string): nat {
    if calls == [] then 0 else (if calls[0].key == key then 1 else 0) + CallsOf(calls[1..], key)
  }

  // Each call of `key` comes at least the time of one token after the one before it, or after `last`.
  predicate Spaced(l: Rate, calls: seq<Call>, key: string, last: Option<real>)
    decreases |calls|
  {
    calls != [] ==>
      if calls[0].key == key then
        (last.Some? ==> l.rate * (calls[0].at - last.value) >= 1.0) && Spaced(l, calls[1..], key, Some(calls[0].at))
      else Spaced(l, calls[1..], key, last)
  }

  // The other side of the bound: a client that asks no faster than tokens accrue is never refused while its bucket
  // is kept, however low the bucket was when it began and whatever others do.
  lemma {:induction false} SpacedCallsPass(l: Rate, m: map<string, Bucket>, calls: seq<Call>, key: string, t0: real, t1: real)
    requires l.Sane() && Settled(l, m, t0) && Between(calls, t0, t1) && Kept(l, m, calls, key)
    requires Spaced(l, calls, key, if key in m then Some(m[key].last) else None)
    ensures Passed(l, m, calls, key) == CallsOf(calls, key)
    decreases |calls|
  {
    if calls != [] {
      var c := calls[0];
      AllowKeepsBounds(l, m, c.key, c.at, t0);
      OneSpacedCall(l, m, c, key);
      SpacedCallsPass(l, AllowStep(l, m, c.key, c.at).0, calls[1..], key, c.at, t1);
    }
  }

  lemma OneSpacedCall(l: Rate, m: map<string, Bucket>, c: Call, key: string)
    requires l.Sane() && (key in m ==> key in AllowStep(l, m, c.key, c.at).0 && m[key].tokens >= 0.0)
    requires c.key == key && key in m ==> l.rate * (c.at - m[key].last) >= 1.0
    ensures var (m', ok) := AllowStep(l, m, c.key, c.at);
            if c.key == key then ok && key in m' && m'[key].last == c.at
            else (key in m <==> key in m') && (key in m ==> m'[key] == m[key])
  {
  }
}
