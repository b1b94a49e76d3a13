/** The bounded per-address activity log. (internal/activity/activity.go) */
module Activity {
  import opened Wrappers
  import opened Text

  datatype Kind = Failure | Admit | Renew

  // Counters are cumulative since firstSeen.
  datatype Entry = Entry(firstSeen: int, lastSeen: int, failed: nat, admits: nat, renews: nat)
  {
    function Bump(kind: Kind): Entry {
      match kind
      case Failure => this.(failed := failed + 1)
      case Admit => this.(admits := admits + 1)
      case Renew => this.(renews := renews + 1)
    }

    function Of(kind: Kind): nat {
      match kind
      case Failure => failed
      case Admit => admits
      case Renew => renews
    }
  }

  datatype Row = Row(ip: string, entry: Entry)

  datatype Record = Record(ip: string, kind: Kind, at: int)

  // ---------------------------------------------------------------------------
  // What an entry should say, from the whole history
  // ---------------------------------------------------------------------------

  function Count(h: seq<Record>, from: nat, n: nat, ip: string, kind: Kind): nat
    requires n <= |h|
  {
    if n <= from then 0
    else Count(h, from, n - 1, ip, kind) + if h[n - 1].ip == ip && h[n - 1].kind == kind then 1 else 0
  }

  lemma {:induction false} CountInPrefix(h: seq<Record>, r: Record, from: nat, n: nat, ip: string, kind: Kind)
    requires n <= |h|
    ensures Count(h + [r], from, n, ip, kind) == Count(h, from, n, ip, kind)
  {
    if n > from {
      CountInPrefix(h, r, from, n - 1, ip, kind);
    }
  }

  // Record number k is the address's last.
  predicate IsLast(h: seq<Record>, ip: string, k: int) {
    0 <= k < |h| && h[k].ip == ip && forall j :: k < j < |h| ==> h[j].ip != ip
  }

  // The entry opened by record number `born` is what the records of its address from there on add up to.
  ghost predicate Faithful(h: seq<Record>, ip: string, born: nat, e: Entry) {
    && born < |h| && h[born].ip == ip && h[born].at == e.firstSeen
    && (exists k :: IsLast(h, ip, k) && born <= k && h[k].at == e.lastSeen)
    && forall kind :: e.Of(kind) == Count(h, born, |h|, ip, kind)
  }

  ghost predicate AllFaithful(h: seq<Record>, born: map<string, nat>, entries: map<string, Entry>) {
    entries.Keys <= born.Keys && forall ip :: ip in entries ==> Faithful(h, ip, born[ip], entries[ip])
  }

  lemma OthersStayFaithful(h: seq<Record>, r: Record, ip: string, born: nat, e: Entry)
    requires Faithful(h, ip, born, e) && r.ip != ip
    ensures Faithful(h + [r], ip, born, e)
  {
    var k :| IsLast(h, ip, k) && born <= k && h[k].at == e.lastSeen;
    assert IsLast(h + [r], ip, k) && (h + [r])[k].at == e.lastSeen;
    forall kind ensures e.Of(kind) == Count(h + [r], born, |h| + 1, ip, kind) {
      CountInPrefix(h, r, born, |h|, ip, kind);
    }
  }

  lemma BumpedStaysFaithful(h: seq<Record>, r: Record, born: nat, e: Entry)
    requires Faithful(h, r.ip, born, e)
    ensures Faithful(h + [r], r.ip, born, e.(lastSeen := r.at).Bump(r.kind))
  {
    assert IsLast(h + [r], r.ip, |h|);
    forall kind ensures e.(lastSeen := r.at).Bump(r.kind).Of(kind) == Count(h + [r], born, |h| + 1, r.ip, kind) {
      CountInPrefix(h, r, born, |h|, r.ip, kind);
    }
  }

  lemma FirstIsFaithful(h: seq<Record>, r: Record)
    ensures Faithful(h + [r], r.ip, |h|, Entry(r.at, r.at, 0, 0, 0).Bump(r.kind))
  {
    assert IsLast(h + [r], r.ip, |h|);
    forall kind ensures Entry(r.at, r.at, 0, 0, 0).Bump(r.kind).Of(kind) == Count(h + [r], |h|, |h| + 1, r.ip, kind) {
      assert Count(h + [r], |h|, |h|, r.ip, kind) == 0;
    }
  }

  lemma BumpLogged(h: seq<Record>, born: map<string, nat>, entries: map<string, Entry>, r: Record)
    requires AllFaithful(h, born, entries) && r.ip in entries
    ensures AllFaithful(h + [r], born, entries[r.ip := entries[r.ip].(lastSeen := r.at).Bump(r.kind)])
  {
    hide Faithful;
    BumpedStaysFaithful(h, r, born[r.ip], entries[r.ip]);
    forall x | x in entries && x != r.ip ensures Faithful(h + [r], x, born[x], entries[x]) {
      OthersStayFaithful(h, r, x, born[x], entries[x]);
    }
  }

  lemma FirstLogged(h: seq<Record>, born: map<string, nat>, entries: map<string, Entry>, kept: map<string, Entry>, r: Record)
    requires AllFaithful(h, born, entries) && r.ip !in entries
    requires kept.Keys <= entries.Keys && forall x :: x in kept ==> kept[x] == entries[x]
    ensures AllFaithful(h + [r], born[r.ip := |h|], kept[r.ip := Entry(r.at, r.at, 0, 0, 0).Bump(r.kind)])
  {
    hide Faithful;
    FirstIsFaithful(h, r);
    forall x | x in kept && x != r.ip ensures Faithful(h + [r], x, born[x], kept[x]) {
      OthersStayFaithful(h, r, x, born[x], kept[x]);
    }
  }

  lemma Narrow(h: seq<Record>, born: map<string, nat>, entries: map<string, Entry>)
    requires AllFaithful(h, born, entries)
    ensures AllFaithful(h, map x | x in entries :: born[x], entries)
  {
    hide Faithful;
  }

  // ---------------------------------------------------------------------------
  // Expiry and eviction
  // ---------------------------------------------------------------------------

  predicate Expired(e: Entry, ttl: int, now: int) {
    now - e.lastSeen > ttl
  }

  function Live(entries: map<string, Entry>, ttl: int, now: int): (live: map<string, Entry>)
    ensures forall ip :: ip in live <==> ip in entries && now <= entries[ip].lastSeen + ttl
    ensures forall ip :: ip in live ==> live[ip] == entries[ip]
  {
    map ip | ip in entries && !Expired(entries[ip], ttl, now) :: entries[ip]
  }

  // A walk over the map that has still to look at `todo`.
  function Partly(entries: map<string, Entry>, todo: set<string>, ttl: int, now: int): map<string, Entry> {
    map ip | ip in entries && (ip in todo || !Expired(entries[ip], ttl, now)) :: entries[ip]
  }

  lemma WalkBegins(entries: map<string, Entry>, ttl: int, now: int)
    ensures Partly(entries, entries.Keys, ttl, now) == entries
    ensures Partly(entries, {}, ttl, now) == Live(entries, ttl, now)
  {
  }

  lemma WalkStep(entries: map<string, Entry>, todo: set<string>, ip: string, ttl: int, now: int)
    requires todo <= entries.Keys && ip in todo
    ensures ip in Partly(entries, todo, ttl, now) && Partly(entries, todo, ttl, now)[ip] == entries[ip]
    ensures Partly(entries, todo - {ip}, ttl, now)
            == if Expired(entries[ip], ttl, now) then Partly(entries, todo, ttl, now) - {ip} else Partly(entries, todo, ttl, now)
  {
  }

  // No tracked address has been quiet for longer.
  ghost predicate Quietest(entries: map<string, Entry>, ip: string) {
    ip in entries && forall other :: other in entries ==> entries[ip].lastSeen <= entries[other].lastSeen
  }

  // What making room leaves: everything unexpired, or, if nothing had expired, everything but one quietest.
  ghost predicate RoomMade(before: map<string, Entry>, after: map<string, Entry>, ttl: int, now: int) {
    if exists ip :: ip in before && Expired(before[ip], ttl, now) then after == Live(before, ttl, now)
    else exists ip :: Quietest(before, ip) && after == before - {ip}
  }

  lemma SmallerMap(m: map<string, Entry>, s: map<string, Entry>, ip: string)
    requires s.Keys <= m.Keys && ip in m && ip !in s
    ensures |s| < |m|
  {
    assert s.Keys <= m.Keys - {ip};
    CardinalityGrows(s.Keys, m.Keys - {ip});
  }

  lemma {:induction false} CardinalityGrows(a: set<string>, b: set<string>)
    requires a <= b
    ensures |a| <= |b|
  {
    if x :| x in a {
      CardinalityGrows(a - {x}, b - {x});
    }
  }

  lemma RoomIsEnough(before: map<string, Entry>, after: map<string, Entry>, ttl: int, now: int)
    requires RoomMade(before, after, ttl, now)
    ensures |after| < |before| && after.Keys <= before.Keys
    ensures forall ip :: ip in after ==> after[ip] == before[ip]
  {
    if ip :| ip in before && Expired(before[ip], ttl, now) {
      SmallerMap(before, after, ip);
    } else {
      var gone :| Quietest(before, gone) && after == before - {gone};
      SmallerMap(before, after, gone);
    }
  }

  // ---------------------------------------------------------------------------
  // The order of a snapshot
  // ---------------------------------------------------------------------------

  // Most recent first, ties by address.
  predicate Before(a: Row, b: Row) {
    a.entry.lastSeen > b.entry.lastSeen || (a.entry.lastSeen == b.entry.lastSeen && Less(a.ip, b.ip))
  }

  predicate Ordered(rows: seq<Row>) {
    forall i, j :: 0 <= i < j < |rows| ==> Before(rows[i], rows[j])
  }

  predicate DistinctRows(rows: seq<Row>) {
    forall i, j :: 0 <= i < j < |rows| ==> rows[i].ip != rows[j].ip
  }

  function InsertRow(r: Row, rows: seq<Row>): seq<Row> {
    if rows == [] || Before(r, rows[0]) then [r] + rows else [rows[0]] + InsertRow(r, rows[1..])
  }

  function SortRows(rows: seq<Row>): seq<Row> {
    if rows == [] then [] else InsertRow(rows[0], SortRows(rows[1..]))
  }

  lemma BeforeIsTotal(a: Row, b: Row)
    requires a.ip != b.ip
    ensures Before(a, b) || Before(b, a)
  {
    LessIsTotal(a.ip, b.ip);
  }

  lemma BeforeIsTransitive(a: Row, b: Row, c: Row)
    requires Before(a, b) && Before(b, c)
    ensures Before(a, c)
  {
    if Less(a.ip, b.ip) && Less(b.ip, c.ip) {
      LessIsTransitive(a.ip, b.ip, c.ip);
    }
  }

  lemma {:induction false} InsertKeepsOrder(r: Row, rows: seq<Row>)
    requires Ordered(rows) && forall i :: 0 <= i < |rows| ==> rows[i].ip != r.ip
    ensures Ordered(InsertRow(r, rows)) && multiset(InsertRow(r, rows)) == multiset(rows) + multiset{r}
  {
    if rows == [] {
    } else if Before(r, rows[0]) {
      forall j | 0 < j < |rows| ensures Before(r, rows[j]) {
        BeforeIsTransitive(r, rows[0], rows[j]);
      }
    } else {
      BeforeIsTotal(r, rows[0]);
      InsertKeepsOrder(r, rows[1..]);
      var rest := InsertRow(r, rows[1..]);
      assert rows == [rows[0]] + rows[1..];
      forall j | 0 <= j < |rest| ensures Before(rows[0], rest[j]) {
        assert rest[j] in multiset(rest);
        assert rest[j] == r || rest[j] in rows[1..];
      }
    }
  }

  lemma {:induction false} SortRowsSorts(rows: seq<Row>)
    requires DistinctRows(rows)
    ensures Ordered(SortRows(rows)) && multiset(SortRows(rows)) == multiset(rows)
  {
    if rows != [] {
      SortRowsSorts(rows[1..]);
      var rest := SortRows(rows[1..]);
      forall i | 0 <= i < |rest| ensures rest[i].ip != rows[0].ip {
        assert rest[i] in multiset(rest);
        assert rest[i] in rows[1..];
      }
      InsertKeepsOrder(rows[0], rest);
      assert rows == [rows[0]] + rows[1..];
    }
  }

  // A snapshot leaves nothing to chance: the same entries always come out in the same order.
  ghost predicate ListsExactly(rows: seq<Row>, entries: map<string, Entry>) {
    && Ordered(rows)
    && (forall ip :: ip in entries ==> Row(ip, entries[ip]) in rows)
    && (forall r :: r in rows ==> r.ip in entries && entries[r.ip] == r.entry)
  }

  lemma {:induction false} SnapshotIsUnique(a: seq<Row>, b: seq<Row>, entries: map<string, Entry>)
    requires ListsExactly(a, entries) && ListsExactly(b, entries)
    ensures a == b
    decreases |entries|
  {
    hide ListsExactly;
    if a == [] {
      if b != [] {
        SameHead(b, a, entries);
      }
    } else {
      SameHead(a, b, entries);
      var ip := a[0].ip;
      WithoutHead(a, entries);
      WithoutHead(b, entries);
      SmallerMap(entries, entries - {ip}, ip);
      SnapshotIsUnique(a[1..], b[1..], entries - {ip});
      assert a == [a[0]] + a[1..] && b == [b[0]] + b[1..];
    }
  }

  lemma SameHead(a: seq<Row>, b: seq<Row>, entries: map<string, Entry>)
    requires ListsExactly(a, entries) && ListsExactly(b, entries) && a != []
    ensures b != [] && a[0] == b[0] && a[0].ip in entries
  {
    assert a[0] in a;
    assert Row(a[0].ip, entries[a[0].ip]) in b;
    assert b[0] in b;
    assert Row(b[0].ip, entries[b[0].ip]) in a;
    var i :| 0 <= i < |a| && a[i] == b[0];
    var j :| 0 <= j < |b| && b[j] == a[0];
    if i > 0 && j > 0 {
      BeforeIsTransitive(a[0], b[0], a[0]);
      LessIsTotal(a[0].ip, a[0].ip);
    }
  }

  lemma WithoutHead(a: seq<Row>, entries: map<string, Entry>)
    requires ListsExactly(a, entries) && a != []
    ensures a[0].ip in entries && ListsExactly(a[1..], entries - {a[0].ip})
  {
    assert a[0] in a;
    var rest := entries - {a[0].ip};
    forall ip | ip in rest ensures Row(ip, rest[ip]) in a[1..] {
      var i :| 0 <= i < |a| && a[i] == Row(ip, entries[ip]);
      assert a[1..][i - 1] == a[i];
    }
    forall r | r in a[1..] ensures r.ip in rest && rest[r.ip] == r.entry {
      var i :| 1 <= i < |a| && a[i] == r;
      assert r in a && Before(a[0], a[i]);
      LessIsTotal(r.ip, r.ip);
    }
  }

  // ---------------------------------------------------------------------------
  // The log
  // ---------------------------------------------------------------------------

  class Log {
    var entries: map<string, Entry>
    const ttl: int
    const capacity: int
    ghost var history: seq<Record>
    ghost var born: map<string, nat>   // the record that opened each entry

    ghost predicate Valid()
      reads this
    {
      && ttl > 0 && capacity > 0 && |entries| <= capacity && "" !in entries
      && born.Keys == entries.Keys && AllFaithful(history, born, entries)
    }

    constructor (ttl: int, maxIPs: int)
      ensures Valid() && entries == map[] && history == []
      ensures this.ttl == (if ttl <= 0 then 600 * SECOND else ttl) && capacity == if maxIPs <= 0 then 8192 else maxIPs
    {
      this.ttl := if ttl <= 0 then 600 * SECOND else ttl;
      capacity := if maxIPs <= 0 then 8192 else maxIPs;
      entries, history, born := map[], [], map[];
    }

    // One record. An address already tracked is bumped, however old its entry; a new one is admitted,
    // making room first if the log is full.
    method Note(ip: string, kind: Kind, now: int)
      requires Valid() && ip != ""
      modifies this
      ensures Valid() && history == old(history) + [Record(ip, kind, now)]
      ensures ip in old(entries) ==> entries == old(entries)[ip := old(entries)[ip].(lastSeen := now).Bump(kind)]
      ensures ip !in old(entries) && |old(entries)| < capacity ==>
                entries == old(entries)[ip := Entry(now, now, 0, 0, 0).Bump(kind)]
      ensures ip !in old(entries) && |old(entries)| == capacity ==>
                exists kept :: RoomMade(old(entries), kept, ttl, now) && entries == kept[ip := Entry(now, now, 0, 0, 0).Bump(kind)]
    {
      hide AllFaithful, Faithful, RoomMade, Entry.Bump;
      ghost var before := entries;
      ghost var opening := born;
      var e: Entry;
      if ip in entries {
        e := entries[ip];
        BumpLogged(history, born, entries, Record(ip, kind, now));
      } else {
        if |entries| >= capacity {
          MakeRoom(now);
          RoomIsEnough(before, entries, ttl, now);
        }
        e := Entry(now, now, 0, 0, 0);
        FirstLogged(history, born, before, entries, Record(ip, kind, now));
        opening := born[ip := |history|];
      }
      e := e.(lastSeen := now).Bump(kind);
      AddOne(entries, ip, e);
      history := history + [Record(ip, kind, now)];
      entries := entries[ip := e];
      Narrow(history, opening, entries);
      born := map x | x in entries :: opening[x];
    }

    method MakeRoom(now: int)
      requires |entries| == capacity > 0 && "" !in entries
      modifies this`entries
      ensures RoomMade(old(entries), entries, ttl, now)
    {
      ghost var before := entries;
      var oldest, oldestAt := "", 0;
      var todo := entries.Keys;
      WalkBegins(before, ttl, now);
      while todo != {}
        invariant todo <= before.Keys && entries == Partly(before, todo, ttl, now)
        invariant oldest == "" ==> forall ip :: ip in before && ip !in todo ==> Expired(before[ip], ttl, now)
        invariant oldest != "" ==> oldest in before && oldest !in todo && before[oldest].lastSeen == oldestAt
        invariant oldest != "" ==> forall ip :: ip in before && ip !in todo && !Expired(before[ip], ttl, now) ==>
                                     oldestAt <= before[ip].lastSeen
        decreases |todo|
      {
        hide Partly;
        var ip :| ip in todo;
        WalkStep(before, todo, ip, ttl, now);
        todo := todo - {ip};
        var e := entries[ip];
        if now - e.lastSeen > ttl {
          entries := entries - {ip};
          continue;
        }
        if oldest == "" || e.lastSeen < oldestAt {
          oldest, oldestAt := ip, e.lastSeen;
        }
      }
      if gone :| gone in before && Expired(before[gone], ttl, now) {
        SmallerMap(before, entries, gone);
      } else {
        assert entries == before;
        NonEmpty(before);
        assert Quietest(before, oldest);
      }
      if |entries| >= capacity && oldest != "" {
        entries := entries - {oldest};
      }
    }

    method Snapshot(now: int) returns (rows: seq<Row>)
      requires Valid()
      modifies this
      ensures Valid() && history == old(history) && entries == Live(old(entries), ttl, now)
      ensures ListsExactly(rows, entries)
    {
      hide Faithful, Partly, Live;
      ghost var before := entries;
      rows := [];
      var todo := entries.Keys;
      WalkBegins(before, ttl, now);
      while todo != {}
        invariant todo <= before.Keys && entries == Partly(before, todo, ttl, now)
        invariant history == old(history) && born == old(born)
        invariant Collected(before, todo, rows, ttl, now)
        decreases |todo|
      {
        hide Collected;
        var ip :| ip in todo;
        WalkStep(before, todo, ip, ttl, now);
        Collect(before, todo, rows, ip, ttl, now);
        todo := todo - {ip};
        var e := entries[ip];
        if now - e.lastSeen > ttl {
          entries := entries - {ip};
          continue;
        }
        rows := rows + [Row(ip, e)];
      }
      AllCollected(before, rows, ttl, now);
      rows := SortRows(rows);
      Forget(before, now);
    }

    method Len(now: int) returns (n: nat)
      requires Valid()
      modifies this
      ensures Valid() && history == old(history) && entries == Live(old(entries), ttl, now)
      ensures n == |entries|
    {
      hide Faithful, Partly, Live;
      ghost var before := entries;
      var todo := entries.Keys;
      WalkBegins(before, ttl, now);
      while todo != {}
        invariant todo <= before.Keys && entries == Partly(before, todo, ttl, now)
        invariant history == old(history) && born == old(born)
        decreases |todo|
      {
        var ip :| ip in todo;
        WalkStep(before, todo, ip, ttl, now);
        todo := todo - {ip};
        if now - entries[ip].lastSeen > ttl {
          entries := entries - {ip};
        }
      }
      Forget(before, now);
      return |entries|;
    }

    ghost method Forget(before: map<string, Entry>, now: int)
      requires ttl > 0 && capacity > 0 && |before| <= capacity && "" !in before
      requires born.Keys == before.Keys && entries == Live(before, ttl, now) && AllFaithful(history, born, before)
      modifies this`born
      ensures Valid()
    {
      hide Faithful;
      CardinalityGrows(entries.Keys, before.Keys);
      born := map x | x in entries :: born[x];
    }
  }

  // The rows taken so far: the unexpired entries already looked at, once each.
  ghost predicate Collected(before: map<string, Entry>, todo: set<string>, rows: seq<Row>, ttl: int, now: int) {
    && DistinctRows(rows)
    && (forall ip :: ip in before && ip !in todo && !Expired(before[ip], ttl, now) ==> Row(ip, before[ip]) in rows)
    && (forall r :: r in rows ==> r.ip in before && r.ip !in todo && before[r.ip] == r.entry && !Expired(r.entry, ttl, now))
  }

  lemma Collect(before: map<string, Entry>, todo: set<string>, rows: seq<Row>, ip: string, ttl: int, now: int)
    requires Collected(before, todo, rows, ttl, now) && ip in todo && ip in before
    ensures Collected(before, todo - {ip}, if Expired(before[ip], ttl, now) then rows else rows + [Row(ip, before[ip])], ttl, now)
  {
    forall i | 0 <= i < |rows| ensures rows[i].ip != ip {
      assert rows[i] in rows;
    }
  }

  lemma AllCollected(before: map<string, Entry>, rows: seq<Row>, ttl: int, now: int)
    requires Collected(before, {}, rows, ttl, now)
    ensures ListsExactly(SortRows(rows), Live(before, ttl, now))
  {
    SortRowsSorts(rows);
    forall r ensures r in SortRows(rows) <==> r in rows {
      assert r in multiset(SortRows(rows)) <==> r in multiset(rows);
    }
  }

  lemma AddOne(m: map<string, Entry>, ip: string, e: Entry)
    ensures |m[ip := e]| == |m| + if ip in m then 0 else 1
  {
    assert m[ip := e].Keys == m.Keys + {ip};
  }

  lemma NonEmpty(m: map<string, Entry>)
    requires |m| > 0
    ensures exists ip :: ip in m
  {
    assert m.Keys != {};
  }
}
