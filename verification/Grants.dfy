/** The durable claim ledger behind the pay door. (internal/payment/store.go)
    One map from payment id to a stored record; every operation is one atomic transaction. */
module Grants {
  import opened Wrappers

  const PAYMENT_LEASE: int := 30 * SECOND

  datatype Grant = Grant(scope: string, audience: string, payer: string, transaction: string,
                         amount: string, network: string, expiresAt: int)

  // The JSON document a bucket value decodes to, if it decodes at all.
  datatype Record = Record(lease: string, pendingUntil: int, grant: Option<Grant>)
  datatype Stored = Garbage | Json(record: Record)

  datatype Failure = EmptyId | Disk | Corrupt | NoEntropy | IncompleteGrant | Disappeared | Changed

  predicate CompleteGrant(g: Grant) {
    g.scope != "" && g.audience != "" && g.transaction != "" && g.network != "" && g.expiresAt > 0
  }

  method DecodeRecord(raw: Stored) returns (r: Result<Record, Failure>)
    ensures r.Ok? <==> Meaning(raw) != Broken
    ensures r.Ok? <==> raw.Json? && match raw.record
                       case Record(lease, until, Some(g)) =>
                         && lease == "" && until == 0
                         && g.scope != "" && g.audience != "" && g.transaction != "" && g.network != "" && g.expiresAt > 0
                       case Record(lease, until, None) => lease != "" && until > 0
    ensures r.Ok? ==> raw == Json(r.value)
    ensures r.Err? ==> r.error == Corrupt
  {
    if raw.Garbage? {
      return Err(Corrupt);
    }
    var rec := raw.record;
    if rec.grant.Some? {
      if rec.lease != "" || rec.pendingUntil != 0 {
        return Err(Corrupt);
      }
      if !CompleteGrant(rec.grant.value) {
        return Err(Corrupt);
      }
    } else if rec.lease == "" || rec.pendingUntil <= 0 {
      return Err(Corrupt);
    }
    return Ok(rec);
  }

  // What a stored value means to the protocol: a payment id is unseen, held by one attempt's lease,
  // bought for good, or unreadable.
  datatype Slot = Free | Held(lease: string, until: int) | Bought(grant: Grant) | Broken {
    predicate WellFormed() {
      match this
      case Free => true
      case Held(lease, until) => lease != "" && until > 0
      case Bought(grant) => CompleteGrant(grant)
      case Broken => false
    }
  }

  function Meaning(raw: Stored): (s: Slot)
    ensures s != Free && (s == Broken || s.WellFormed())
  {
    if raw.Garbage? then Broken
    else if raw.record.grant.Some? then
      var g := raw.record.grant.value;
      if raw.record.lease == "" && raw.record.pendingUntil == 0 && CompleteGrant(g) then Bought(g) else Broken
    else if raw.record.lease != "" && raw.record.pendingUntil > 0 then
      Held(raw.record.lease, raw.record.pendingUntil)
    else Broken
  }

  function SlotOf(records: map<string, Stored>, id: string): Slot {
    if id in records then Meaning(records[id]) else Free
  }

  // How Begin answers: the lease of a new reservation, or what is already there.
  datatype Claim = New(lease: string) | InFlight | Recoverable(grant: Grant) | Spent(grant: Grant)

  // The protocol each operation follows on the slot of its id: the next slot and the answer.

  function BeginSlot(s: Slot, now: nat, entropy: Option<string>): (Slot, Result<Claim, Failure>) {
    match s
    case Broken => (s, Err(Corrupt))
    case Bought(g) => (s, Ok(if Unix(now) < g.expiresAt then Recoverable(g) else Spent(g)))
    case _ =>
      if s.Held? && now < s.until then (s, Ok(InFlight))
      else if entropy.None? then (s, Err(NoEntropy))
      else (Held(entropy.value, now + PAYMENT_LEASE), Ok(New(entropy.value)))
  }

  function ReleaseSlot(s: Slot, lease: string): (Slot, Option<Failure>) {
    if lease == "" then (s, None)
    else if s == Broken then (s, Some(Corrupt))
    else if s.Held? && s.lease == lease then (Free, None)
    else (s, None)
  }

  // The answer is the grant in force and whether this call wrote it.
  function CommitSlot(s: Slot, lease: string, g: Grant): (Slot, Result<(Grant, bool), Failure>) {
    if !CompleteGrant(g) then (s, Err(IncompleteGrant))
    else match s
      case Free => (s, Err(Disappeared))
      case Broken => (s, Err(Corrupt))
      case Bought(existing) => (s, Ok((existing, false)))
      case Held(held, _) =>
        if lease == "" || held != lease then (s, Err(Changed)) else (Bought(g), Ok((g, true)))
  }

  // Nothing is in the way of a new reservation.
  predicate Vacant(s: Slot, now: nat) {
    s == Free || (s.Held? && s.until <= now)
  }

  // Only `id` may have changed.
  ghost predicate ElsewhereSame(before: map<string, Stored>, after: map<string, Stored>, id: string) {
    forall other :: other != id ==> SlotOf(after, other) == SlotOf(before, other)
  }

  ghost predicate WellFormed(records: map<string, Stored>) {
    forall id :: SlotOf(records, id).WellFormed()
  }

  class GrantStore {
    var records: map<string, Stored>

    constructor ()
      ensures records == map[]
    {
      records := map[];
    }

    // `diskUp` says whether the file could be opened and the transaction kept; `entropy` is what
    // newLease draws, never the empty string.
    method Begin(id: string, now: nat, entropy: Option<string>, diskUp: bool) returns (r: Result<Claim, Failure>)
      requires entropy.Some? ==> entropy.value != ""
      modifies this
      ensures id == "" ==> r == Err(EmptyId) && records == old(records)
      ensures id != "" && !diskUp ==> r == Err(Disk) && records == old(records)
      ensures id != "" && diskUp ==>
                (SlotOf(records, id), r) == BeginSlot(SlotOf(old(records), id), now, entropy)
      // A grant is recoverable until the instant it expires and spent from then on.
      ensures id != "" && diskUp && SlotOf(old(records), id).Bought? ==>
                var g := SlotOf(old(records), id).grant;
                records == old(records) && r == Ok(if now < g.expiresAt * SECOND then Recoverable(g) else Spent(g))
      // Otherwise the id is reserved for half a minute, unless a reservation still runs.
      ensures id != "" && diskUp && Vacant(SlotOf(old(records), id), now) && entropy.Some? ==>
                SlotOf(records, id) == Held(entropy.value, now + 30 * SECOND) && r == Ok(New(entropy.value))
      ensures id != "" && diskUp && SlotOf(old(records), id).Held? && now < SlotOf(old(records), id).until ==>
                records == old(records) && r == Ok(InFlight)
      ensures ElsewhereSame(old(records), records, id)
      ensures WellFormed(old(records)) ==> WellFormed(records)
    {
      if id == "" {
        return Err(EmptyId);
      }
      if !diskUp {
        return Err(Disk);
      }
      if id in records {
        var decoded := DecodeRecord(records[id]);
        if decoded.Err? {
          return Err(decoded.error);
        }
        var rec := decoded.value;
        if rec.grant.Some? {
          if Unix(now) < rec.grant.value.expiresAt {
            return Ok(Recoverable(rec.grant.value));
          } else {
            return Ok(Spent(rec.grant.value));
          }
        }
        if now < rec.pendingUntil {
          return Ok(InFlight);
        }
      }
      if entropy.None? {
        return Err(NoEntropy);
      }
      records := records[id := Json(Record(entropy.value, now + PAYMENT_LEASE, None))];
      return Ok(New(entropy.value));
    }

    method Release(id: string, lease: string, diskUp: bool) returns (failure: Option<Failure>)
      modifies this
      ensures lease != "" && !diskUp ==> failure == Some(Disk) && records == old(records)
      ensures lease == "" || diskUp ==>
                (SlotOf(records, id), failure) == ReleaseSlot(SlotOf(old(records), id), lease)
      ensures lease != "" && diskUp && SlotOf(old(records), id).Held? && SlotOf(old(records), id).lease == lease ==>
                SlotOf(records, id) == Free && failure == None
      ensures !(SlotOf(old(records), id).Held? && SlotOf(old(records), id).lease == lease) ==>
                SlotOf(records, id) == SlotOf(old(records), id)
      ensures ElsewhereSame(old(records), records, id)
      ensures WellFormed(old(records)) ==> WellFormed(records)
    {
      if lease == "" {
        return None;
      }
      if !diskUp {
        return Some(Disk);
      }
      if id !in records {
        return None;
      }
      var decoded := DecodeRecord(records[id]);
      if decoded.Err? {
        return Some(decoded.error);
      }
      if decoded.value.grant.None? && decoded.value.lease == lease {
        records := records - {id};
      }
      return None;
    }

    method Commit(id: string, lease: string, grant: Grant, diskUp: bool) returns (r: Result<(Grant, bool), Failure>)
      modifies this
      ensures CompleteGrant(grant) && !diskUp ==> r == Err(Disk) && records == old(records)
      ensures diskUp || !CompleteGrant(grant) ==>
                (SlotOf(records, id), r) == CommitSlot(SlotOf(old(records), id), lease, grant)
      ensures diskUp && CompleteGrant(grant) && lease != "" && SlotOf(old(records), id).Held?
              && SlotOf(old(records), id).lease == lease ==>
                SlotOf(records, id) == Bought(grant) && r == Ok((grant, true))
      ensures diskUp && CompleteGrant(grant) && SlotOf(old(records), id).Bought? ==>
                records == old(records) && r == Ok((SlotOf(old(records), id).grant, false))
      ensures !(r.Ok? && r.value.1) ==> SlotOf(records, id) == SlotOf(old(records), id)
      ensures ElsewhereSame(old(records), records, id)
      ensures WellFormed(old(records)) ==> WellFormed(records)
    {
      if !CompleteGrant(grant) {
        return Err(IncompleteGrant);
      }
      if !diskUp {
        return Err(Disk);
      }
      if id !in records {
        return Err(Disappeared);
      }
      var decoded := DecodeRecord(records[id]);
      if decoded.Err? {
        return Err(decoded.error);
      }
      if decoded.value.grant.Some? {
        return Ok((decoded.value.grant.value, false));
      }
      if lease == "" || decoded.value.lease != lease {
        return Err(Changed);
      }
      records := records[id := Json(Record("", 0, Some(grant)))];
      return Ok((grant, true));
    }
  }
}
