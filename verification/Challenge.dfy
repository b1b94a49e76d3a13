/** Stateless challenges: what is signed into one, and when it may still be answered. A MAC cannot be
    forged, so a keyring is the set of bodies it has signed for an audience.
    (internal/challenge/challenge.go) */
module Challenges {
  import opened Wrappers
  import opened Pow

  const SKEW: int := 60 * SECOND
  const PROFILE_V1: byte := 1
  const ADMIT: byte := 1
  const RENEW: byte := 2
  const RAND_LEN := 16
  const PROFILE_LEN := 42

  datatype Profile = Profile(kind: byte, ttl: int, threshold: Word)
  {
    predicate Valid() {
      (kind == ADMIT || kind == RENEW) && ttl > 0
    }

    // A time.Duration is 64 bits wide.
    predicate Fits() {
      FitsInt64(ttl)
    }
  }

  predicate FitsInt64(n: int) {
    -0x8000_0000_0000_0000 <= n < 0x8000_0000_0000_0000
  }

  function Uint64(n: int): (u: nat)
    ensures u < 0x1_0000_0000_0000_0000
    ensures FitsInt64(n) ==> Int64(u) == n
  {
    n % 0x1_0000_0000_0000_0000
  }

  function Int64(u: nat): int
    requires u < 0x1_0000_0000_0000_0000
  {
    if u < 0x8000_0000_0000_0000 then u else u - 0x1_0000_0000_0000_0000
  }

  // ---------------------------------------------------------------------------
  // The wire form
  // ---------------------------------------------------------------------------

  function AppendProfile(p: Profile): (raw: seq<byte>)
    ensures |raw| == PROFILE_LEN
  {
    [PROFILE_V1, p.kind] + Bytes(Uint64(p.ttl), 8) + p.threshold
  }

  function ParseProfile(raw: seq<byte>): Option<Profile> {
    if |raw| != PROFILE_LEN || raw[0] != PROFILE_V1 then None
    else
      Eight(raw[2..10]);
      var p := Profile(raw[1], Int64(Number(raw[2..10])), raw[10..]);
      if p.Valid() then Some(p) else None
  }

  lemma Eight(b: seq<byte>)
    requires |b| == 8
    ensures Number(b) < 0x1_0000_0000_0000_0000
  {
    NumberBelow(b);
    TwoTo64();
  }

  lemma TwoTo64()
    ensures Pow2(64) == 0x1_0000_0000_0000_0000
  {
    assert Pow2(4) == 16;
    Pow2Adds(4, 4);
    Pow2Byte(8);
    Pow2Byte(16);
    Pow2Byte(24);
    Pow2Byte(32);
    Pow2Byte(40);
    Pow2Byte(48);
    Pow2Byte(56);
  }

  // Every promise an issuer can make is read back as it was made, and one it must not make is refused.
  lemma ParseOfAppend(p: Profile)
    requires p.Fits()
    ensures ParseProfile(AppendProfile(p)) == if p.Valid() then Some(p) else None
  {
    var raw := AppendProfile(p);
    assert raw[2..10] == Bytes(Uint64(p.ttl), 8) && raw[10..] == p.threshold;
    TwoTo64();
    NumberOfBytes(Uint64(p.ttl), 8);
  }

  // What parses is exactly what some valid profile is written as.
  lemma AppendOfParse(raw: seq<byte>)
    requires ParseProfile(raw).Some?
    ensures ParseProfile(raw).value.Valid() && ParseProfile(raw).value.Fits()
    ensures AppendProfile(ParseProfile(raw).value) == raw
  {
    Eight(raw[2..10]);
    BytesOfNumber(raw[2..10]);
    var u := Number(raw[2..10]);
    assert Uint64(Int64(u)) == u;
    assert raw == [raw[0], raw[1]] + raw[2..10] + raw[10..];
  }

  datatype Challenge = Challenge(ts: int, rand: seq<byte>, profile: Profile)
  {
    predicate Fits() {
      FitsInt64(ts) && |rand| == RAND_LEN && profile.Fits()
    }

    function IssuedAt(): int {
      ts * SECOND
    }

    // When it stops buying access, as advertised.
    function Deadline(): int {
      IssuedAt() + profile.ttl
    }
  }

  // What the MAC covers, together with the audience.
  function Body(c: Challenge): seq<byte> {
    Bytes(Uint64(c.ts), 8) + c.rand + AppendProfile(c.profile)
  }

  // One signed body speaks for one challenge: time, nonce and profile cannot be traded for one another.
  lemma BodyIsInjective(c: Challenge, d: Challenge)
    requires c.Fits() && d.Fits() && c.profile.Valid() && d.profile.Valid()
    requires Body(c) == Body(d)
    ensures c == d
  {
    assert Body(c)[..8] == Bytes(Uint64(c.ts), 8) && Body(d)[..8] == Bytes(Uint64(d.ts), 8);
    assert Body(c)[8..24] == c.rand && Body(d)[8..24] == d.rand;
    assert Body(c)[24..] == AppendProfile(c.profile) && Body(d)[24..] == AppendProfile(d.profile);
    TwoTo64();
    NumberOfBytes(Uint64(c.ts), 8);
    NumberOfBytes(Uint64(d.ts), 8);
    ParseOfAppend(c.profile);
    ParseOfAppend(d.profile);
  }

  // ---------------------------------------------------------------------------
  // Issue and Verify
  // ---------------------------------------------------------------------------

  datatype Issued = Issued(challenge: Challenge, aud: string)

  // What a client submits: not a challenge at all, or the body of one under the best tag it has for it.
  datatype Offer = Garbage | Offer(challenge: Challenge)

  datatype Refusal = Malformed | BadMAC | Stale

  // The stamp inside a challenge is whole seconds.
  function Issue(now: int, rand: seq<byte>, profile: Profile): Option<Challenge> {
    if profile.Valid() then Some(Challenge(Unix(now), rand, profile)) else None
  }

  predicate InTime(c: Challenge, now: int) {
    now - c.IssuedAt() <= c.profile.ttl && c.IssuedAt() - now <= SKEW
  }

  function Verify(issued: set<Issued>, offer: Offer, aud: string, now: int): Result<Challenge, Refusal> {
    if offer.Garbage? then Err(Malformed)
    else
      var c := offer.challenge;
      if Issued(c, aud) !in issued then Err(BadMAC)
      else if !InTime(c, now) then Err(Stale)
      else Ok(c)
  }
}
