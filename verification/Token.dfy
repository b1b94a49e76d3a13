/** Pass tokens. A tag cannot be forged, so a keyring is the set of passes it has signed; the JSON and
    base64 around a pass are the identity. (internal/token/token.go) */
module Token {
  import opened Wrappers

  const SCOPE_ALL := "*"
  const CLOCK_SKEW: int := 60 * SECOND

  datatype Kind = PoW | Paid | Other

  // iat, exp and rt are whole seconds; rt is 0 when the pass is its own root.
  datatype Pass = Pass(kind: Kind, scope: string, aud: string, iat: int, exp: int,
                       ipp: string, uah: string, rt: int, payer: string, tx: string)
  {
    function RootAt(): int {
      if rt == 0 then iat else rt
    }

    predicate Valid() {
      && aud != "" && scope != ""
      && iat > 0 && exp > iat
      && 0 <= rt <= iat
      && match kind
         case PoW => scope == SCOPE_ALL && ipp != "" && uah != "" && payer == "" && tx == ""
         case Paid => scope != SCOPE_ALL && ipp == "" && uah == "" && rt == 0
         case Other => false
    }
  }

  // A cookie value: bytes that carry no good tag, or a signed payload.
  datatype Cookie = Junk | Signed(pass: Pass)

  // Keyring.Verify: the pass a cookie carries, if it was signed, is well formed, and is inside its life.
  function Verify(signed: set<Pass>, c: Cookie, now: int): Option<Pass> {
    if c.Junk? || c.pass !in signed || !c.pass.Valid() then None
    else if Unix(now) >= c.pass.exp then None
    else if c.pass.iat > Unix(now + CLOCK_SKEW) then None
    else Some(c.pass)
  }

  // The floors cancel out: a well-formed signed pass is accepted from a minute before it was dated until the
  // instant it expires, to the nanosecond, and nothing else ever is.
  lemma LifeOfAPass(signed: set<Pass>, c: Cookie, now: int, p: Pass)
    ensures Verify(signed, c, now) == Some(p) <==>
              c == Signed(p) && p in signed && p.Valid() && p.iat * SECOND - CLOCK_SKEW <= now < p.exp * SECOND
  {
    Seconds(now, p.exp);
    Seconds(now + CLOCK_SKEW, p.iat);
  }

  lemma Seconds(at: int, s: int)
    ensures Unix(at) >= s <==> at >= s * SECOND
  {
  }
}
