/** Which chain object a presented payment consumes, and which of the gate's rails it is on.
    (internal/payment/verifier.go) */
module Identity {
  import opened Wrappers
  import opened Text

  // ---------------------------------------------------------------------------
  // Integers however they are spelled
  // ---------------------------------------------------------------------------

  // One more than the largest unsigned 256-bit integer.
  const UINT256_LIMIT: int := 0x1_00000000_00000000_00000000_00000000_00000000_00000000_00000000_00000000

  predicate HexPrefixed(t: string) {
    |t| > 2 && t[0] == '0' && (t[1] == 'x' || t[1] == 'X')
  }

  // The unsigned 256-bit integer a literal spells, if it spells one.
  function Spells(s: string): Option<nat> {
    var t := TrimSpace(s);
    match if HexPrefixed(t) then SetString(t[2..], 16) else SetString(t, 10)
    case None => None
    case Some(n) => if n < 0 || n >= UINT256_LIMIT then None else Some(n)
  }

  function CanonicalInteger(s: string): Option<string> {
    match Spells(s)
    case None => None
    case Some(n) => Some(Decimal(n))
  }

  lemma DecimalIsTrimmed(s: string)
    requires s != [] && !IsSpace(s[0]) && !IsSpace(s[|s| - 1])
    ensures TrimSpace(s) == s
  {
  }

  // Rendering is a section of parsing, so two literals share a canonical form exactly when they spell
  // the same integer.
  lemma CanonicalFormDecides(a: string, b: string)
    requires Spells(a).Some? && Spells(b).Some?
    ensures CanonicalInteger(a) == CanonicalInteger(b) <==> Spells(a) == Spells(b)
  {
  }

  // A decimal numeral spells itself up to 2^256 - 1, and past that, or below zero, nothing.
  lemma DecimalSpellsItself(n: nat)
    ensures Spells(Decimal(n)) == if n < UINT256_LIMIT then Some(n) else None
    ensures n > 0 ==> Spells("-" + Decimal(n)) == None
  {
    var d := Decimal(n);
    DecimalValueIn(d);
    UnsignedDigits(d, 10);
    DecimalIsTrimmed(d);
    var minus := "-" + d;
    assert minus[1..] == d && minus[|minus| - 1] == d[|d| - 1];
    DecimalIsTrimmed(minus);
  }

  function Hex(n: nat, upper: bool): (s: string)
    ensures s != [] && DigitsIn(s, 16) && ValueIn(s, 16) == n
    ensures !IsSpace(s[|s| - 1])
  {
    if n < 16 then [HexChar(n, upper)]
    else
      var front := Hex(n / 16, upper);
      assert (front + [HexChar(n % 16, upper)])[..|front|] == front;
      front + [HexChar(n % 16, upper)]
  }

  lemma {:induction false} LeadingZeros(zeros: string, s: string, base: nat)
    requires base > 0 && DigitsIn(s, base) && forall i :: 0 <= i < |zeros| ==> zeros[i] == '0'
    ensures DigitsIn(zeros + s, base) && ValueIn(zeros + s, base) == ValueIn(s, base)
  {
    if s == [] {
      ZerosAreZero(zeros, base);
      assert zeros + s == zeros;
    } else {
      var front := s[..|s| - 1];
      LeadingZeros(zeros, front, base);
      assert (zeros + s)[..|zeros + s| - 1] == zeros + front;
    }
  }

  lemma {:induction false} ZerosAreZero(zeros: string, base: nat)
    requires base > 0 && forall i :: 0 <= i < |zeros| ==> zeros[i] == '0'
    ensures DigitsIn(zeros, base) && ValueIn(zeros, base) == 0
  {
    if zeros != [] {
      ZerosAreZero(zeros[..|zeros| - 1], base);
    }
  }

  lemma HexLiteralSpells(x: char, digits: string, n: nat)
    requires (x == 'x' || x == 'X') && digits != [] && DigitsIn(digits, 16)
    requires ValueIn(digits, 16) == n < UINT256_LIMIT
    ensures Spells(['0', x] + digits) == Some(n)
  {
    var t := ['0', x] + digits;
    UnsignedDigits(digits, 16);
    assert t[2..] == digits && t[|t| - 1] == digits[|digits| - 1];
    DecimalIsTrimmed(t);
  }

  // Every zero-padded hexadecimal spelling, in either case and with either prefix, is the decimal one.
  lemma HexAndDecimalAgree(n: nat, x: char, zeros: string, upper: bool)
    requires n < UINT256_LIMIT && (x == 'x' || x == 'X')
    requires forall i :: 0 <= i < |zeros| ==> zeros[i] == '0'
    ensures CanonicalInteger(['0', x] + (zeros + Hex(n, upper))) == CanonicalInteger(Decimal(n)) == Some(Decimal(n))
  {
    LeadingZeros(zeros, Hex(n, upper), 16);
    HexLiteralSpells(x, zeros + Hex(n, upper), n);
    DecimalSpellsItself(n);
  }

  // ---------------------------------------------------------------------------
  // Presentations
  // ---------------------------------------------------------------------------

  // One payable rail. `transferMethod` is the extra.assetTransferMethod entry, "" when absent.
  datatype Requirements = Requirements(scheme: string, network: string, asset: string, amount: string,
                                       payTo: string, transferMethod: string) {
    function TransferMethod(): string {
      if transferMethod != "" then transferMethod else "eip3009"
    }
  }

  // An authorization object inside the scheme payload; `from` and `nonce` keep their literal text,
  // quoted or not, and are "" when absent.
  datatype AuthObject = Undecodable | Fields(from: string, nonce: string)

  // The scheme payload as decoded JSON: something else than an object, or an object's members.
  datatype SchemePayload = NotAnObject | Members(fields: map<string, AuthObject>)

  datatype Payload = Payload(accepted: Requirements, scheme: SchemePayload)

  datatype AuthIdentity = AuthIdentity(key: string, from: string, nonce: string)

  datatype Refusal = Unidentified | Mismatch

  const AUTH_KEYS: seq<string> := ["permit2Authorization", "authorization"]

  function AuthKeyFor(transferMethod: string): Option<string> {
    if transferMethod == "permit2" then Some("permit2Authorization")
    else if transferMethod == "eip3009" then Some("authorization")
    else None
  }

  // The authorization the server's transfer method selects. None means the payload models none.
  function Authorization(p: SchemePayload, transferMethod: string): Result<Option<AuthIdentity>, Refusal> {
    if p.NotAnObject? then Ok(None)
    else if forall k :: k in AUTH_KEYS ==> k in p.fields then Err(Unidentified)
    else
      var key := AuthKeyFor(transferMethod);
      if key.None? || key.value !in p.fields then Ok(None)
      else
        var a := p.fields[key.value];
        if a.Undecodable? || a.from == "" || a.nonce == "" then Err(Unidentified)
        else match CanonicalInteger(a.nonce)
          case None => Err(Unidentified)
          case Some(nonce) => Ok(Some(AuthIdentity(key.value, ToLower(a.from), nonce)))
  }

  method FindAuthorization(p: SchemePayload, transferMethod: string) returns (r: Result<Option<AuthIdentity>, Refusal>)
    ensures r == Authorization(p, transferMethod)
  {
    if p.NotAnObject? {
      return Ok(None);
    }
    var present, i := 0, 0;
    while i < |AUTH_KEYS|
      invariant 0 <= i <= |AUTH_KEYS|
      invariant 0 <= present <= i
      invariant present == i <==> forall k :: 0 <= k < i ==> AUTH_KEYS[k] in p.fields
    {
      if AUTH_KEYS[i] in p.fields {
        present := present + 1;
      }
      i := i + 1;
    }
    if present > 1 {
      return Err(Unidentified);
    }
    i := 0;
    while i < |AUTH_KEYS|
      invariant 0 <= i <= |AUTH_KEYS|
      invariant forall k :: 0 <= k < i ==> AuthKeyFor(transferMethod) != Some(AUTH_KEYS[k]) || AUTH_KEYS[k] !in p.fields
    {
      var key := AUTH_KEYS[i];
      if AuthKeyFor(transferMethod) == Some(key) && key in p.fields {
        var a := p.fields[key];
        if a.Undecodable? || a.from == "" || a.nonce == "" {
          return Err(Unidentified);
        }
        var nonce := CanonicalInteger(a.nonce);
        if nonce.None? {
          return Err(Unidentified);
        }
        return Ok(Some(AuthIdentity(key, ToLower(a.from), nonce.value)));
      }
      i := i + 1;
    }
    assert AuthKeyFor(transferMethod).Some? ==>
        AuthKeyFor(transferMethod).value == AUTH_KEYS[0] || AuthKeyFor(transferMethod).value == AUTH_KEYS[1];
    return Ok(None);
  }

  // The tuple that payment.ID hashes.
  datatype Name = Name(scheme: string, network: string, asset: string, key: string, from: string, nonce: string)

  function PaymentName(p: Payload, req: Requirements): Result<Name, Refusal> {
    var m := req.TransferMethod();
    if req.scheme != "exact" || (m != "eip3009" && m != "permit2") then Err(Unidentified)
    else match Authorization(p.scheme, m)
      case Err(e) => Err(e)
      case Ok(None) => Err(Unidentified)
      case Ok(Some(auth)) =>
        Ok(Name(req.scheme, req.network, ToLower(req.asset), auth.key, auth.from, auth.nonce))
  }

  // What the payer signed: the sender and the nonce, as written in the selected object.
  function SignedAuth(p: Payload, req: Requirements): AuthObject
    requires PaymentName(p, req).Ok?
  {
    p.scheme.fields[AuthKeyFor(req.TransferMethod()).value]
  }

  // The one authorization object of a payload, where it stands under the key the transfer method goes by: for permit2
  // its own, for eip3009, which is also the default, the plain one.
  predicate Selects(p: SchemePayload, transferMethod: string, a: AuthObject) {
    && p.Members?
    && if transferMethod == "permit2" then
         && "permit2Authorization" in p.fields && "authorization" !in p.fields
         && p.fields["permit2Authorization"] == a
       else
         && (transferMethod == "eip3009" || transferMethod == "")
         && "authorization" in p.fields && "permit2Authorization" !in p.fields
         && p.fields["authorization"] == a
  }

  predicate Spendable(a: AuthObject) {
    a.Fields? && a.from != "" && a.nonce != "" && Spells(a.nonce).Some?
  }

  // Which presentations have a name, and what the name takes from them.
  lemma NamedIff(p: Payload, req: Requirements)
    ensures PaymentName(p, req).Ok? <==>
              req.scheme == "exact" && exists a :: Selects(p.scheme, req.transferMethod, a) && Spendable(a)
    ensures PaymentName(p, req).Err? ==> PaymentName(p, req).error == Unidentified
    ensures forall a :: Selects(p.scheme, req.transferMethod, a) && PaymentName(p, req).Ok? ==>
              var name := PaymentName(p, req).value;
              && SignedAuth(p, req) == a && Spendable(a)
              && name.key == (if req.transferMethod == "permit2" then "permit2Authorization" else "authorization")
              && EqualFold(name.from, a.from) && name.nonce == Decimal(Spells(a.nonce).value)
              && name.network == req.network && EqualFold(name.asset, req.asset)
  {
    hide Spells, ToLower;
    KeysDiffer();
    LoweredTwice();
    var key := AuthKeyFor(req.TransferMethod());
    if key.Some? && p.scheme.Members? && key.value in p.scheme.fields {
      var a := p.scheme.fields[key.value];
      assert Selects(p.scheme, req.transferMethod, a) || forall k :: k in AUTH_KEYS ==> k in p.scheme.fields;
    }
  }

  lemma KeysDiffer()
    ensures forall fields: map<string, AuthObject> ::
              (forall k :: k in AUTH_KEYS ==> k in fields) <==> "permit2Authorization" in fields && "authorization" in fields
  {
    assert AUTH_KEYS[0] == "permit2Authorization" && AUTH_KEYS[1] == "authorization";
    assert forall k :: k in AUTH_KEYS <==> k == "permit2Authorization" || k == "authorization";
  }

  lemma LoweredTwice()
    ensures forall s :: ToLower(ToLower(s)) == ToLower(s)
  {
  }

  // Two presentations are the same payment exactly when they are on the same rail, under the same
  // transfer method, and sign the same sender and the same nonce, however either is spelled and
  // whatever else the envelope carries.
  lemma SamePaymentIff(p: Payload, req: Requirements, p': Payload, req': Requirements)
    requires PaymentName(p, req).Ok? && PaymentName(p', req').Ok?
    ensures PaymentName(p, req) == PaymentName(p', req') <==>
            && req.network == req'.network
            && EqualFold(req.asset, req'.asset)
            && req.TransferMethod() == req'.TransferMethod()
            && EqualFold(SignedAuth(p, req).from, SignedAuth(p', req').from)
            && Spells(SignedAuth(p, req).nonce) == Spells(SignedAuth(p', req').nonce)
  {
    CanonicalFormDecides(SignedAuth(p, req).nonce, SignedAuth(p', req').nonce);
  }

  // ---------------------------------------------------------------------------
  // Matching the rail
  // ---------------------------------------------------------------------------

  predicate SameRail(r: Requirements, echoed: Requirements) {
    r.network == echoed.network && r.scheme == echoed.scheme
  }

  predicate SameTerms(r: Requirements, echoed: Requirements) {
    EqualFold(r.asset, echoed.asset) && r.amount == echoed.amount && EqualFold(r.payTo, echoed.payTo)
  }

  predicate FirstOnRail(accepts: seq<Requirements>, echoed: Requirements, i: int) {
    0 <= i < |accepts| && SameRail(accepts[i], echoed) && forall j :: 0 <= j < i ==> !SameRail(accepts[j], echoed)
  }

  // The first offered rail with the echoed network and scheme decides; what comes back is the gate's
  // own entry, and a refusal means no acceptable echo of that entry was presented.
  method MatchRail(p: Payload, accepts: seq<Requirements>) returns (r: Result<Requirements, Refusal>)
    ensures r.Ok? ==> exists i :: FirstOnRail(accepts, p.accepted, i) && accepts[i] == r.value
    ensures r.Ok? ==> SameTerms(r.value, p.accepted)
    ensures r.Err? ==> r.error == Mismatch
    ensures r.Err? ==> forall i :: FirstOnRail(accepts, p.accepted, i) ==> !SameTerms(accepts[i], p.accepted)
  {
    var i := 0;
    while i < |accepts|
      invariant 0 <= i <= |accepts|
      invariant forall j :: 0 <= j < i ==> !SameRail(accepts[j], p.accepted)
    {
      var offered := accepts[i];
      if offered.network == p.accepted.network && offered.scheme == p.accepted.scheme {
        if !EqualFold(offered.asset, p.accepted.asset) || offered.amount != p.accepted.amount
           || !EqualFold(offered.payTo, p.accepted.payTo) {
          return Err(Mismatch);
        }
        assert FirstOnRail(accepts, p.accepted, i);
        return Ok(offered);
      }
      i := i + 1;
    }
    return Err(Mismatch);
  }
}
