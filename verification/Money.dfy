/** Display prices as exact atomic amounts, and settled amounts as one comparable counter.
    (internal/config/config.go, internal/gate/pay.go) */
module Money {
  import opened Wrappers
  import opened Text

  const MAX_DECIMALS := 36
  const METRIC_DECIMALS: nat := 6
  const UINT64: nat := 0x1_0000_0000_0000_0000

  // ---------------------------------------------------------------------------
  // parsePrice
  // ---------------------------------------------------------------------------

  // strings.Cut at the first point.
  function Cut(s: string): (parts: (string, string))
    ensures '.' !in parts.0
    ensures s == parts.0 + (if '.' in s then ['.'] + parts.1 else "")
    ensures '.' !in s ==> parts.1 == ""
  {
    if s == [] then ("", "")
    else if s[0] == '.' then ("", s[1..])
    else
      var (whole, frac) := Cut(s[1..]);
      assert s == [s[0]] + s[1..];
      ([s[0]] + whole, frac)
  }

  function Zeros(n: nat): (z: string)
    ensures |z| == n && AllDigits(z)
  {
    seq(n, _ => '0')
  }

  // The text a price is read from: one currency sign and the space around it are dropped.
  function Stripped(price: string): string {
    var s := TrimSpace(price);
    TrimSpace(if ['$'] <= s then s[1..] else s)
  }

  function ParsePrice(price: string, decimals: int): Result<nat, string> {
    if decimals < 0 || decimals > MAX_DECIMALS then Err("decimals outside [0, 36]")
    else ParseText(Stripped(price), decimals)
  }

  function ParseText(s: string, decimals: nat): Result<nat, string> {
    if s == "" then Err("empty")
    else
      var (whole, frac) := Cut(s);
      if whole == "" && frac == "" then Err("no digits")
      else
        var digits := if whole == "" then ['0'] else whole;
        if !AllDigits(digits + frac) then Err("unexpected character")
        else if |frac| > decimals then Err("more fractional digits than the asset has decimals")
        else
          var n := Amount(digits, frac, decimals);
          if n == 0 then Err("price is zero") else Ok(n)
  }

  function Amount(whole: string, frac: string, decimals: nat): nat
    requires AllDigits(whole + frac) && |frac| <= decimals
  {
    var text := whole + (frac + Zeros(decimals - |frac|));
    AllDigitsPad(whole, frac, decimals - |frac|);
    Value(text)
  }

  lemma AllDigitsPad(whole: string, frac: string, n: nat)
    requires AllDigits(whole + frac)
    ensures AllDigits(whole) && AllDigits(frac) && AllDigits(whole + (frac + Zeros(n)))
  {
    assert forall i :: 0 <= i < |whole| ==> (whole + frac)[i] == whole[i];
    assert forall i :: 0 <= i < |frac| ==> (whole + frac)[|whole| + i] == frac[i];
  }

  // A decimal numeral: digits on at least one side of at most one point.
  predicate Denotes(s: string, whole: string, frac: string) {
    && AllDigits(whole) && AllDigits(frac) && (whole != "" || frac != "")
    && (s == whole + (['.'] + frac) || (s == whole && frac == ""))
  }

  // The numeral as an integer count of its last place.
  function Numerator(whole: string, frac: string): nat
    requires AllDigits(whole) && AllDigits(frac)
  {
    Value(whole) * Pow10(|frac|) + Value(frac)
  }

  lemma {:induction false} ValueOfZeros(n: nat)
    ensures Value(Zeros(n)) == 0
  {
    if n > 0 {
      ValueOfZeros(n - 1);
      assert Zeros(n)[..n - 1] == Zeros(n - 1);
    }
  }

  // Reading the padded digits scales the numeral by a power of ten, exactly.
  lemma AmountIsExact(whole: string, frac: string, decimals: nat)
    requires AllDigits(whole + frac) && |frac| <= decimals
    ensures AllDigits(whole) && AllDigits(frac)
    ensures Amount(whole, frac, decimals) == Numerator(whole, frac) * Pow10(decimals - |frac|)
    ensures Amount(whole, frac, decimals) * Pow10(|frac|) == Numerator(whole, frac) * Pow10(decimals)
  {
    var k := decimals - |frac|;
    AllDigitsPad(whole, frac, k);
    ValueOfZeros(k);
    ValueOfConcat(frac, Zeros(k));
    ValueOfConcat(whole, frac + Zeros(k));
    Pow10Adds(|frac|, k);
    Distribute(Value(whole), Pow10(|frac|), Pow10(k), Value(frac));
  }

  lemma Distribute(w: nat, p: nat, q: nat, f: nat)
    ensures w * (p * q) + f * q == (w * p + f) * q
    ensures ((w * p + f) * q) * p == (w * p + f) * (p * q)
  {
    var n := w * p + f;
    assert n * q == w * p * q + f * q;
    assert (n * q) * p == n * (q * p);
  }

  // A point can be placed in a numeral in one way only.
  lemma CutDenotes(s: string, whole: string, frac: string)
    requires Denotes(s, whole, frac)
    ensures Cut(s) == (whole, frac)
  {
    var (w, f) := Cut(s);
    NoPoint(whole);
    NoPoint(frac);
    if s == whole && frac == "" {
      assert w == s;
    } else {
      assert s[|whole|] == '.' && '.' in s;
      assert s == w + (['.'] + f) && s[|w|] == '.';
      assert forall i :: 0 <= i < |whole| ==> s[i] == whole[i];
      assert forall i :: 0 <= i < |w| ==> s[i] == w[i];
      assert s[..|w|] == w && s[|w| + 1..] == f;
      assert s[..|whole|] == whole && s[|whole| + 1..] == frac;
    }
  }

  lemma NoPoint(s: string)
    requires AllDigits(s)
    ensures '.' !in s
  {
  }

  // A price is accepted exactly when it is written as a positive decimal with no more fraction digits than
  // the asset has, and then the amount is that decimal times ten to the asset's decimals, with no rounding.
  lemma ParsePriceIsExact(price: string, decimals: int)
    ensures ParsePrice(price, decimals).Ok? <==>
              0 <= decimals <= MAX_DECIMALS &&
              exists whole, frac :: Denotes(Stripped(price), whole, frac) && |frac| <= decimals && Numerator(whole, frac) > 0
    ensures forall whole, frac :: ParsePrice(price, decimals).Ok? && Denotes(Stripped(price), whole, frac) ==>
              ParsePrice(price, decimals).value * Pow10(|frac|) == Numerator(whole, frac) * Pow10(decimals)
  {
    hide Stripped, ParseText, Numerator;
    if 0 <= decimals <= MAX_DECIMALS {
      var s := Stripped(price);
      forall whole, frac | Denotes(s, whole, frac)
        ensures (|frac| <= decimals && Numerator(whole, frac) > 0) <==> ParseText(s, decimals).Ok?
        ensures ParseText(s, decimals).Ok? ==>
                  ParseText(s, decimals).value * Pow10(|frac|) == Numerator(whole, frac) * Pow10(decimals)
      {
        ParseOfNumeral(s, whole, frac, decimals);
      }
      if ParseText(s, decimals).Ok? {
        ParsedIsNumeral(s, decimals);
      }
    }
  }

  lemma ParsedIsNumeral(s: string, decimals: nat)
    requires ParseText(s, decimals).Ok?
    ensures Denotes(s, Cut(s).0, Cut(s).1)
  {
    var (w, f) := Cut(s);
    AllDigitsPad(if w == "" then ['0'] else w, f, 0);
  }

  lemma ParseOfNumeral(s: string, w: string, f: string, decimals: nat)
    requires Denotes(s, w, f)
    ensures ParseText(s, decimals).Ok? <==> |f| <= decimals && Numerator(w, f) > 0
    ensures ParseText(s, decimals).Ok? ==>
              && ParseText(s, decimals).value == Numerator(w, f) * Pow10(decimals - |f|)
              && ParseText(s, decimals).value * Pow10(|f|) == Numerator(w, f) * Pow10(decimals)
  {
    CutDenotes(s, w, f);
    var whole := if w == "" then ['0'] else w;
    LeadingZero(w, f);
    if |f| <= decimals {
      AmountIsExact(whole, f, decimals);
      PositiveProduct(Numerator(w, f), Pow10(decimals - |f|));
    }
  }

  lemma LeadingZero(w: string, f: string)
    requires AllDigits(w) && AllDigits(f)
    ensures var whole := if w == "" then ['0'] else w;
            AllDigits(whole) && AllDigits(whole + f) && Numerator(whole, f) == Numerator(w, f)
  {
    var zero := ['0'];
    assert zero[..0] == "" && Value(zero) == 10 * Value("") + 0;
  }

  lemma PositiveProduct(v: nat, p: nat)
    requires p > 0
    ensures v * p > 0 <==> v > 0
  {
  }

  // ---------------------------------------------------------------------------
  // How a price may be written
  // ---------------------------------------------------------------------------

  predicate AllSpace(s: string) {
    forall i :: 0 <= i < |s| ==> IsSpace(s[i])
  }

  // The numeral with space around it and perhaps a currency sign before it.
  predicate Writes(price: string, pre: string, sign: string, mid: string, numeral: string, post: string) {
    && AllSpace(pre) && AllSpace(mid) && AllSpace(post) && (sign == "" || sign == ['$'])
    && price == pre + (sign + (mid + (numeral + post)))
  }

  // What begins and ends with something to read.
  predicate Solid(s: string) {
    s != "" && !IsSpace(s[0]) && !IsSpace(s[|s| - 1])
  }

  lemma {:induction false} TrimLeftPast(pre: string, s: string)
    requires AllSpace(pre) && s != "" && !IsSpace(s[0])
    ensures TrimLeft(pre + s, IsSpace) == s
  {
    if pre == "" {
      assert pre + s == s;
    } else {
      assert (pre + s)[1..] == pre[1..] + s;
      TrimLeftPast(pre[1..], s);
    }
  }

  lemma {:induction false} TrimRightPast(s: string, post: string)
    requires AllSpace(post) && s != "" && !IsSpace(s[|s| - 1])
    ensures TrimRight(s + post, IsSpace) == s
  {
    if post == "" {
      assert s + post == s;
    } else {
      var front := post[..|post| - 1];
      assert (s + post)[..|s + post| - 1] == s + front;
      TrimRightPast(s, front);
    }
  }

  lemma TrimSpacePast(pre: string, s: string, post: string)
    requires AllSpace(pre) && AllSpace(post) && Solid(s)
    ensures TrimSpace(pre + (s + post)) == s
  {
    TrimLeftPast(pre, s + post);
    TrimRightPast(s, post);
  }

  // What trimming leaves, and what it took.
  lemma TrimSpaceTakes(s: string) returns (pre: string, post: string)
    ensures AllSpace(pre) && AllSpace(post) && s == pre + (TrimSpace(s) + post)
    ensures TrimSpace(s) != "" ==> Solid(TrimSpace(s))
  {
    var t := TrimLeft(s, IsSpace);
    TrimLeftTakes(s, IsSpace);
    TrimRightTakes(t, IsSpace);
    pre, post := s[..|s| - |t|], t[|TrimSpace(s)|..];
  }

  lemma NumeralIsSolid(s: string, whole: string, frac: string)
    requires Denotes(s, whole, frac)
    ensures Solid(s) && s[0] != '$'
  {
    assert whole != "" ==> s[0] == whole[0] && IsDigit(whole[0]);
    assert frac != "" ==> s[|s| - 1] == frac[|frac| - 1] && IsDigit(frac[|frac| - 1]);
  }

  // A numeral is read from exactly the texts that write it so: one sign at most is dropped, and space only outside
  // the numeral.
  lemma StrippedIff(price: string, s: string, whole: string, frac: string)
    requires Denotes(s, whole, frac)
    ensures Stripped(price) == s <==> exists pre, sign, mid, post :: Writes(price, pre, sign, mid, s, post)
  {
    NumeralIsSolid(s, whole, frac);
    if pre, sign, mid, post :| Writes(price, pre, sign, mid, s, post) {
      WrittenIsStripped(price, pre, sign, mid, s, post);
    }
    if Stripped(price) == s {
      StrippedIsWritten(price);
    }
  }

  lemma WrittenIsStripped(price: string, pre: string, sign: string, mid: string, s: string, post: string)
    requires Writes(price, pre, sign, mid, s, post) && Solid(s) && s[0] != '$'
    ensures Stripped(price) == s
  {
    if sign == "" {
      assert price == (pre + mid) + (s + post);
      TrimSpacePast(pre + mid, s, post);
      TrimSpacePast("", s, "");
      assert "" + (s + "") == s;
    } else {
      var t := sign + (mid + s);
      assert price == pre + (t + post);
      assert t[|t| - 1] == s[|s| - 1] && t[0] == '$';
      TrimSpacePast(pre, t, post);
      assert t[1..] == mid + (s + "");
      TrimSpacePast(mid, s, "");
    }
  }

  lemma StrippedIsWritten(price: string)
    requires Stripped(price) != ""
    ensures exists pre, sign, mid, post :: Writes(price, pre, sign, mid, Stripped(price), post)
  {
    hide TrimSpace, AllSpace;
    var t := TrimSpace(price);
    var pre, post := TrimSpaceTakes(price);
    var sign := if ['$'] <= t then ['$'] else "";
    var u := if ['$'] <= t then t[1..] else t;
    var mid, post' := TrimSpaceTakes(u);
    assert t == sign + u;
    BothTrimmed(pre, sign, mid, Stripped(price), post', post);
    assert Writes(price, pre, sign, mid, Stripped(price), post' + post);
  }

  lemma BothTrimmed(pre: string, sign: string, mid: string, s: string, post': string, post: string)
    ensures pre + ((sign + (mid + (s + post'))) + post) == pre + (sign + (mid + (s + (post' + post))))
    ensures AllSpace(post') && AllSpace(post) ==> AllSpace(post' + post)
  {
  }

  // So every way to write a price is accepted exactly when the numeral in it is positive and short enough, for that
  // many atomic units.
  lemma WrittenPrice(price: string, pre: string, sign: string, mid: string, s: string, post: string, whole: string, frac: string,
                     decimals: nat)
    requires Writes(price, pre, sign, mid, s, post) && Denotes(s, whole, frac) && decimals <= MAX_DECIMALS
    ensures ParsePrice(price, decimals).Ok? <==> |frac| <= decimals && Numerator(whole, frac) > 0
    ensures ParsePrice(price, decimals).Ok? ==>
              ParsePrice(price, decimals).value == Numerator(whole, frac) * Pow10(decimals - |frac|)
  {
    hide Stripped, ParseText, Writes, Denotes, Numerator;
    StrippedIff(price, s, whole, frac);
    ParseOfNumeral(s, whole, frac, decimals);
  }

  // ---------------------------------------------------------------------------
  // One price on every rail
  // ---------------------------------------------------------------------------

  datatype Rail = Rail(network: string, asset: string, decimals: int)
  {
    // A CAIP-2 network and a token are named, and the decimals are in range; zero stands for the default.
    predicate WellDeclared() {
      network != "" && ':' in network && asset != "" && 0 <= decimals <= MAX_DECIMALS
    }

    function Defaulted(): Rail {
      if decimals == 0 then this.(decimals := 6) else this
    }
  }

  // The identity and decimals of every rail, with unset decimals filled in; a network may be declared once.
  method ValidateRails(rails: seq<Rail>) returns (r: Result<seq<Rail>, string>)
    ensures r.Ok? <==> (forall i :: 0 <= i < |rails| ==> rails[i].WellDeclared()) && Distinct(rails)
    ensures r.Ok? ==> |r.value| == |rails| && forall i :: 0 <= i < |rails| ==> r.value[i] == rails[i].Defaulted()
    ensures r.Ok? ==> ValidRails(r.value)
  {
    var seen: set<string> := {};
    var out: seq<Rail> := [];
    var i := 0;
    while i < |rails|
      invariant 0 <= i <= |rails|
      invariant |out| == i && forall k :: 0 <= k < i ==> out[k] == rails[k].Defaulted()
      invariant forall k :: 0 <= k < i ==> rails[k].WellDeclared()
      invariant forall n :: n in seen <==> exists k :: 0 <= k < i && rails[k].network == n
      invariant Distinct(rails[..i])
    {
      var rl := rails[i];
      if rl.network == "" {
        return Err("network is required");
      }
      if ':' !in rl.network {
        return Err("network is not CAIP-2");
      }
      if rl.network in seen {
        return Err("duplicate payments.rails network");
      }
      seen := seen + {rl.network};
      if rl.asset == "" {
        return Err("asset is required");
      }
      if rl.decimals == 0 {
        rl := rl.(decimals := 6);
      }
      if rl.decimals < 0 || rl.decimals > MAX_DECIMALS {
        return Err("decimals outside [1, 36]");
      }
      out := out + [rl];
      i := i + 1;
    }
    assert rails[..i] == rails;
    return Ok(out);
  }

  predicate Distinct(rails: seq<Rail>) {
    forall i, j :: 0 <= i < j < |rails| ==> rails[i].network != rails[j].network
  }

  // A rule's price resolved on each rail, or refused because some rail cannot express it.
  method ResolvePrice(price: string, rails: seq<Rail>) returns (r: Result<map<string, nat>, string>)
    requires Distinct(rails)
    ensures r.Ok? <==> forall i :: 0 <= i < |rails| ==> ParsePrice(price, rails[i].decimals).Ok?
    ensures r.Ok? ==> forall n :: n in r.value <==> exists i :: 0 <= i < |rails| && rails[i].network == n
    ensures r.Ok? ==> forall i :: 0 <= i < |rails| ==> r.value[rails[i].network] == ParsePrice(price, rails[i].decimals).value
    ensures r.Ok? ==> forall i, j :: 0 <= i < |rails| && 0 <= j < |rails| ==>
              && 0 <= rails[i].decimals && 0 <= rails[j].decimals
              && r.value[rails[i].network] * Pow10(rails[j].decimals) == r.value[rails[j].network] * Pow10(rails[i].decimals)
  {
    hide ParsePrice;
    var atomic: map<string, nat> := map[];
    var i := 0;
    while i < |rails|
      invariant 0 <= i <= |rails|
      invariant forall k :: 0 <= k < i ==> ParsePrice(price, rails[k].decimals).Ok?
      invariant forall n :: n in atomic <==> exists k :: 0 <= k < i && rails[k].network == n
      invariant forall k :: 0 <= k < i ==> atomic[rails[k].network] == ParsePrice(price, rails[k].decimals).value
    {
      var n := ParsePrice(price, rails[i].decimals);
      if n.Err? {
        return Err(n.error);
      }
      atomic := atomic[rails[i].network := n.value];
      i := i + 1;
    }
    forall i, j | 0 <= i < |rails| && 0 <= j < |rails|
      ensures 0 <= rails[i].decimals && 0 <= rails[j].decimals
      ensures atomic[rails[i].network] * Pow10(rails[j].decimals) == atomic[rails[j].network] * Pow10(rails[i].decimals)
    {
      SameOnEveryRail(price, rails[i].decimals, rails[j].decimals);
    }
    return Ok(atomic);
  }

  // The amounts one price has on two rails are the same value.
  lemma SameOnEveryRail(price: string, d: int, e: int)
    requires ParsePrice(price, d).Ok? && ParsePrice(price, e).Ok?
    ensures 0 <= d && 0 <= e
    ensures ParsePrice(price, d).value * Pow10(e) == ParsePrice(price, e).value * Pow10(d)
  {
    SameText(Stripped(price), d, e);
  }

  lemma SameText(s: string, d: nat, e: nat)
    requires ParseText(s, d).Ok? && ParseText(s, e).Ok?
    ensures ParseText(s, d).value * Pow10(e) == ParseText(s, e).value * Pow10(d)
  {
    hide ParseText, Numerator;
    var (whole, frac) := Cut(s);
    ParsedIsNumeral(s, d);
    ParseOfNumeral(s, whole, frac, d);
    ParseOfNumeral(s, whole, frac, e);
    CrossMultiply(ParseText(s, d).value, ParseText(s, e).value, Pow10(|frac|), Numerator(whole, frac), Pow10(d), Pow10(e));
  }

  lemma CrossMultiply(m: nat, n: nat, f: nat, v: nat, d: nat, e: nat)
    requires f > 0 && m * f == v * d && n * f == v * e
    ensures m * e == n * d
  {
    assert (m * e) * f == (m * f) * e == (v * d) * e;
    assert (n * d) * f == (n * f) * d == (v * e) * d;
    assert (v * d) * e == (v * e) * d;
    assert (m * e) * f == (n * d) * f;
    CancelFactor(m * e, n * d, f);
  }

  lemma CancelFactor(a: int, b: int, f: int)
    requires f > 0 && a * f == b * f
    ensures a == b
  {
    assert (a - b) * f == 0;
  }

  // ---------------------------------------------------------------------------
  // What was paid, in millionths
  // ---------------------------------------------------------------------------

  // The settled amount if the facilitator gave one that can be read, else the asking price.
  function Settled(amount: string, network: string, asked: map<string, nat>): Option<nat> {
    var n := SetString(amount, 10);
    if n.Some? && n.value >= 0 then Some(n.value)
    else if network in asked then Some(asked[network])
    else None
  }

  function DecimalsOf(rails: seq<Rail>, network: string): int {
    if rails == [] then METRIC_DECIMALS
    else if rails[0].network == network then rails[0].decimals
    else DecimalsOf(rails[1..], network)
  }

  method FindDecimals(rails: seq<Rail>, network: string) returns (decimals: int)
    ensures decimals == DecimalsOf(rails, network)
  {
    decimals := METRIC_DECIMALS;
    var i := 0;
    while i < |rails|
      invariant 0 <= i <= |rails| && decimals == METRIC_DECIMALS
      invariant DecimalsOf(rails, network) == DecimalsOf(rails[i..], network)
    {
      if rails[i].network == network {
        return rails[i].decimals;
      }
      i := i + 1;
    }
  }

  lemma {:induction false} DecimalsOfRail(rails: seq<Rail>, i: nat)
    requires i < |rails| && Distinct(rails)
    ensures DecimalsOf(rails, rails[i].network) == rails[i].decimals
  {
    if i > 0 {
      assert rails[0].network != rails[i].network;
      DecimalsOfRail(rails[1..], i - 1);
    }
  }

  // Atomic units on an asset with this many decimals, in millionths, rounded down.
  function Micros(atomic: nat, decimals: nat): nat {
    atomic * Pow10(METRIC_DECIMALS) / Pow10(decimals)
  }

  predicate ValidRails(rails: seq<Rail>) {
    Distinct(rails) && forall i :: 0 <= i < |rails| ==> 1 <= rails[i].decimals <= MAX_DECIMALS
  }

  lemma {:induction false} DecimalsAreNatural(rails: seq<Rail>, network: string)
    requires forall i :: 0 <= i < |rails| ==> 1 <= rails[i].decimals <= MAX_DECIMALS
    ensures DecimalsOf(rails, network) >= 1
  {
    if rails != [] {
      DecimalsAreNatural(rails[1..], network);
    }
  }

  // What one settlement adds to the counter. A value that does not fit is not counted.
  function Counted(amount: string, network: string, asked: map<string, nat>, rails: seq<Rail>): nat
    requires ValidRails(rails)
  {
    DecimalsAreNatural(rails, network);
    var atomic := Settled(amount, network, asked);
    if atomic.None? then 0
    else
      var micros := Micros(atomic.value, DecimalsOf(rails, network));
      if micros < UINT64 then micros else 0
  }

  class Meter {
    var paidValue: nat  // a wrapping 64-bit counter

    constructor ()
      ensures paidValue == 0
    {
      paidValue := 0;
    }

    method CountPaidValue(amount: string, network: string, asked: map<string, nat>, rails: seq<Rail>)
      requires ValidRails(rails) && paidValue < UINT64
      modifies this
      ensures paidValue == (old(paidValue) + Counted(amount, network, asked, rails)) % UINT64
    {
      var atomic := Settled(amount, network, asked);
      if atomic.None? {
        return;
      }
      var decimals := FindDecimals(rails, network);
      DecimalsAreNatural(rails, network);
      var micros := atomic.value * Pow10(METRIC_DECIMALS);
      micros := micros / Pow10(decimals);
      if micros >= UINT64 {
        return;
      }
      paidValue := (paidValue + micros) % UINT64;
    }
  }

  // A settlement is worth k millionths when k is the most that its atomic amount, on an asset with d decimals, makes.
  predicate Worth(atomic: nat, d: nat, k: nat) {
    k * Pow10(d) <= atomic * 1_000_000 < (k + 1) * Pow10(d)
  }

  // The decimals of the network's rail, or six.
  predicate DecimalsFor(rails: seq<Rail>, network: string, d: nat) {
    if exists i :: 0 <= i < |rails| && rails[i].network == network
    then exists i :: 0 <= i < |rails| && rails[i].network == network && rails[i].decimals == d
    else d == 6
  }

  // What counts of an amount: the number it spells, or, when it spells none or one below zero, the price asked.
  predicate AmountFor(amount: string, network: string, asked: map<string, nat>, atomic: nat) {
    if SetString(amount, 10).Some? && SetString(amount, 10).value >= 0 then SetString(amount, 10) == Some(atomic)
    else network in asked && asked[network] == atomic
  }

  // Every settlement counts for its whole millionths, or for nothing when they pass 64 bits or there is no amount.
  lemma CountedIsWorth(amount: string, network: string, asked: map<string, nat>, rails: seq<Rail>, atomic: nat, d: nat, k: nat)
    requires ValidRails(rails) && DecimalsFor(rails, network, d) && Worth(atomic, d, k)
    ensures AmountFor(amount, network, asked, atomic) ==>
              Counted(amount, network, asked, rails) == if k < 0x1_0000_0000_0000_0000 then k else 0
    ensures (forall n: nat :: !AmountFor(amount, network, asked, n)) ==> Counted(amount, network, asked, rails) == 0
  {
    hide SetString, Pow10;
    DecimalsFound(rails, network, d);
    Million();
    var x := atomic * 1_000_000;
    assert x == k * Pow10(d) + (x - k * Pow10(d));
    NextMultiple(k, Pow10(d));
    QuotientIs(x, Pow10(d), k, x - k * Pow10(d));
    var n := Settled(amount, network, asked);
    assert n.Some? ==> AmountFor(amount, network, asked, n.value);
  }

  lemma NextMultiple(k: int, p: int)
    ensures (k + 1) * p == k * p + p
  {
  }

  lemma Million()
    ensures Pow10(6) == 1_000_000
  {
    assert Pow10(3) == 1000;
  }

  lemma DecimalsFound(rails: seq<Rail>, network: string, d: nat)
    requires ValidRails(rails) && DecimalsFor(rails, network, d)
    ensures DecimalsOf(rails, network) == d
  {
    if i :| 0 <= i < |rails| && rails[i].network == network {
      var j :| 0 <= j < |rails| && rails[j].network == network && rails[j].decimals == d;
      DecimalsOfRail(rails, j);
    } else {
      NoRail(rails, network);
    }
  }

  lemma {:induction false} NoRail(rails: seq<Rail>, network: string)
    requires forall i :: 0 <= i < |rails| ==> rails[i].network != network
    ensures DecimalsOf(rails, network) == 6
  {
    if rails != [] {
      NoRail(rails[1..], network);
    }
  }

  lemma Swap(v: int, p: int, q: int)
    ensures (v * p) * q == (v * q) * p
  {
  }

  lemma CancelInQuotient(x: nat, f: nat, k: nat)
    requires f > 0 && k > 0
    ensures k * f > 0 && (x * k) / (k * f) == x / f
  {
    Scaled(x / f, f, x % f, k);
    QuotientIs(x * k, k * f, x / f, x % f * k);
  }

  lemma Scaled(q: int, f: int, r: int, k: int)
    requires 0 <= r < f && k > 0
    ensures (q * f + r) * k == q * (k * f) + r * k
    ensures 0 <= r * k < k * f
  {
    assert (q * f + r) * k == q * f * k + r * k;
    assert q * f * k == q * (k * f);
    AtLeast(f - r, k);
    assert (f - r) * k == f * k - r * k;
  }

  lemma QuotientIs(x: int, d: int, q: int, r: int)
    requires d > 0 && x == q * d + r && 0 <= r < d
    ensures x / d == q
  {
    OneDivision(x / d, x % d, q, r, d);
  }

  lemma OneDivision(y: int, s: int, q: int, r: int, d: int)
    requires y * d + s == q * d + r && 0 <= s < d && 0 <= r < d
    ensures y == q
  {
    assert (y - q) * d == r - s;
    assert (q - y) * d == s - r;
    if y > q {
      AtLeast(y - q, d);
    } else if y < q {
      AtLeast(q - y, d);
    }
  }

  lemma AtLeast(k: int, d: int)
    requires k >= 1 && d > 0
    ensures k * d >= d
  {
  }

  lemma ExactQuotient(v: nat, p: nat, f: nat)
    requires f > 0
    ensures (v * (p * f)) / f == v * p
  {
    assert v * (p * f) == (v * p) * f + 0;
    QuotientIs(v * (p * f), f, v * p, 0);
  }

  // Millionths of v units of 10^-places, held as v * 10^(decimals - places) atomic units.
  lemma MicrosOf(v: nat, places: nat, decimals: nat, m: nat)
    requires places <= decimals
    ensures v * Pow10(decimals - places) * Pow10(m) / Pow10(decimals) == v * Pow10(m) / Pow10(places)
    ensures places <= m ==> v * Pow10(decimals - places) * Pow10(m) / Pow10(decimals) == v * Pow10(m - places)
  {
    Pow10Adds(decimals - places, places);
    CancelInQuotient(v * Pow10(m), Pow10(places), Pow10(decimals - places));
    Swap(v, Pow10(decimals - places), Pow10(m));
    if places <= m {
      Pow10Adds(m - places, places);
      ExactQuotient(v, Pow10(m - places), Pow10(places));
    }
  }

  // The asking price in millionths is the price itself, rounded down to millionths: the same number on every
  // rail, and exactly the price where it has no more than six fraction digits.
  lemma AskingPriceInMicros(price: string, decimals: int, whole: string, frac: string)
    requires ParsePrice(price, decimals).Ok? && Denotes(Stripped(price), whole, frac)
    ensures 0 <= decimals
    ensures Micros(ParsePrice(price, decimals).value, decimals) == Numerator(whole, frac) * Pow10(METRIC_DECIMALS) / Pow10(|frac|)
    ensures |frac| <= METRIC_DECIMALS ==>
              ParsePrice(price, METRIC_DECIMALS) == Ok(Micros(ParsePrice(price, decimals).value, decimals))
  {
    hide Stripped, ParseText, Numerator, Denotes, Pow10;
    var m: nat := METRIC_DECIMALS;
    TextInMicros(Stripped(price), decimals, whole, frac, m);
  }

  lemma TextInMicros(s: string, decimals: nat, whole: string, frac: string, m: nat)
    requires ParseText(s, decimals).Ok? && Denotes(s, whole, frac)
    ensures ParseText(s, decimals).value * Pow10(m) / Pow10(decimals) == Numerator(whole, frac) * Pow10(m) / Pow10(|frac|)
    ensures |frac| <= m ==> ParseText(s, m) == Ok(ParseText(s, decimals).value * Pow10(m) / Pow10(decimals))
  {
    hide ParseText, Numerator, Pow10;
    ParseOfNumeral(s, whole, frac, decimals);
    ParseOfNumeral(s, whole, frac, m);
    MicrosOf(Numerator(whole, frac), |frac|, decimals, m);
  }

  // So the counter measures the price, not the rail: a settlement at the asking price, whether the facilitator
  // reports the amount or leaves it out, adds what the price is worth in millionths, on any rail.
  lemma CounterIgnoresTheRail(price: string, rails: seq<Rail>, asked: map<string, nat>, i: nat, amount: string,
                              whole: string, frac: string)
    requires ValidRails(rails) && i < |rails|
    requires ParsePrice(price, rails[i].decimals).Ok?
    requires rails[i].network in asked && asked[rails[i].network] == ParsePrice(price, rails[i].decimals).value
    requires amount == "" || amount == Decimal(asked[rails[i].network])
    requires Denotes(Stripped(price), whole, frac) && |frac| <= METRIC_DECIMALS
    ensures ParsePrice(price, METRIC_DECIMALS).Ok?
    ensures Counted(amount, rails[i].network, asked, rails)
            == if ParsePrice(price, METRIC_DECIMALS).value < UINT64 then ParsePrice(price, METRIC_DECIMALS).value else 0
  {
    hide Stripped, ParsePrice, Numerator, Denotes, Micros, DecimalsOf, SetString, Decimal;
    DecimalsOfRail(rails, i);
    AskingPriceInMicros(price, rails[i].decimals, whole, frac);
    SetStringOfDecimal(asked[rails[i].network]);
    NoNumeral();
  }

  lemma NoNumeral()
    ensures SetString("", 10) == None
  {
  }
}
