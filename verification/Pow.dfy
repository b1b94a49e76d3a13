/** Proof of work as a comparison of 256-bit numbers, on the server and in the browser.
    (internal/challenge/challenge.go, internal/gate/assets/core.js) */
module Pow {
  import opened Wrappers
  import Text

  type byte = x: int | 0 <= x < 256

  const WORD_LEN := 32

  type Word = w: seq<byte> | |w| == WORD_LEN witness seq(WORD_LEN, _ => 0)

  // ---------------------------------------------------------------------------
  // Big-endian numbers
  // ---------------------------------------------------------------------------

  function Number(b: seq<byte>): nat {
    if b == [] then 0 else 256 * Number(b[..|b| - 1]) + b[|b| - 1]
  }

  function Bytes(n: nat, width: nat): (b: seq<byte>)
    ensures |b| == width
  {
    if width == 0 then [] else Bytes(n / 256, width - 1) + [n % 256]
  }

  function Pow2(n: nat): (p: nat)
    ensures p >= 1
  {
    if n == 0 then 1 else 2 * Pow2(n - 1)
  }

  lemma {:induction false} Pow2Adds(m: nat, n: nat)
    ensures Pow2(m + n) == Pow2(m) * Pow2(n)
  {
    if m > 0 {
      Pow2Adds(m - 1, n);
    }
  }

  lemma Pow2Byte(n: nat)
    ensures Pow2(n + 8) == 256 * Pow2(n)
  {
    assert Pow2(8) == 256 by {
      assert Pow2(4) == 16;
      Pow2Adds(4, 4);
    }
    Pow2Adds(n, 8);
  }

  lemma {:induction false} NumberBelow(b: seq<byte>)
    ensures Number(b) < Pow2(8 * |b|)
  {
    if b != [] {
      NumberBelow(b[..|b| - 1]);
      Pow2Byte(8 * (|b| - 1));
    }
  }

  lemma {:induction false} NumberOfBytes(n: nat, width: nat)
    ensures n < Pow2(8 * width) ==> Number(Bytes(n, width)) == n
  {
    if width > 0 {
      NumberOfBytes(n / 256, width - 1);
      Pow2Byte(8 * (width - 1));
      assert Bytes(n, width)[..width - 1] == Bytes(n / 256, width - 1);
    }
  }

  lemma {:induction false} BytesOfNumber(b: seq<byte>)
    ensures Bytes(Number(b), |b|) == b
  {
    if b != [] {
      BytesOfNumber(b[..|b| - 1]);
      assert Number(b) / 256 == Number(b[..|b| - 1]) && Number(b) % 256 == b[|b| - 1];
      assert b == b[..|b| - 1] + [b[|b| - 1]];
    }
  }

  // The first difference decides.
  lemma {:induction false} FirstDifference(a: seq<byte>, b: seq<byte>, j: nat)
    requires |a| == |b| && j < |a| && a[..j] == b[..j] && a[j] < b[j]
    ensures Number(a) < Number(b)
  {
    var n := |a| - 1;
    if j == n {
    } else {
      assert a[..n][..j] == a[..j] && b[..n][..j] == b[..j];
      FirstDifference(a[..n], b[..n], j);
    }
  }

  // ---------------------------------------------------------------------------
  // The check
  // ---------------------------------------------------------------------------

  // A work proof is accepted exactly when the hash, as a number, is below the threshold.
  method CheckPoW(h: Word, threshold: Word) returns (ok: bool)
    ensures ok <==> Number(h) < Number(threshold)
  {
    var j := 0;
    while j < |h|
      invariant 0 <= j <= |h| && h[..j] == threshold[..j]
    {
      if h[j] < threshold[j] {
        FirstDifference(h, threshold, j);
        return true;
      }
      if h[j] > threshold[j] {
        FirstDifference(threshold, h, j);
        return false;
      }
      assert h[..j + 1] == h[..j] + [h[j]] && threshold[..j + 1] == threshold[..j] + [threshold[j]];
      j := j + 1;
    }
    assert h[..|h|] == h && threshold[..|h|] == threshold;
    return false;
  }

  // The browser's comparison, on byte arrays of one length.
  method LessThan(a: array<byte>, b: array<byte>) returns (less: bool)
    requires a.Length == b.Length
    ensures less <==> Number(a[..]) < Number(b[..])
  {
    var i := 0;
    while i < a.Length
      invariant 0 <= i <= a.Length && a[..i] == b[..i]
    {
      if a[i] != b[i] {
        if a[i] < b[i] {
          assert a[..][..i] == a[..i] && b[..][..i] == b[..i];
          FirstDifference(a[..], b[..], i);
        } else {
          assert a[..][..i] == a[..i] && b[..][..i] == b[..i];
          FirstDifference(b[..], a[..], i);
        }
        return a[i] < b[i];
      }
      assert a[..i + 1] == a[..i] + [a[i]] && b[..i + 1] == b[..i] + [b[i]];
      i := i + 1;
    }
    assert a[..a.Length] == a[..] && b[..a.Length] == b[..];
    return false;
  }

  // ---------------------------------------------------------------------------
  // Thresholds of whole difficulties
  // ---------------------------------------------------------------------------

  // What a threshold stands for: 2^(256-d), or the largest word where that does not fit.
  function Target(d: nat): nat
    requires d <= 255
  {
    if d == 0 then Pow2(256) - 1 else Pow2(256 - d)
  }

  method Threshold(d: int) returns (r: Result<Word, string>)
    ensures r.Ok? <==> 0 <= d <= 255
    ensures r.Ok? ==> Number(r.value) == Target(d)
  {
    if d < 0 || d > 255 {
      return Err("difficulty out of range [0, 255]");
    }
    var t := new byte[WORD_LEN](_ => 0);
    if d == 0 {
      var j := 0;
      while j < t.Length
        invariant 0 <= j <= t.Length && forall k :: 0 <= k < j ==> t[k] == 0xff
      {
        t[j] := 0xff;
        j := j + 1;
      }
      AllOnes(t[..]);
      return Ok(t[..]);
    }
    FillBytes(t, Pow2(256 - d));
    Pow2Grows(256 - d, 8 * WORD_LEN);
    NumberOfBytes(Pow2(256 - d), WORD_LEN);
    return Ok(t[..]);
  }

  method FillBytes(t: array<byte>, n: nat)
    modifies t
    ensures t[..] == Bytes(n, t.Length)
  {
    var j, rest := t.Length, n;
    while j > 0
      invariant 0 <= j <= t.Length && Bytes(rest, j) + t[j..] == Bytes(n, t.Length)
    {
      j := j - 1;
      t[j] := rest % 256;
      assert Bytes(rest, j + 1) == Bytes(rest / 256, j) + [rest % 256];
      assert t[j..] == [rest % 256] + t[j + 1..];
      rest := rest / 256;
    }
  }

  lemma {:induction false} AllOnes(b: seq<byte>)
    requires forall k :: 0 <= k < |b| ==> b[k] == 0xff
    ensures Number(b) == Pow2(8 * |b|) - 1
  {
    if b != [] {
      AllOnes(b[..|b| - 1]);
      Pow2Byte(8 * (|b| - 1));
    }
  }

  lemma {:induction false} Pow2Grows(m: nat, n: nat)
    requires m < n
    ensures Pow2(m) < Pow2(n)
  {
    if m + 1 < n {
      Pow2Grows(m, n - 1);
    }
  }

  // Bit i of a byte and of a word, the most significant first.
  function ByteBit(x: byte, i: nat): int
    requires i < 8
  {
    x / Pow2(7 - i) % 2
  }

  function Bit(b: seq<byte>, i: nat): int
    requires i < 8 * |b|
  {
    ByteBit(b[i / 8], i % 8)
  }

  predicate LeadingZeros(b: seq<byte>, d: nat)
    requires d <= 8 * |b|
  {
    forall i :: 0 <= i < d ==> Bit(b, i) == 0
  }

  lemma {:induction false} NumberFromFront(b: seq<byte>)
    requires b != []
    ensures Number(b) == b[0] * Pow2(8 * (|b| - 1)) + Number(b[1..])
  {
    var n := |b| - 1;
    if n > 0 {
      NumberFromFront(b[..n]);
      assert b[..n][1..] == b[1..][..n - 1];
      Pow2Byte(8 * (n - 1));
      Shifted(b[0], Pow2(8 * (n - 1)), Pow2(8 * n), Number(b[1..][..n - 1]), b[n]);
    } else {
      assert b[..0] == [] && b[1..] == [];
    }
  }

  lemma Shifted(x: int, p: int, q: int, m: int, y: int)
    requires q == 256 * p
    ensures 256 * (x * p + m) + y == x * q + (256 * m + y)
  {
    assert 256 * (x * p) == x * (256 * p);
  }

  lemma {:induction false} ByteLeadingZeros(x: byte, d: nat)
    requires d <= 8
    ensures x < Pow2(8 - d) <==> forall i :: 0 <= i < d ==> ByteBit(x, i) == 0
  {
    if d > 0 {
      ByteLeadingZeros(x, d - 1);
      HalfStep(x, Pow2(8 - d));
      assert Pow2(9 - d) == 2 * Pow2(8 - d);
      assert ByteBit(x, d - 1) == x / Pow2(8 - d) % 2;
    } else {
      assert Pow2(8) == 2 * Pow2(7) && Pow2(7) == 128 by {
        assert Pow2(3) == 8;
        Pow2Adds(3, 4);
      }
    }
  }

  lemma HalfStep(x: nat, p: nat)
    requires p > 0
    ensures x < p <==> x < 2 * p && x / p % 2 == 0
  {
    if x < p {
      assert x / p == 0;
    } else if x < 2 * p {
      assert x / p == 1 by {
        assert x == 1 * p + (x - p);
      }
    }
  }

  // Difficulty d asks for d leading zero bits.
  lemma {:induction false} DifficultyIsLeadingZeros(b: seq<byte>, d: nat)
    requires d <= 8 * |b|
    ensures Number(b) < Pow2(8 * |b| - d) <==> LeadingZeros(b, d)
  {
    if b != [] {
      if d <= 8 {
        WithinFirstByte(b, d);
      } else {
        hide LeadingZeros, Number;
        DifficultyIsLeadingZeros(b[1..], d - 8);
        WithinFirstByte(b, 8);
        LaterBits(b, d);
        PastFirstByte(b, d);
      }
    }
  }

  lemma PastFirstByte(b: seq<byte>, d: nat)
    requires b != [] && 8 < d <= 8 * |b|
    ensures Number(b) < Pow2(8 * |b| - d) <==> Number(b) < Pow2(8 * |b| - 8) && Number(b[1..]) < Pow2(8 * |b| - d)
  {
    hide Number;
    var p := Pow2(8 * |b[1..]|);
    NumberFromFront(b);
    NumberBelow(b[1..]);
    Pow2Grows(8 * |b| - d, 8 * |b| - 8);
    TopPart(b[0], 1, p, Number(b[1..]));
  }

  lemma WithinFirstByte(b: seq<byte>, d: nat)
    requires b != [] && d <= 8
    ensures Number(b) < Pow2(8 * |b| - d) <==> LeadingZeros(b, d)
  {
    var low := 8 * |b[1..]|;
    NumberFromFront(b);
    NumberBelow(b[1..]);
    Pow2Adds(8 - d, low);
    TopPart(b[0], Pow2(8 - d), Pow2(low), Number(b[1..]));
    ByteLeadingZeros(b[0], d);
    FrontBits(b, d);
  }

  lemma FrontBits(b: seq<byte>, d: nat)
    requires b != [] && d <= 8
    ensures LeadingZeros(b, d) <==> forall i :: 0 <= i < d ==> ByteBit(b[0], i) == 0
  {
    assert forall i :: 0 <= i < d && i < 8 ==> Bit(b, i) == ByteBit(b[0], i);
  }

  lemma LaterBits(b: seq<byte>, d: nat)
    requires b != [] && 8 <= d <= 8 * |b|
    ensures LeadingZeros(b, d) <==> LeadingZeros(b, 8) && LeadingZeros(b[1..], d - 8)
  {
    forall i | 0 <= i < d - 8 ensures Bit(b, i + 8) == Bit(b[1..], i) {
      assert (i + 8) / 8 == i / 8 + 1;
    }
    if LeadingZeros(b, 8) && LeadingZeros(b[1..], d - 8) {
      forall i | 0 <= i < d ensures Bit(b, i) == 0 {
        if i >= 8 {
          assert Bit(b[1..], i - 8) == 0;
          assert Bit(b, (i - 8) + 8) == Bit(b[1..], i - 8);
        }
      }
    }
  }

  lemma TopPart(x: nat, k: nat, p: nat, low: nat)
    requires low < p
    ensures x * p + low < k * p <==> x < k
  {
    if x < k {
      assert (x + 1) * p <= k * p;
    } else {
      assert k * p <= x * p;
    }
  }

  // The whole range of whole difficulties: at least one bit asks for that many leading zeros; difficulty 0,
  // described as accepting any hash, refuses exactly the hash of all ones.
  lemma AcceptedHashes(h: Word, d: nat)
    requires d <= 255
    ensures d > 0 ==> (Number(h) < Target(d) <==> LeadingZeros(h, d))
    ensures d == 0 ==> (Number(h) < Target(d) <==> h != seq(WORD_LEN, _ => 0xff))
  {
    DifficultyIsLeadingZeros(h, d);
    var ones: seq<byte> := seq(WORD_LEN, _ => 0xff);
    AllOnes(ones);
    NumberBelow(h);
    if Number(h) == Number(ones) {
      BytesOfNumber(h);
      BytesOfNumber(ones);
    }
  }

  // ---------------------------------------------------------------------------
  // The browser's side
  // ---------------------------------------------------------------------------

  predicate IsHex(c: char) {
    Text.DigitValue(c) < 16
  }

  // hex.EncodeToString
  function EncodeHex(b: seq<byte>): (s: string)
    ensures |s| == 2 * |b|
    ensures forall i :: 0 <= i < |b| ==> ParseByte(s[2 * i], s[2 * i + 1]) == b[i]
  {
    if b == [] then ""
    else EncodeHex(b[..|b| - 1]) + [Text.HexChar(b[|b| - 1] / 16, false), Text.HexChar(b[|b| - 1] % 16, false)]
  }

  predicate IsScriptSpace(c: char) {
    (Text.IsSpace(c) && c != 0x85 as char) || c == 0xFEFF as char
  }

  // parseInt(ab, 16) as an unsigned byte: space and a sign are skipped, a bad second digit ends the number,
  // and what is no number is stored as 0. The prefix 0x leaves none.
  function ParseByte(a: char, b: char): byte {
    if IsHex(a) then
      if IsHex(b) then 16 * Text.DigitValue(a) + Text.DigitValue(b) else Text.DigitValue(a)
    else if !IsHex(b) then 0
    else if a == '-' then (256 - Text.DigitValue(b)) % 256
    else if a == '+' || IsScriptSpace(a) then Text.DigitValue(b)
    else 0
  }

  method HexToBytes(hex: string) returns (out: array<byte>)
    ensures fresh(out) && out.Length == |hex| / 2
    ensures forall i :: 0 <= i < out.Length ==> out[i] == ParseByte(hex[2 * i], hex[2 * i + 1])
    ensures forall b :: hex == EncodeHex(b) ==> out[..] == b
  {
    hide ParseByte;
    out := new byte[|hex| / 2];
    var i := 0;
    while i < out.Length
      invariant 0 <= i <= out.Length
      invariant forall k :: 0 <= k < i ==> out[k] == ParseByte(hex[2 * k], hex[2 * k + 1])
    {
      out[i] := ParseByte(hex[2 * i], hex[2 * i + 1]);
      i := i + 1;
    }
    forall b | hex == EncodeHex(b) ensures out[..] == b {
      assert forall k :: 0 <= k < |b| ==> out[k] == b[k];
    }
  }

  // Whether the server accepts nonce n for this challenge.
  predicate Works(sha256: string -> Word, challenge: string, threshold: Word, n: nat) {
    Number(sha256(challenge + Text.Decimal(n))) < Number(threshold)
  }

  method Attempt(sha256: string -> Word, challenge: string, threshold: Word, target: array<byte>, n: nat) returns (less: bool)
    requires target[..] == threshold
    ensures less <==> Works(sha256, challenge, threshold, n)
  {
    var digest := sha256(challenge + Text.Decimal(n));
    var a := new byte[WORD_LEN](i requires 0 <= i < WORD_LEN => digest[i]);
    assert a[..] == digest;
    less := LessThan(a, target);
  }

  // The attempts at which the page gets a turn.
  predicate IsTick(n: nat, webCrypto: bool) {
    n % (if webCrypto then 1024 else 128) == 0
  }

  function NextTick(n: nat, webCrypto: bool): (t: nat)
    ensures t >= n && IsTick(t, webCrypto)
  {
    if webCrypto then (n + 1023) / 1024 * 1024 else (n + 127) / 128 * 128
  }

  ghost predicate Misses(sha256: string -> Word, challenge: string, threshold: Word, n: nat) {
    forall m: nat :: m < n ==> !Works(sha256, challenge, threshold, m)
  }

  // The browser counts up until a nonce works, and returns the first that does: one the server accepts for the
  // same challenge and threshold. The page may abandon the round at a tick; it does so from attempt `quit` on,
  // when the advertised deadline has passed, so it gives up only after that many misses. Left to itself the
  // search ends when there is a nonce to find.
  method Solve(sha256: string -> Word, challenge: string, threshold: Word, webCrypto: bool, quit: Option<nat>)
      returns (nonce: Option<nat>)
    requires quit.Some? || exists n: nat :: Works(sha256, challenge, threshold, n)
    ensures nonce.Some? ==> Works(sha256, challenge, threshold, nonce.value) && Misses(sha256, challenge, threshold, nonce.value)
    ensures nonce.None? ==> quit.Some? && Misses(sha256, challenge, threshold, quit.value + 1)
  {
    hide Works, IsTick, NextTick;
    var target := HexToBytes(EncodeHex(threshold));
    assert target[..] == threshold;
    ghost var stop: nat;
    if quit.Some? {
      stop := NextTick(quit.value, webCrypto);
    } else {
      stop :| Works(sha256, challenge, threshold, stop);
    }
    var n: nat := 0;
    while true
      invariant Misses(sha256, challenge, threshold, n)
      invariant n <= stop && target[..] == threshold
      decreases stop - n
    {
      var less := Attempt(sha256, challenge, threshold, target, n);
      if less {
        return Some(n);
      }
      if quit.Some? && IsTick(n, webCrypto) && n >= quit.value {
        return None;
      }
      n := n + 1;
    }
  }
}
