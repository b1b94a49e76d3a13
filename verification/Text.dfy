/** The parts of Go's strings package the gate relies on, over sequences of characters.
    Case folding is ASCII; white space is Go's unicode.IsSpace. */
module Text {
  import opened Wrappers

  predicate IsSpace(c: char) {
    || '\t' <= c <= '\r' || c == ' ' || c == 0x85 as char || c == 0xA0 as char || c == 0x1680 as char
    || 0x2000 as char <= c <= 0x200A as char || c == 0x2028 as char || c == 0x2029 as char
    || c == 0x202F as char || c == 0x205F as char || c == 0x3000 as char
  }

  function LowerChar(c: char): char {
    if 'A' <= c <= 'Z' then (c as int + 32) as char else c
  }

  function ToLower(s: string): (t: string)
    ensures |t| == |s| && forall i :: 0 <= i < |s| ==> t[i] == LowerChar(s[i])
  {
    seq(|s|, i requires 0 <= i < |s| => LowerChar(s[i]))
  }

  predicate EqualFold(a: string, b: string) {
    ToLower(a) == ToLower(b)
  }

  lemma LowerOfConcat(a: string, b: string)
    ensures ToLower(a + b) == ToLower(a) + ToLower(b)
  {
  }

  // ---------------------------------------------------------------------------
  // Trimming
  // ---------------------------------------------------------------------------

  function TrimLeft(s: string, cut: char -> bool): string {
    if s != [] && cut(s[0]) then TrimLeft(s[1..], cut) else s
  }

  function TrimRight(s: string, cut: char -> bool): string {
    if s != [] && cut(s[|s| - 1]) then TrimRight(s[..|s| - 1], cut) else s
  }

  // A maximal run of cut characters goes, and nothing else.
  predicate AllCut(s: string, from: int, to: int, cut: char -> bool)
    requires 0 <= from <= to <= |s|
  {
    forall i :: from <= i < to ==> cut(s[i])
  }

  lemma {:induction false} TrimLeftTakes(s: string, cut: char -> bool)
    ensures var t := TrimLeft(s, cut);
            && |t| <= |s| && t == s[|s| - |t|..]
            && (t == [] || !cut(t[0]))
            && AllCut(s, 0, |s| - |t|, cut)
  {
    if s != [] && cut(s[0]) {
      var rest := s[1..];
      TrimLeftTakes(rest, cut);
      var t := TrimLeft(rest, cut);
      assert s[|s| - |t|..] == rest[|rest| - |t|..];
      forall i | 0 <= i < |s| - |t| ensures cut(s[i]) {
        if i > 0 {
          assert rest[i - 1] == s[i];
        }
      }
    }
  }

  lemma {:induction false} TrimRightTakes(s: string, cut: char -> bool)
    ensures var t := TrimRight(s, cut);
            && t <= s
            && (t == [] || !cut(t[|t| - 1]))
            && AllCut(s, |t|, |s|, cut)
  {
    if s != [] && cut(s[|s| - 1]) {
      var front := s[..|s| - 1];
      TrimRightTakes(front, cut);
      var t := TrimRight(front, cut);
      forall i | |t| <= i < |s| ensures cut(s[i]) {
        if i < |s| - 1 {
          assert front[i] == s[i];
        }
      }
    }
  }

  function TrimSpace(s: string): string {
    TrimRight(TrimLeft(s, IsSpace), IsSpace)
  }

  // ---------------------------------------------------------------------------
  // Splitting and joining
  // ---------------------------------------------------------------------------

  function Split(s: string, sep: char): (parts: seq<string>)
    ensures |parts| >= 1
  {
    if s == [] then [""]
    else
      var rest := Split(s[1..], sep);
      if s[0] == sep then [""] + rest else [[s[0]] + rest[0]] + rest[1..]
  }

  function Join(parts: seq<string>, sep: char): string {
    if parts == [] then ""
    else if |parts| == 1 then parts[0]
    else parts[0] + [sep] + Join(parts[1..], sep)
  }

  lemma {:induction false} SplitNoSeparator(s: string, sep: char)
    ensures forall i :: 0 <= i < |Split(s, sep)| ==> sep !in Split(s, sep)[i]
  {
    if s != [] {
      SplitNoSeparator(s[1..], sep);
    }
  }

  lemma {:induction false} SplitAtSeparator(a: string, rest: string, sep: char)
    requires sep !in a
    ensures Split(a + [sep] + rest, sep) == [a] + Split(rest, sep)
    ensures Split(a, sep) == [a]
  {
    if a == [] {
      assert a + [sep] + rest == [sep] + rest;
    } else {
      SplitAtSeparator(a[1..], rest, sep);
      assert (a + [sep] + rest)[1..] == a[1..] + [sep] + rest;
      assert [a[0]] + a[1..] == a;
    }
  }

  lemma {:induction false} JoinOfSplit(s: string, sep: char)
    ensures Join(Split(s, sep), sep) == s
  {
    if s != [] {
      JoinOfSplit(s[1..], sep);
      JoinOfStep(s[0], Split(s[1..], sep), sep);
      assert [s[0]] + s[1..] == s;
    }
  }

  lemma JoinOfStep(c: char, rest: seq<string>, sep: char)
    requires |rest| >= 1
    ensures Join(if c == sep then [""] + rest else [[c] + rest[0]] + rest[1..], sep) == [c] + Join(rest, sep)
  {
    if c == sep {
      assert ([""] + rest)[1..] == rest;
    } else if |rest| > 1 {
      assert ([[c] + rest[0]] + rest[1..])[1..] == rest[1..];
    }
  }

  lemma {:induction false} SplitOfJoin(parts: seq<string>, sep: char)
    requires parts != [] && forall i :: 0 <= i < |parts| ==> sep !in parts[i]
    ensures Split(Join(parts, sep), sep) == parts
  {
    if |parts| == 1 {
      SplitAtSeparator(parts[0], "", sep);
    } else {
      SplitOfJoin(parts[1..], sep);
      SplitAtSeparator(parts[0], Join(parts[1..], sep), sep);
    }
  }

  // ---------------------------------------------------------------------------
  // Fields
  // ---------------------------------------------------------------------------

  function WordLength(s: string): (n: nat)
    ensures n <= |s|
  {
    if s == [] || IsSpace(s[0]) then 0 else 1 + WordLength(s[1..])
  }

  lemma {:induction false} WordLengthTakes(s: string)
    ensures var n := WordLength(s);
            && (n < |s| ==> IsSpace(s[n]))
            && forall i :: 0 <= i < n ==> !IsSpace(s[i])
  {
    if s != [] && !IsSpace(s[0]) {
      WordLengthTakes(s[1..]);
    }
  }

  // The maximal runs of non-space characters.
  function Fields(s: string): seq<string>
    decreases |s|
  {
    if s == [] then []
    else if IsSpace(s[0]) then Fields(s[1..])
    else [s[..WordLength(s)]] + Fields(s[WordLength(s)..])
  }

  predicate IsWord(w: string) {
    w != [] && forall i :: 0 <= i < |w| ==> !IsSpace(w[i])
  }

  lemma {:induction false} WordLengthIs(s: string, n: nat)
    requires n <= |s| && (forall i :: 0 <= i < n ==> !IsSpace(s[i])) && (n < |s| ==> IsSpace(s[n]))
    ensures WordLength(s) == n
  {
    if n > 0 {
      WordLengthIs(s[1..], n - 1);
    }
  }

  lemma {:induction false} FieldsAcrossSpace(a: string, space: char, b: string)
    requires IsSpace(space)
    ensures Fields(a + [space] + b) == Fields(a) + Fields(b)
    decreases |a|
  {
    hide Fields, IsSpace, WordLength;
    if a == [] {
      FieldsPastSpace(space, b);
    } else if IsSpace(a[0]) {
      FieldsAcrossSpace(a[1..], space, b);
      FieldsPastSpace(a[0], a[1..]);
      FieldsPastSpace(a[0], a[1..] + [space] + b);
      assert a == [a[0]] + a[1..];
      assert a + [space] + b == [a[0]] + (a[1..] + [space] + b);
    } else {
      FirstWord(a, space, b);
      FieldsAcrossSpace(a[WordLength(a)..], space, b);
    }
  }

  lemma FieldsPastSpace(space: char, b: string)
    requires IsSpace(space)
    ensures Fields([space] + b) == Fields(b) && Fields([]) == []
    ensures [] + [space] + b == [space] + b
  {
    assert ([space] + b)[1..] == b;
  }

  lemma FirstWord(a: string, space: char, b: string)
    requires IsSpace(space) && a != [] && !IsSpace(a[0])
    ensures var all, n := a + [space] + b, WordLength(a);
            && Fields(all) == [a[..n]] + Fields(a[n..] + [space] + b)
            && Fields(a) == [a[..n]] + Fields(a[n..])
            && n > 0
  {
    var all, n := a + [space] + b, WordLength(a);
    WordLengthTakes(a);
    WordLengthIs(all, n);
    assert all[n..] == a[n..] + [space] + b;
    assert all[..n] == a[..n] && all[0] == a[0];
  }

  lemma {:induction false} FieldsOfSpaces(s: string)
    requires forall i :: 0 <= i < |s| ==> IsSpace(s[i])
    ensures Fields(s) == []
  {
    if s != [] {
      FieldsOfSpaces(s[1..]);
    }
  }

  lemma FieldsOfWord(w: string)
    requires IsWord(w)
    ensures Fields(w) == [w]
  {
    WordLengthIs(w, |w|);
    assert w[..|w|] == w;
  }

  // Dropping trailing blanks changes no field.
  lemma FieldsOfTrimRight(s: string, cut: char -> bool)
    requires forall c :: cut(c) ==> IsSpace(c)
    ensures Fields(TrimRight(s, cut)) == Fields(s)
  {
    TrimRightTakes(s, cut);
    var t := TrimRight(s, cut);
    if |t| < |s| {
      assert s == t + [s[|t|]] + s[|t| + 1..];
      FieldsAcrossSpace(t, s[|t|], s[|t| + 1..]);
      FieldsOfSpaces(s[|t| + 1..]);
    }
  }

  lemma {:induction false} FieldsAreWords(s: string)
    ensures forall i :: 0 <= i < |Fields(s)| ==> IsWord(Fields(s)[i])
    decreases |s|
  {
    if s != [] {
      if IsSpace(s[0]) {
        FieldsAreWords(s[1..]);
      } else {
        WordLengthTakes(s);
        FieldsAreWords(s[WordLength(s)..]);
      }
    }
  }

  // ---------------------------------------------------------------------------
  // Numerals
  // ---------------------------------------------------------------------------

  predicate IsDigit(c: char) {
    '0' <= c <= '9'
  }

  predicate AllDigits(s: string) {
    forall i :: 0 <= i < |s| ==> IsDigit(s[i])
  }

  // The number a string of decimal digits denotes.
  function Value(s: string): nat
    requires AllDigits(s)
  {
    if s == [] then 0 else 10 * Value(s[..|s| - 1]) + (s[|s| - 1] as int - '0' as int)
  }

  function Pow10(n: nat): (p: nat)
    ensures p >= 1
  {
    if n == 0 then 1 else 10 * Pow10(n - 1)
  }

  lemma {:induction false} Pow10Adds(a: nat, b: nat)
    ensures Pow10(a + b) == Pow10(a) * Pow10(b)
  {
    if a > 0 {
      Pow10Adds(a - 1, b);
    }
  }

  lemma ShiftDigit(high: nat, p: nat, low: nat, d: nat)
    ensures 10 * (high * p + low) + d == high * (10 * p) + (10 * low + d)
  {
  }

  lemma {:induction false} ValueOfConcat(a: string, b: string)
    requires AllDigits(a) && AllDigits(b)
    ensures AllDigits(a + b) && Value(a + b) == Value(a) * Pow10(|b|) + Value(b)
  {
    if b == [] {
      assert a + b == a;
    } else {
      var front, last := b[..|b| - 1], b[|b| - 1];
      ValueOfConcat(a, front);
      ValueSnoc(a + front, last);
      ValueSnoc(front, last);
      assert front + [last] == b && (a + front) + [last] == a + b;
      ShiftDigit(Value(a), Pow10(|front|), Value(front), last as int - '0' as int);
    }
  }

  lemma ValueSnoc(s: string, c: char)
    requires AllDigits(s) && IsDigit(c)
    ensures AllDigits(s + [c]) && Value(s + [c]) == 10 * Value(s) + (c as int - '0' as int)
  {
    assert (s + [c])[..|s|] == s;
  }

  function DigitChar(d: nat): (c: char)
    requires d < 10
    ensures IsDigit(c) && c as int - '0' as int == d
  {
    ('0' as int + d) as char
  }

  // The canonical decimal numeral of n: no sign, no leading zeros.
  function Decimal(n: nat): (s: string)
    ensures s != [] && AllDigits(s) && Value(s) == n
  {
    if n < 10 then [DigitChar(n)]
    else
      var front := Decimal(n / 10);
      assert (front + [DigitChar(n % 10)])[..|front|] == front;
      front + [DigitChar(n % 10)]
  }

  // ---------------------------------------------------------------------------
  // Numerals in any base
  // ---------------------------------------------------------------------------

  // The value of one digit, letters in either case; 36 for anything else.
  function DigitValue(c: char): nat {
    if IsDigit(c) then c as int - '0' as int
    else if 'a' <= c <= 'z' then c as int - 'a' as int + 10
    else if 'A' <= c <= 'Z' then c as int - 'A' as int + 10
    else 36
  }

  predicate DigitsIn(s: string, base: nat) {
    forall i :: 0 <= i < |s| ==> DigitValue(s[i]) < base
  }

  function ValueIn(s: string, base: nat): nat {
    if s == [] then 0 else base * ValueIn(s[..|s| - 1], base) + DigitValue(s[|s| - 1])
  }

  // big.Int.SetString in a fixed base: an optional sign, then at least one digit.
  function SetString(t: string, base: nat): Option<int> {
    var signed := t != [] && (t[0] == '-' || t[0] == '+');
    var digits := if signed then t[1..] else t;
    if digits == [] || !DigitsIn(digits, base) then None
    else Some(if signed && t[0] == '-' then -(ValueIn(digits, base) as int) else ValueIn(digits, base))
  }

  function HexChar(d: nat, upper: bool): (c: char)
    requires d < 16
    ensures DigitValue(c) == d && !IsSpace(c)
  {
    if d < 10 then DigitChar(d)
    else if upper then ('A' as int + d - 10) as char
    else ('a' as int + d - 10) as char
  }

  lemma {:induction false} DecimalValueIn(s: string)
    requires AllDigits(s)
    ensures DigitsIn(s, 10) && ValueIn(s, 10) == Value(s)
  {
    if s != [] {
      DecimalValueIn(s[..|s| - 1]);
    }
  }

  lemma UnsignedDigits(digits: string, base: nat)
    requires base <= 36 && digits != [] && DigitsIn(digits, base)
    ensures SetString(digits, base) == Some(ValueIn(digits, base))
    ensures !IsSpace(digits[0]) && !IsSpace(digits[|digits| - 1])
  {
    assert DigitValue(digits[0]) < base && DigitValue(digits[|digits| - 1]) < base;
  }

  lemma SetStringOfDecimal(n: nat)
    ensures SetString(Decimal(n), 10) == Some(n)
  {
    DecimalValueIn(Decimal(n));
    UnsignedDigits(Decimal(n), 10);
  }

  // ---------------------------------------------------------------------------
  // Order
  // ---------------------------------------------------------------------------

  // Go's < on strings.
  predicate Less(a: string, b: string) {
    if b == [] then false
    else if a == [] then true
    else a[0] < b[0] || (a[0] == b[0] && Less(a[1..], b[1..]))
  }

  predicate AtMost(a: string, b: string) {
    a == b || Less(a, b)
  }

  lemma {:induction false} LessIsTotal(a: string, b: string)
    ensures a == b || Less(a, b) || Less(b, a)
    ensures !(Less(a, b) && Less(b, a)) && !Less(a, a)
  {
    if a != [] {
      LessIsTotal(a[1..], a[1..]);
      if b != [] {
        LessIsTotal(a[1..], b[1..]);
        assert a == [a[0]] + a[1..] && b == [b[0]] + b[1..];
      }
    }
  }

  lemma {:induction false} LessIsTransitive(a: string, b: string, c: string)
    requires Less(a, b) && Less(b, c)
    ensures Less(a, c)
  {
    if a != [] && a[0] == b[0] == c[0] {
      LessIsTransitive(a[1..], b[1..], c[1..]);
    }
  }

  predicate Sorted(ss: seq<string>) {
    forall i, j :: 0 <= i < j < |ss| ==> AtMost(ss[i], ss[j])
  }

  function InsertString(s: string, ss: seq<string>): seq<string> {
    if ss == [] || AtMost(s, ss[0]) then [s] + ss else [ss[0]] + InsertString(s, ss[1..])
  }

  // sort.Strings
  function SortStrings(ss: seq<string>): seq<string> {
    if ss == [] then [] else InsertString(ss[0], SortStrings(ss[1..]))
  }

  lemma {:induction false} InsertStringKeeps(s: string, ss: seq<string>)
    requires Sorted(ss)
    ensures multiset(InsertString(s, ss)) == multiset(ss) + multiset{s}
    ensures Sorted(InsertString(s, ss))
  {
    if ss != [] {
      assert ss == [ss[0]] + ss[1..];
      if AtMost(s, ss[0]) {
        forall j | 0 <= j < |ss| ensures AtMost(s, ss[j]) {
          if s != ss[0] && ss[0] != ss[j] {
            LessIsTransitive(s, ss[0], ss[j]);
          }
        }
      } else {
        LessIsTotal(s, ss[0]);
        InsertStringKeeps(s, ss[1..]);
        var rest := InsertString(s, ss[1..]);
        forall j | 0 <= j < |rest| ensures AtMost(ss[0], rest[j]) {
          assert rest[j] in multiset(rest);
          if rest[j] != s {
            assert rest[j] in ss[1..];
          }
        }
      }
    }
  }

  lemma {:induction false} SortStringsSorts(ss: seq<string>)
    ensures multiset(SortStrings(ss)) == multiset(ss) && Sorted(SortStrings(ss))
  {
    if ss != [] {
      SortStringsSorts(ss[1..]);
      InsertStringKeeps(ss[0], SortStrings(ss[1..]));
      assert ss == [ss[0]] + ss[1..];
    }
  }

  lemma FirstIsLeast(a: seq<string>, x: string)
    requires Sorted(a) && a != [] && x in multiset(a)
    ensures AtMost(a[0], x)
  {
  }

  lemma RestOfMultiset(a: seq<string>)
    requires a != []
    ensures multiset(a[1..]) == multiset(a) - multiset{a[0]} && a[0] in multiset(a)
  {
    assert a == [a[0]] + a[1..];
  }

  // A sorted list is determined by its elements.
  lemma {:induction false} SortedIsUnique(a: seq<string>, b: seq<string>)
    requires Sorted(a) && Sorted(b) && multiset(a) == multiset(b)
    ensures a == b
    decreases |a|
  {
    assert |a| == |multiset(a)| == |multiset(b)| == |b|;
    if a != [] {
      RestOfMultiset(a);
      RestOfMultiset(b);
      FirstIsLeast(a, b[0]);
      FirstIsLeast(b, a[0]);
      LessIsTotal(a[0], b[0]);
      SortedIsUnique(a[1..], b[1..]);
      assert a == [a[0]] + a[1..] && b == [b[0]] + b[1..];
    }
  }
}
