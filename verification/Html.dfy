/** Byte searches over a document that is still arriving. (internal/gate/inject.go, internal/gate/injector.go)
    A byte is a character below 256. Lowering is ASCII, which is bytes.ToLower on ASCII documents. */
module Html {
  import opened Wrappers
  import opened Text

  // `sub` occurs in s at k.
  predicate Occurs(s: string, sub: string, k: int) {
    0 <= k && k + |sub| <= |s| && s[k..k + |sub|] == sub
  }

  // bytes.Index from position i; -1 when there is none.
  function IndexFrom(s: string, sub: string, i: nat): (k: int)
    requires i <= |s|
    ensures k == -1 || (i <= k && k + |sub| <= |s| && Occurs(s, sub, k))
    ensures forall j :: i <= j && (k == -1 || j < k) ==> !Occurs(s, sub, j)
    decreases |s| - i
  {
    if i + |sub| > |s| then -1
    else if s[i..i + |sub|] == sub then i
    else if i == |s| then -1
    else IndexFrom(s, sub, i + 1)
  }

  // bytes.LastIndex of `sub` in s[..end].
  function LastIndexBefore(s: string, sub: string, end: nat): (k: int)
    requires end <= |s|
    ensures k == -1 || (k + |sub| <= end && Occurs(s, sub, k))
    ensures forall j :: k < j && j + |sub| <= end ==> !Occurs(s, sub, j)
    decreases end
  {
    if end < |sub| then -1
    else if s[end - |sub|..end] == sub then end - |sub|
    else if end == 0 then -1
    else LastIndexBefore(s, sub, end - 1)
  }

  lemma OccursAt(s: string, sub: string, k: int, i: nat)
    requires i < |sub| && 0 <= k && k + i < |s|
    ensures Occurs(s, sub, k) ==> s[k + i] == sub[i]
  {
    if Occurs(s, sub, k) {
      assert s[k..k + |sub|][i] == s[k + i];
    }
  }

  lemma OccursInPrefix(b: string, x: string, sub: string, k: int)
    requires k + |sub| <= |b|
    ensures Occurs(b + x, sub, k) <==> Occurs(b, sub, k)
  {
    if 0 <= k {
      assert (b + x)[k..k + |sub|] == b[k..k + |sub|];
    }
  }

  // ---------------------------------------------------------------------------
  // The opening head tag
  // ---------------------------------------------------------------------------

  predicate IsTagNameEnd(c: char) {
    c == '>' || c == ' ' || c == '\t' || c == '\r' || c == '\n' || c == '/'
  }

  // Some comment was opened before h and not closed before h.
  ghost predicate InComment(b: string, h: int) {
    exists c :: OpenedAndNotClosed(b, c, h)
  }

  ghost predicate OpenedAndNotClosed(b: string, c: int, h: int) {
    Occurs(b, "<!--", c) && c + 4 <= h && forall k :: c <= k && k + 3 <= h ==> !Occurs(b, "-->", k)
  }

  // A head tag, not one of its namesakes, outside any comment, with its name complete.
  ghost predicate RealHead(b: string, h: int) {
    Occurs(ToLower(b), "<head", h) && h + 5 < |b| && IsTagNameEnd(b[h + 5]) && !InComment(b, h)
  }

  ghost predicate FirstRealHead(b: string, h: int) {
    RealHead(b, h) && forall j :: j < h ==> !RealHead(b, j)
  }

  // p follows the first '>' at or after h.
  predicate Closes(b: string, h: int, p: int) {
    0 <= h < p <= |b| && b[p - 1] == '>' && forall k :: h <= k < p - 1 ==> b[k] != '>'
  }

  // What insertionPoint is for: just past the first real head tag, or -1 while that is not all there.
  ghost predicate IsInsertionPoint(b: string, p: int) {
    if p >= 0 then exists h :: FirstRealHead(b, h) && Closes(b, h, p)
    else p == -1 && forall h, k :: FirstRealHead(b, h) && h <= k < |b| ==> b[k] != '>'
  }

  lemma LowerKeepsSigns(b: string, sub: string, k: int)
    requires sub == "<!--" || sub == "-->"
    ensures Occurs(ToLower(b), sub, k) <==> Occurs(b, sub, k)
  {
    if 0 <= k && k + |sub| <= |b| {
      var low := ToLower(b);
      assert forall j :: 0 <= j < |sub| ==> (low[k + j] == sub[j] <==> b[k + j] == sub[j]);
      assert low[k..k + |sub|] == sub <==> forall j :: 0 <= j < |sub| ==> low[k..k + |sub|][j] == sub[j];
      assert b[k..k + |sub|] == sub <==> forall j :: 0 <= j < |sub| ==> b[k..k + |sub|][j] == sub[j];
    }
  }

  lemma HeadLetters(b: string, h: int)
    requires Occurs(ToLower(b), "<head", h)
    ensures b[h] == '<' && forall k :: h < k < h + 5 ==> b[k] != '<' && b[k] != '>'
    ensures forall k :: h < k < h + 5 ==> !Occurs(ToLower(b), "<head", k)
  {
    var low := ToLower(b);
    OccursAt(low, "<head", h, 0);
    forall k | h < k < h + 5 ensures !Occurs(low, "<head", k) && b[k] != '<' && b[k] != '>' {
      OccursAt(low, "<head", h, k - h);
      OccursAt(low, "<head", k, 0);
    }
  }

  lemma NoCloserAcross(b: string, h: int, k: int)
    requires 0 <= h < |b| && b[h] == '<' && k <= h < k + 3
    ensures !Occurs(b, "-->", k)
  {
    if 0 <= k {
      OccursAt(b, "-->", k, h - k);
    }
  }

  ghost predicate NoneBefore(b: string, i: int) {
    forall j :: j < i ==> !RealHead(b, j)
  }

  lemma NoneBeforeStart(b: string)
    ensures NoneBefore(b, 0)
  {
  }

  lemma NoneAnywhere(b: string)
    requires NoneBefore(b, |b| + 1)
    ensures IsInsertionPoint(b, -1)
  {
  }

  lemma NothingFound(b: string, i: int)
    requires NoneBefore(b, i) && forall j :: i <= j ==> !Occurs(ToLower(b), "<head", j)
    ensures IsInsertionPoint(b, -1)
  {
  }

  lemma SkipToMatch(b: string, i: int, h: int)
    requires NoneBefore(b, i) && forall j :: i <= j < h ==> !Occurs(ToLower(b), "<head", j)
    ensures NoneBefore(b, h)
  {
  }

  lemma SkipNamesake(b: string, h: int)
    requires NoneBefore(b, h) && Occurs(ToLower(b), "<head", h) && h + 5 < |b| && !IsTagNameEnd(b[h + 5])
    ensures NoneBefore(b, h + 5)
  {
    HeadLetters(b, h);
  }

  // Nothing up to the end of the comment that h is in can be a real head.
  lemma SkipComment(b: string, c: int, h: int, limit: int)
    requires NoneBefore(b, h) && OpenedAndNotClosed(b, c, h) && Occurs(ToLower(b), "<head", h)
    requires forall k :: h <= k && k + 3 <= limit ==> !Occurs(b, "-->", k)
    ensures NoneBefore(b, limit + 1)
  {
    HeadLetters(b, h);
    forall j | h <= j <= limit ensures InComment(b, j) {
      forall k | c <= k && k + 3 <= j ensures !Occurs(b, "-->", k) {
        if k < h < k + 3 {
          NoCloserAcross(b, h, k);
        }
      }
      assert OpenedAndNotClosed(b, c, j);
    }
  }

  // A match outside comments whose name is complete, or cut off by the end of what has arrived.
  lemma TagDecides(b: string, h: int, end: int)
    requires NoneBefore(b, h) && Occurs(ToLower(b), "<head", h) && !InComment(b, h)
    requires h + 5 < |b| ==> IsTagNameEnd(b[h + 5])
    requires end == -1 || (h <= end && Occurs(b, ">", end))
    requires forall j :: h <= j && (end == -1 || j < end) ==> !Occurs(b, ">", j)
    ensures end == -1 ==> IsInsertionPoint(b, -1)
    ensures end != -1 ==> IsInsertionPoint(b, end + 1)
  {
    HeadLetters(b, h);
    FirstCloser(b, h, end);
    if h + 5 < |b| {
      assert FirstRealHead(b, h);
    } else {
      assert forall k :: h <= k < |b| ==> b[k] != '>';
    }
  }

  // The search: each round starts strictly further on.
  method InsertionPoint(b: string) returns (p: int)
    ensures IsInsertionPoint(b, p)
    ensures -1 <= p <= |b|
  {
    hide IsInsertionPoint, NoneBefore, OpenedAndNotClosed, InComment, Occurs, IndexFrom, LastIndexBefore;
    var low := ToLower(b);
    var i: nat := 0;
    NoneBeforeStart(b);
    while true
      invariant i <= |b| && NoneBefore(b, i)
      decreases |b| - i
    {
      var h := IndexFrom(low, "<head", i);
      if h < 0 {
        NothingFound(b, i);
        return -1;
      }
      SkipToMatch(b, i, h);
      var after := h + 5;
      if after < |b| && !IsTagNameEnd(b[after]) {
        SkipNamesake(b, h);
        i := after;
        continue;
      }
      var c := LastIndexBefore(low, "<!--", h);
      if c >= 0 && IndexFrom(b[..h], "-->", c) < 0 {
        LowerKeepsSigns(b, "<!--", c);
        NotClosedBefore(b, c, h);
        var e := IndexFrom(b, "-->", h);
        if e < 0 {
          SkipComment(b, c, h, |b|);
          NoneAnywhere(b);
          return -1;
        }
        SkipComment(b, c, h, e + 2);
        i := e + 3;
        continue;
      }
      OutsideComments(b, c, h);
      var end := IndexFrom(b, ">", h);
      TagDecides(b, h, end);
      if end < 0 {
        return -1;
      }
      return end + 1;
    }
  }

  lemma NotClosedBefore(b: string, c: int, h: int)
    requires 0 <= c && c + 4 <= h <= |b| && Occurs(b, "<!--", c)
    requires forall j :: c <= j ==> !Occurs(b[..h], "-->", j)
    ensures OpenedAndNotClosed(b, c, h)
  {
    forall k | c <= k && k + 3 <= h ensures !Occurs(b, "-->", k) {
      assert b[..h][k..k + 3] == b[k..k + 3];
      assert !Occurs(b[..h], "-->", k);
    }
  }

  // c is the last comment opener before h; if there is none, or it is closed, h is in no comment.
  lemma OutsideComments(b: string, c: int, h: int)
    requires 0 <= h <= |b|
    requires forall j :: c < j && j + 4 <= h ==> !Occurs(ToLower(b), "<!--", j)
    requires c >= 0 ==> exists k :: c <= k && Occurs(b[..h], "-->", k)
    ensures !InComment(b, h)
  {
    if o :| OpenedAndNotClosed(b, o, h) {
      LowerKeepsSigns(b, "<!--", o);
      assert o <= c;
      var k :| c <= k && Occurs(b[..h], "-->", k);
      assert b[..h][k..k + 3] == b[k..k + 3];
      assert Occurs(b, "-->", k);
    }
  }

  lemma FirstCloser(b: string, h: nat, end: int)
    requires h < |b|
    requires end == -1 || (h <= end && Occurs(b, ">", end))
    requires forall j :: h <= j && (end == -1 || j < end) ==> !Occurs(b, ">", j)
    ensures end == -1 ==> forall k :: h <= k < |b| ==> b[k] != '>'
    ensures end != -1 ==> Closes(b, h, end + 1)
  {
    forall k | h <= k < |b| && (end == -1 || k < end) ensures b[k] != '>' {
      assert b[k..k + 1] == [b[k]];
      assert !Occurs(b, ">", k);
    }
    if end != -1 {
      assert b[end..end + 1] == [b[end]];
    }
  }

  // ---------------------------------------------------------------------------
  // A prefix decides like the whole
  // ---------------------------------------------------------------------------

  lemma CommentInPrefix(b: string, x: string, h: int)
    requires 0 <= h <= |b|
    ensures InComment(b + x, h) <==> InComment(b, h)
  {
    forall c ensures OpenedAndNotClosed(b + x, c, h) <==> OpenedAndNotClosed(b, c, h) {
      if c + 4 <= h {
        OccursInPrefix(b, x, "<!--", c);
        forall k | c <= k && k + 3 <= h ensures Occurs(b + x, "-->", k) <==> Occurs(b, "-->", k) {
          OccursInPrefix(b, x, "-->", k);
        }
      }
    }
  }

  lemma RealHeadInPrefix(b: string, x: string, h: int)
    requires h + 5 < |b|
    ensures RealHead(b + x, h) <==> RealHead(b, h)
  {
    if 0 <= h {
      LowerOfConcat(b, x);
      OccursInPrefix(ToLower(b), ToLower(x), "<head", h);
      CommentInPrefix(b, x, h);
    }
  }

  // An insertion point found in what has arrived is the insertion point of every continuation, so the
  // offset does not depend on how the document is cut into writes.
  lemma InsertionPointIsStable(b: string, x: string, p: int)
    requires IsInsertionPoint(b, p) && p >= 0
    ensures IsInsertionPoint(b + x, p)
  {
    var h :| FirstRealHead(b, h) && Closes(b, h, p);
    forall j | j <= h ensures RealHead(b + x, j) <==> RealHead(b, j) {
      RealHeadInPrefix(b, x, j);
    }
    assert FirstRealHead(b + x, h) && Closes(b + x, h, p);
  }

  lemma InsertionPointIsUnique(b: string, p: int, q: int)
    requires IsInsertionPoint(b, p) && IsInsertionPoint(b, q)
    ensures p == q
  {
    SomeOrNone(b, p);
    SomeOrNone(b, q);
    if p >= 0 && q >= 0 {
      var h :| FirstRealHead(b, h) && Closes(b, h, p);
      var j :| FirstRealHead(b, j) && Closes(b, j, q);
      assert h == j;
    }
  }

  lemma SomeOrNone(b: string, p: int)
    requires IsInsertionPoint(b, p)
    ensures p >= 0 <==> exists h, k :: FirstRealHead(b, h) && h <= k < |b| && b[k] == '>'
  {
    if p >= 0 {
      var h :| FirstRealHead(b, h) && Closes(b, h, p);
      assert b[p - 1] == '>' && h <= p - 1;
    }
  }

  // ---------------------------------------------------------------------------
  // The end of the head
  // ---------------------------------------------------------------------------

  predicate EndsHead(b: string, k: int) {
    Occurs(ToLower(b), "</head", k) || Occurs(ToLower(b), "<body", k)
  }

  function HeadEnd(b: string): (e: int)
    ensures e == -1 || (0 <= e <= |b| && EndsHead(b, e))
    ensures forall k :: e == -1 || k < e ==> !EndsHead(b, k)
  {
    var low := ToLower(b);
    var closing := IndexFrom(low, "</head", 0);
    var body := IndexFrom(low, "<body", 0);
    if closing < 0 then body
    else if body < 0 then closing
    else if closing < body then closing else body
  }

  // The same for the end of the head: once seen, its place is final.
  lemma HeadEndIsStable(b: string, x: string)
    requires HeadEnd(b) >= 0
    ensures HeadEnd(b + x) == HeadEnd(b)
  {
    var e := HeadEnd(b);
    var low, more := ToLower(b), ToLower(x);
    LowerOfConcat(b, x);
    forall sub, k | (sub == "</head" || sub == "<body") && k + |sub| <= |b|
      ensures Occurs(low + more, sub, k) <==> Occurs(low, sub, k)
    {
      OccursInPrefix(low, more, sub, k);
    }
    assert EndsHead(b + x, e);
    // A mark that starts before e also ends inside b: none is two longer than another.
    forall k | k < e ensures !EndsHead(b + x, k) {
      assert !EndsHead(b, k);
    }
  }

  // ---------------------------------------------------------------------------
  // Does it look like a document
  // ---------------------------------------------------------------------------

  const BOM: string := [0xEF as char, 0xBB as char, 0xBF as char]

  predicate Utf16or32BOM(b: string) {
    || [0xFF as char, 0xFE as char] <= b
    || [0xFE as char, 0xFF as char] <= b
    || [0x00 as char, 0x00 as char] <= b
  }

  function TrimBOMAndSpace(b: string): string
    decreases |b|
  {
    if BOM <= b then TrimBOMAndSpace(b[3..])
    else if b != [] && (b[0] == ' ' || b[0] == '\t' || b[0] == '\r' || b[0] == '\n') then TrimBOMAndSpace(b[1..])
    else b
  }

  const DOCUMENT_STARTS: seq<string> := ["<!doctype html", "<html", "<head"]

  // The shorter of the two is a prefix of the other, regardless of case.
  predicate AgreesSoFar(s: string, p: string) {
    if |s| >= |p| then EqualFold(s[..|p|], p) else EqualFold(s, p[..|s|])
  }

  predicate LooksLikeDocument(b: string) {
    !Utf16or32BOM(b) && exists i :: 0 <= i < |DOCUMENT_STARTS| && AgreesSoFar(TrimBOMAndSpace(b), DOCUMENT_STARTS[i])
  }

  // Byte-order marks and blanks, in any number and order.
  predicate Leads(lead: string)
    decreases |lead|
  {
    || lead == ""
    || (BOM <= lead && Leads(lead[3..]))
    || (IsBlank(lead[0]) && Leads(lead[1..]))
  }

  predicate StartsDocument(d: string) {
    exists i :: 0 <= i < |DOCUMENT_STARTS| && |DOCUMENT_STARTS[i]| <= |d| && EqualFold(d[..|DOCUMENT_STARTS[i]|], DOCUMENT_STARTS[i])
  }

  // What the text after the lead must be the beginning of.
  ghost predicate CanStartDocument(s: string) {
    exists x :: StartsDocument(s + x)
  }

  lemma {:induction false} TrimTakesLead(b: string) returns (lead: string)
    ensures Leads(lead) && b == lead + TrimBOMAndSpace(b)
    decreases |b|
  {
    if BOM <= b {
      var rest := TrimTakesLead(b[3..]);
      lead := b[..3] + rest;
      Relead(b, rest, TrimBOMAndSpace(b[3..]), 3);
    } else if b != [] && IsBlank(b[0]) {
      var rest := TrimTakesLead(b[1..]);
      lead := b[..1] + rest;
      Relead(b, rest, TrimBOMAndSpace(b[1..]), 1);
    } else {
      lead := "";
    }
  }

  lemma Relead(b: string, rest: string, s: string, n: nat)
    requires n <= |b| && b[n..] == rest + s
    ensures b == (b[..n] + rest) + s && (b[..n] + rest)[n..] == rest && (b[..n] + rest)[..n] == b[..n]
  {
  }

  lemma {:induction false} TrimOfLead(lead: string, s: string)
    requires Leads(lead) && (s == "" || s[0] == '<')
    ensures TrimBOMAndSpace(lead + s) == s
    decreases |lead|
  {
    if lead == "" {
      assert lead + s == s;
    } else if BOM <= lead {
      TrimOfLead(lead[3..], s);
      PrefixOfConcat(lead, s, 3);
    } else {
      TrimOfLead(lead[1..], s);
      PrefixOfConcat(lead, s, 1);
      assert (lead + s)[0] == lead[0];
    }
  }

  lemma PrefixOfConcat(a: string, b: string, n: nat)
    requires n <= |a|
    ensures (a + b)[..n] == a[..n] && (a + b)[n..] == a[n..] + b
  {
  }

  lemma AgreesIffContinues(s: string, p: string)
    ensures AgreesSoFar(s, p) <==> exists x :: |p| <= |s + x| && EqualFold((s + x)[..|p|], p)
  {
    if |s| >= |p| {
      assert forall x :: (s + x)[..|p|] == s[..|p|];
      assert s + "" == s;
    } else {
      forall x | |p| <= |s + x| && EqualFold((s + x)[..|p|], p) ensures EqualFold(s, p[..|s|]) {
        var low, want := ToLower((s + x)[..|p|]), ToLower(p);
        assert forall k :: 0 <= k < |s| ==> ToLower(s)[k] == low[k] == want[k] == ToLower(p[..|s|])[k];
      }
      if EqualFold(s, p[..|s|]) {
        var x := p[|s|..];
        assert (s + x)[..|p|] == s + x;
        assert p == p[..|s|] + x;
        LowerOfConcat(s, x);
        LowerOfConcat(p[..|s|], x);
      }
    }
  }

  // What has arrived looks like a document exactly when, past any marks and blanks, it can still become the start of
  // one and the text is in a form of one byte a character.
  lemma LooksLikeDocumentIff(b: string)
    ensures LooksLikeDocument(b) <==>
              !Utf16or32BOM(b) && exists lead, s :: b == lead + s && Leads(lead) && CanStartDocument(s)
  {
    hide AgreesSoFar, EqualFold, Utf16or32BOM;
    if !Utf16or32BOM(b) {
      var s := TrimBOMAndSpace(b);
      var lead := TrimTakesLead(b);
      if LooksLikeDocument(b) {
        var i :| 0 <= i < |DOCUMENT_STARTS| && AgreesSoFar(s, DOCUMENT_STARTS[i]);
        AgreesIffContinues(s, DOCUMENT_STARTS[i]);
      }
      if lead, s :| b == lead + s && Leads(lead) && CanStartDocument(s) {
        var x :| StartsDocument(s + x);
        var i :| 0 <= i < |DOCUMENT_STARTS| && |DOCUMENT_STARTS[i]| <= |s + x| && EqualFold((s + x)[..|DOCUMENT_STARTS[i]|], DOCUMENT_STARTS[i]);
        AgreesIffContinues(s, DOCUMENT_STARTS[i]);
        StartsWithTag(s, x, i);
        TrimOfLead(lead, s);
      }
    }
  }

  lemma StartsWithTag(s: string, x: string, i: nat)
    requires i < |DOCUMENT_STARTS| && |DOCUMENT_STARTS[i]| <= |s + x| && EqualFold((s + x)[..|DOCUMENT_STARTS[i]|], DOCUMENT_STARTS[i])
    ensures s == "" || s[0] == '<'
  {
    var p := DOCUMENT_STARTS[i];
    assert p[0] == '<' && ToLower(p)[0] == '<';
    assert ToLower((s + x)[..|p|])[0] == '<';
  }

  // So no part of a document is declined once its marks and blanks are in, however the document is cut.
  lemma NoPartIsDeclined(lead: string, s: string, n: nat)
    requires LooksLikeDocument(lead + s) && Leads(lead) && CanStartDocument(s) && |lead| <= n <= |lead + s|
    ensures LooksLikeDocument((lead + s)[..n])
  {
    hide StartsDocument, LooksLikeDocument, Leads, Utf16or32BOM;
    var d := lead + s;
    var part, rest := s[..n - |lead|], s[n - |lead|..];
    assert d[..n] == lead + part && s == part + rest;
    var x :| StartsDocument(s + x);
    assert s + x == part + (rest + x);
    LooksLikeDocumentIff(d);
    LooksLikeDocumentIff(d[..n]);
    assert d == d[..n] + d[n..];
    MarkIsFirst(d[..n], d[n..]);
  }

  lemma MarkIsFirst(b: string, x: string)
    ensures Utf16or32BOM(b) ==> Utf16or32BOM(b + x)
  {
    assert |b| >= 2 ==> (b + x)[..2] == b[..2];
  }

  // ---------------------------------------------------------------------------
  // Policies declared in meta tags
  // ---------------------------------------------------------------------------

  predicate IsBlank(c: char) {
    c == ' ' || c == '\t' || c == '\r' || c == '\n'
  }

  // The value of an attribute whose name ends at `from`, if what follows is an assignment.
  datatype Assigned = NoAssignment | Unterminated | Value(value: string)

  function ValueAt(tag: string, from: nat): Assigned
    requires from <= |tag|
  {
    var rest := TrimLeft(tag[from..], IsBlank);
    if rest == "" || rest[0] != '=' then NoAssignment
    else
      var v := TrimLeft(rest[1..], IsBlank);
      if v == "" then Unterminated
      else if v[0] == '"' || v[0] == '\'' then
        var e := IndexFrom(v, [v[0]], 1);
        if e < 0 then Unterminated else Value(v[1..e])
      else Value(v[..UntilBlank(v)])
  }

  function UntilBlank(v: string): (n: nat)
    ensures n <= |v|
  {
    if v == "" || IsBlank(v[0]) then 0 else 1 + UntilBlank(v[1..])
  }

  // One look for an attribute: none left, a namesake to skip, or the answer.
  datatype Look = Absent | Skip(next: nat) | Answer(value: Option<string>)

  function LookForAttr(tag: string, name: string, i: nat): (l: Look)
    requires i <= |tag| && name != ""
    ensures l.Skip? ==> i < l.next <= |tag|
  {
    var k := IndexFrom(ToLower(tag), name, i);
    if k < 0 then Absent
    else if k == 0 || !IsBlank(tag[k - 1]) then Skip(k + |name|)
    else match ValueAt(tag, k + |name|)
      case NoAssignment => Skip(k + |name|)
      case Unterminated => Answer(None)
      case Value(v) => Answer(Some(v))
  }

  function AttrFrom(tag: string, name: string, i: nat): Option<string>
    requires i <= |tag| && name != ""
    decreases |tag| - i
  {
    match LookForAttr(tag, name, i)
    case Absent => None
    case Skip(next) => AttrFrom(tag, name, next)
    case Answer(value) => value
  }

  // j is the first place at or after i without a blank, or the end.
  predicate BlanksTo(tag: string, i: int, j: int) {
    0 <= i <= j <= |tag| && (forall k :: i <= k < j ==> IsBlank(tag[k])) && (j < |tag| ==> !IsBlank(tag[j]))
  }

  // The name stands at k as a word of its own and is assigned; what is assigned begins at v.
  ghost predicate AssignsAt(tag: string, name: string, k: int, v: int) {
    && 0 < k && Occurs(ToLower(tag), name, k) && IsBlank(tag[k - 1])
    && exists eq :: BlanksTo(tag, k + |name|, eq) && eq < |tag| && tag[eq] == '=' && BlanksTo(tag, eq + 1, v)
  }

  // e is the next place after v with the quote that stands at v.
  predicate QuoteEnds(tag: string, v: int, e: int) {
    0 <= v < e < |tag| && tag[e] == tag[v] && forall k :: v < k < e ==> tag[k] != tag[v]
  }

  // e is the first blank at or after v, or the end.
  predicate WordEnds(tag: string, v: int, e: int) {
    0 <= v <= e <= |tag| && (forall k :: v <= k < e ==> !IsBlank(tag[k])) && (e < |tag| ==> IsBlank(tag[e]))
  }

  // An unquoted value runs to the next blank, a quoted one to the next such quote; without either there is none.
  ghost predicate ReadsFrom(tag: string, v: int, value: Option<string>)
    requires 0 <= v <= |tag|
  {
    if v == |tag| then value.None?
    else if tag[v] == '"' || tag[v] == '\'' then
      if value.None? then forall e :: !QuoteEnds(tag, v, e)
      else exists e :: QuoteEnds(tag, v, e) && value.value == tag[v + 1..e]
    else value.Some? && exists e :: WordEnds(tag, v, e) && value.value == tag[v..e]
  }

  // k is the first place that assigns the attribute, and v where its value begins.
  ghost predicate FirstAssigns(tag: string, name: string, k: int, v: int) {
    0 <= v <= |tag| && AssignsAt(tag, name, k, v) && forall j, u :: AssignsAt(tag, name, j, u) ==> k <= j
  }

  // The value of an attribute is what its first assignment in the tag assigns.
  ghost predicate IsAttr(tag: string, name: string, value: Option<string>) {
    || (value.None? && forall k, v :: !AssignsAt(tag, name, k, v))
    || exists k, v :: FirstAssigns(tag, name, k, v) && ReadsFrom(tag, v, value)
  }

  // Which leaves one value.
  lemma AttrIsUnique(tag: string, name: string, a: Option<string>, b: Option<string>)
    requires IsAttr(tag, name, a) && IsAttr(tag, name, b)
    ensures a == b
  {
    hide AssignsAt, ReadsFrom;
    if k, v :| FirstAssigns(tag, name, k, v) && ReadsFrom(tag, v, a) {
      var l, w :| FirstAssigns(tag, name, l, w) && ReadsFrom(tag, w, b);
      OneValuePlace(tag, name, k, v, l, w);
      OneReading(tag, v, a, b);
    }
  }

  lemma OneValuePlace(tag: string, name: string, k: int, v: int, l: int, w: int)
    requires FirstAssigns(tag, name, k, v) && FirstAssigns(tag, name, l, w)
    ensures v == w
  {
  }

  lemma OneReading(tag: string, v: int, a: Option<string>, b: Option<string>)
    requires 0 <= v <= |tag| && ReadsFrom(tag, v, a) && ReadsFrom(tag, v, b)
    ensures a == b
  {
  }

  lemma TrimBlanks(tag: string, i: nat)
    requires i <= |tag|
    ensures var t := TrimLeft(tag[i..], IsBlank); |t| <= |tag| - i && BlanksTo(tag, i, |tag| - |t|) && t == tag[|tag| - |t|..]
  {
    var s := tag[i..];
    var t := TrimLeft(s, IsBlank);
    TrimLeftTakes(s, IsBlank);
    var j := |tag| - |t|;
    assert s[|s| - |t|..] == tag[j..];
    forall k | i <= k < j ensures IsBlank(tag[k]) {
      assert s[k - i] == tag[k];
    }
    if t != [] {
      assert t[0] == tag[j];
    }
  }

  lemma {:induction false} UntilBlankStops(v: string)
    ensures var n := UntilBlank(v); (forall k :: 0 <= k < n ==> !IsBlank(v[k])) && (n < |v| ==> IsBlank(v[n]))
  {
    if v != "" && !IsBlank(v[0]) {
      UntilBlankStops(v[1..]);
    }
  }

  // ValueAt tells an assignment from none.
  lemma ValueAtAssigns(tag: string, from: nat)
    requires from <= |tag|
    ensures ValueAt(tag, from) == NoAssignment <==> forall eq :: !(BlanksTo(tag, from, eq) && eq < |tag| && tag[eq] == '=')
  {
    TrimBlanks(tag, from);
    var rest := TrimLeft(tag[from..], IsBlank);
    var eq := |tag| - |rest|;
    if rest != "" {
      assert rest[0] == tag[eq];
    }
  }

  lemma ValueAtReads(tag: string, from: nat) returns (v: int)
    requires from <= |tag| && ValueAt(tag, from) != NoAssignment
    ensures 0 <= v <= |tag| && exists eq :: BlanksTo(tag, from, eq) && eq < |tag| && tag[eq] == '=' && BlanksTo(tag, eq + 1, v)
    ensures ReadsFrom(tag, v, match ValueAt(tag, from) case Value(t) => Some(t) case _ => None)
  {
    TrimBlanks(tag, from);
    var rest := TrimLeft(tag[from..], IsBlank);
    var eq := |tag| - |rest|;
    assert rest[0] == tag[eq] && rest[1..] == tag[eq + 1..];
    TrimBlanks(tag, eq + 1);
    var t := TrimLeft(rest[1..], IsBlank);
    v := |tag| - |t|;
    assert BlanksTo(tag, from, eq) && BlanksTo(tag, eq + 1, v);
    hide BlanksTo, ReadsFrom, IndexFrom, UntilBlank;
    AssignedReads(tag, v, t);
  }

  lemma AssignedReads(tag: string, v: nat, t: string)
    requires v <= |tag| && t == tag[v..]
    ensures t == "" ==> ReadsFrom(tag, v, None)
    ensures t != "" && (t[0] == '"' || t[0] == '\'') ==>
              var e := IndexFrom(t, [t[0]], 1);
              ReadsFrom(tag, v, if e < 0 then None else Some(t[1..e]))
    ensures t != "" && t[0] != '"' && t[0] != '\'' ==> ReadsFrom(tag, v, Some(t[..UntilBlank(t)]))
  {
    if t == "" {
    } else if t[0] == '"' || t[0] == '\'' {
      QuotedReads(tag, v, t);
    } else {
      UntilBlankStops(t);
      var n := UntilBlank(t);
      forall k | v <= k < v + n ensures !IsBlank(tag[k]) {
        assert t[k - v] == tag[k];
      }
      assert WordEnds(tag, v, v + n) && t[..n] == tag[v..v + n];
    }
  }

  lemma QuotedReads(tag: string, v: nat, t: string)
    requires v < |tag| && t == tag[v..] && (t[0] == '"' || t[0] == '\'')
    ensures var e := IndexFrom(t, [t[0]], 1); ReadsFrom(tag, v, if e < 0 then None else Some(t[1..e]))
  {
    var e := IndexFrom(t, [t[0]], 1);
    forall k | v < k < |tag| && (e < 0 || k < v + e) ensures tag[k] != tag[v] {
      assert t[k - v..k - v + 1] == [t[k - v]];
      assert !Occurs(t, [t[0]], k - v);
    }
    if e >= 0 {
      assert t[e..e + 1] == [t[e]];
      assert QuoteEnds(tag, v, v + e) && t[1..e] == tag[v + 1..v + e];
    }
  }

  // No assignment of a name without blanks starts inside an occurrence of it.
  lemma NoneInside(tag: string, name: string, k: int, j: int, v: int)
    requires (forall i :: 0 <= i < |name| ==> !IsBlank(name[i])) && Occurs(ToLower(tag), name, k) && k < j < k + |name|
    ensures !AssignsAt(tag, name, j, v)
  {
    OccursAt(ToLower(tag), name, k, j - 1 - k);
  }

  // Before i nothing assigns the attribute.
  ghost predicate NoneAssigned(tag: string, name: string, i: int) {
    forall j, u :: j < i ==> !AssignsAt(tag, name, j, u)
  }

  lemma {:induction false} AttrIsFirstAssignment(tag: string, name: string, i: nat)
    requires i <= |tag| && name != "" && (forall k :: 0 <= k < |name| ==> !IsBlank(name[k])) && NoneAssigned(tag, name, i)
    ensures IsAttr(tag, name, AttrFrom(tag, name, i))
    decreases |tag| - i
  {
    hide AssignsAt, ReadsFrom, Occurs, ValueAt, IsAttr, NoneAssigned, IndexFrom, IsBlank;
    var k := IndexFrom(ToLower(tag), name, i);
    if k < 0 {
      NowhereAssigned(tag, name, i);
    } else {
      UpToOccurrence(tag, name, i, k);
      if k == 0 || !IsBlank(tag[k - 1]) || ValueAt(tag, k + |name|) == NoAssignment {
        NotAssigned(tag, name, k);
        AttrIsFirstAssignment(tag, name, k + |name|);
      } else {
        FirstAssigned(tag, name, k);
      }
    }
  }

  lemma NowhereAssigned(tag: string, name: string, i: int)
    requires NoneAssigned(tag, name, i) && forall j :: i <= j ==> !Occurs(ToLower(tag), name, j)
    ensures IsAttr(tag, name, None)
  {
    hide BlanksTo;
  }

  lemma UpToOccurrence(tag: string, name: string, i: int, k: int)
    requires NoneAssigned(tag, name, i) && forall j :: i <= j < k ==> !Occurs(ToLower(tag), name, j)
    ensures NoneAssigned(tag, name, k)
  {
    hide BlanksTo;
  }

  lemma NotAssigned(tag: string, name: string, k: nat)
    requires Occurs(ToLower(tag), name, k) && (forall i :: 0 <= i < |name| ==> !IsBlank(name[i])) && NoneAssigned(tag, name, k)
    requires k == 0 || !IsBlank(tag[k - 1]) || ValueAt(tag, k + |name|) == NoAssignment
    ensures NoneAssigned(tag, name, k + |name|)
  {
    forall j, u | j < k + |name| ensures !AssignsAt(tag, name, j, u) {
      if j == k {
        ValueAtAssigns(tag, k + |name|);
      } else if j > k {
        NoneInside(tag, name, k, j, u);
      }
    }
  }

  lemma FirstAssigned(tag: string, name: string, k: nat)
    requires Occurs(ToLower(tag), name, k) && NoneAssigned(tag, name, k)
    requires k > 0 && IsBlank(tag[k - 1]) && ValueAt(tag, k + |name|) != NoAssignment
    ensures IsAttr(tag, name, match ValueAt(tag, k + |name|) case Value(t) => Some(t) case _ => None)
  {
    hide BlanksTo, ReadsFrom, ValueAt;
    var v := ValueAtReads(tag, k + |name|);
    assert AssignsAt(tag, name, k, v);
    assert FirstAssigns(tag, name, k, v);
  }

  lemma NoneBeforeZero(tag: string, name: string)
    ensures NoneAssigned(tag, name, 0)
  {
  }

  method Attr(tag: string, name: string) returns (value: Option<string>)
    requires name != ""
    ensures value == AttrFrom(tag, name, 0)
    ensures (forall k :: 0 <= k < |name| ==> !IsBlank(name[k])) ==> IsAttr(tag, name, value)
  {
    hide IsAttr, LookForAttr;
    if forall k :: 0 <= k < |name| ==> !IsBlank(name[k]) {
      NoneBeforeZero(tag, name);
      AttrIsFirstAssignment(tag, name, 0);
    }
    var i: nat := 0;
    while true
      invariant i <= |tag| && AttrFrom(tag, name, i) == AttrFrom(tag, name, 0)
      decreases |tag| - i
    {
      match LookForAttr(tag, name, i)
      case Absent => return None;
      case Skip(next) => i := next;
      case Answer(v) => return v;
    }
  }

  // The policy a meta tag declares, if it declares one.
  function Declared(tag: string): Option<string> {
    var equiv := AttrFrom(tag, "http-equiv", 0);
    if equiv.Some? && EqualFold(TrimSpace(equiv.value), "content-security-policy") then AttrFrom(tag, "content", 0)
    else None
  }

  // A tag declares a policy exactly when its http-equiv says so, in any case and with any space around it, and then the
  // policy is its content.
  lemma DeclaredIff(tag: string, policy: string)
    ensures Declared(tag) == Some(policy) <==>
              exists equiv :: IsAttr(tag, "http-equiv", Some(equiv)) && EqualFold(TrimSpace(equiv), "content-security-policy")
                              && IsAttr(tag, "content", Some(policy))
  {
    hide IsAttr, AttrFrom, TrimSpace, EqualFold;
    AttrFound(tag, "http-equiv");
    AttrFound(tag, "content");
  }

  lemma AttrFound(tag: string, name: string)
    requires name == "http-equiv" || name == "content"
    ensures forall value :: IsAttr(tag, name, value) <==> value == AttrFrom(tag, name, 0)
  {
    hide IsAttr, AttrFrom;
    NoneBeforeZero(tag, name);
    AttrIsFirstAssignment(tag, name, 0);
    forall value | IsAttr(tag, name, value) ensures value == AttrFrom(tag, name, 0) {
      AttrIsUnique(tag, name, value, AttrFrom(tag, name, 0));
    }
  }

  // The next complete meta tag: where it ends and what it declares.
  datatype Meta = Meta(end: nat, policy: Option<string>)

  function NextMeta(b: string, i: nat): (t: Option<Meta>)
    requires i <= |b|
    ensures t.Some? ==> i < t.value.end <= |b|
  {
    var m := IndexFrom(ToLower(b), "<meta", i);
    if m < 0 then None
    else
      var end := IndexFrom(b, ">", m);
      if end < 0 then None
      else
        MetaEndsLater(b, m, end);
        Some(Meta(end, Declared(b[m..end])))
  }

  function MetaFrom(b: string, i: nat): seq<string>
    requires i <= |b|
    decreases |b| - i
  {
    match NextMeta(b, i)
    case None => []
    case Some(t) => Listed(t.policy) + MetaFrom(b, t.end)
  }

  function Listed(policy: Option<string>): seq<string> {
    if policy.Some? then [policy.value] else []
  }

  lemma MetaFromStep(b: string, i: nat, before: seq<string>)
    requires i <= |b|
    ensures NextMeta(b, i).None? ==> before + MetaFrom(b, i) == before
    ensures NextMeta(b, i).Some? ==>
              var t := NextMeta(b, i).value;
              before + MetaFrom(b, i) == (before + Listed(t.policy)) + MetaFrom(b, t.end)
  {
  }

  lemma MetaEndsLater(b: string, m: int, end: int)
    requires Occurs(ToLower(b), "<meta", m) && m <= end && Occurs(b, ">", end)
    ensures end > m
  {
    OccursAt(ToLower(b), "<meta", m, 0);
    OccursAt(b, ">", end, 0);
  }

  datatype Span = Span(start: nat, end: nat)

  // A meta tag of the document: an opening up to the next '>', not inside an earlier one that is still open. A '>'
  // in a quoted value ends the tag.
  ghost predicate IsMetaTag(b: string, t: Span) {
    && t.start < t.end < |b| && Occurs(ToLower(b), "<meta", t.start)
    && b[t.end] == '>' && (forall k :: t.start <= k < t.end ==> b[k] != '>')
    && forall j :: 0 <= j < t.start && Occurs(ToLower(b), "<meta", j) ==> exists k :: j <= k < t.start && b[k] == '>'
  }

  // The meta tags from i on, in order.
  ghost predicate AreMetaTags(b: string, i: nat, tags: seq<Span>) {
    && (forall x, y :: 0 <= x < y < |tags| ==> tags[x].start < tags[y].start)
    && forall t :: t in tags <==> IsMetaTag(b, t) && t.start >= i
  }

  function PoliciesOf(b: string, tags: seq<Span>): seq<string>
    requires forall t :: t in tags ==> t.start <= t.end <= |b|
  {
    if tags == [] then [] else Listed(Declared(b[tags[0].start..tags[0].end])) + PoliciesOf(b, tags[1..])
  }

  // The next tag the search finds is the first meta tag there is.
  lemma NextIsFirst(b: string, i: nat, m: int, end: int)
    requires i == 0 || (i < |b| && b[i] == '>')
    requires i <= m && Occurs(ToLower(b), "<meta", m) && (forall j :: i <= j < m ==> !Occurs(ToLower(b), "<meta", j))
    requires m <= end && Occurs(b, ">", end) && forall j :: m <= j < end ==> !Occurs(b, ">", j)
    ensures m < end < |b| && b[end] == '>' && IsMetaTag(b, Span(m, end))
    ensures forall t :: IsMetaTag(b, t) && t.start >= i ==> t == Span(m, end) || t.start > end
  {
    OccursAt(ToLower(b), "<meta", m, 0);
    OccursAt(b, ">", end, 0);
    forall k | m <= k < end ensures b[k] != '>' {
      assert b[k..k + 1] == [b[k]];
      assert !Occurs(b, ">", k);
    }
    if i > 0 {
      assert ToLower(b)[i] == '>';
      assert i != m;
    }
    forall t | IsMetaTag(b, t) && t.start >= i ensures t == Span(m, end) || t.start > end {
      assert t.start >= m;
      if t.start <= end {
        OccursAt(ToLower(b), "<meta", t.start, 0);
        assert ToLower(b)[end] == '>';
      }
    }
  }

  // Where the search stops there is no meta tag left.
  lemma NoTagLeft(b: string, i: nat, m: int)
    requires m == -1 || (i <= m && Occurs(ToLower(b), "<meta", m) && forall j :: m <= j ==> !Occurs(b, ">", j))
    requires forall j :: i <= j && (m == -1 || j < m) ==> !Occurs(ToLower(b), "<meta", j)
    ensures forall t :: IsMetaTag(b, t) ==> t.start < i
  {
    forall t | IsMetaTag(b, t) ensures t.start < i {
      assert b[t.end..t.end + 1] == [b[t.end]];
      assert Occurs(b, ">", t.end);
    }
  }

  // The search misses no meta tag and finds nothing else.
  lemma {:induction false} MetaFromListsTags(b: string, i: nat) returns (tags: seq<Span>)
    requires i <= |b| && (i == 0 || (i < |b| && b[i] == '>'))
    ensures AreMetaTags(b, i, tags) && MetaFrom(b, i) == PoliciesOf(b, tags)
    decreases |b| - i
  {
    hide IsMetaTag, Occurs, IndexFrom, Declared, ToLower;
    var m := IndexFrom(ToLower(b), "<meta", i);
    var end := if m < 0 then -1 else IndexFrom(b, ">", m);
    if m < 0 || end < 0 {
      NoTagLeft(b, i, m);
      tags := [];
    } else {
      NextIsFirst(b, i, m, end);
      var rest := MetaFromListsTags(b, end);
      tags := [Span(m, end)] + rest;
      OneMoreTag(b, i, Span(m, end), rest);
    }
  }

  lemma OneMoreTag(b: string, i: nat, t: Span, rest: seq<Span>)
    requires AreMetaTags(b, t.end, rest) && IsMetaTag(b, t) && i <= t.start < t.end
    requires forall u :: IsMetaTag(b, u) && u.start >= i ==> u == t || u.start > t.end
    ensures AreMetaTags(b, i, [t] + rest)
    ensures forall u :: u in [t] + rest ==> u.start <= u.end <= |b|
    ensures PoliciesOf(b, [t] + rest) == Listed(Declared(b[t.start..t.end])) + PoliciesOf(b, rest)
  {
    hide Declared, Occurs, ToLower;
    assert ([t] + rest)[1..] == rest;
    forall x | 0 <= x < |rest| ensures rest[x].start > t.start {
      assert rest[x] in rest;
    }
  }

  method MetaPolicies(b: string) returns (policies: seq<string>)
    ensures policies == MetaFrom(b, 0)
    ensures exists tags :: AreMetaTags(b, 0, tags) && policies == PoliciesOf(b, tags)
  {
    hide AttrFrom, IndexFrom, MetaFrom, IsAttr, Occurs, TrimSpace, AreMetaTags, PoliciesOf, ToLower;
    ghost var tags := MetaFromListsTags(b, 0);
    policies := [];
    var lower := ToLower(b);
    var i: nat := 0;
    while true
      invariant i <= |b| && policies + MetaFrom(b, i) == MetaFrom(b, 0)
      decreases |b| - i
    {
      MetaFromStep(b, i, policies);
      var m := IndexFrom(lower, "<meta", i);
      if m < 0 {
        return;
      }
      var end := IndexFrom(b, ">", m);
      if end < 0 {
        return;
      }
      MetaEndsLater(b, m, end);
      var policy := PolicyOf(b[m..end]);
      i := end;
      policies := policies + Listed(policy);
    }
  }

  method PolicyOf(tag: string) returns (policy: Option<string>)
    ensures policy == Declared(tag)
  {
    hide AttrFrom, IsAttr, TrimSpace;
    var equiv := Attr(tag, "http-equiv");
    if equiv.None? || !EqualFold(TrimSpace(equiv.value), "content-security-policy") {
      return None;
    }
    policy := Attr(tag, "content");
  }

  lemma IndexIsStable(s: string, x: string, sub: string, i: nat)
    requires i <= |s| && IndexFrom(s, sub, i) >= 0
    ensures IndexFrom(s + x, sub, i) == IndexFrom(s, sub, i)
  {
    var k := IndexFrom(s, sub, i);
    forall j | j <= k ensures Occurs(s + x, sub, j) <==> Occurs(s, sub, j) {
      OccursInPrefix(s, x, sub, j);
    }
  }

  lemma NextMetaIsStable(b: string, x: string, i: nat)
    requires i <= |b| && NextMeta(b, i).Some?
    ensures NextMeta(b + x, i) == NextMeta(b, i)
  {
    hide Declared, IndexFrom, Occurs, ToLower;
    var m := IndexFrom(ToLower(b), "<meta", i);
    LowerOfConcat(b, x);
    IndexIsStable(ToLower(b), ToLower(x), "<meta", i);
    IndexIsStable(b, x, ">", m);
    var end := IndexFrom(b, ">", m);
    MetaEndsLater(b, m, end);
    assert (b + x)[m..end] == b[m..end];
  }

  // Reading further never retracts or reorders a declared policy: what constrains the injection in the
  // bytes at hand still does in the whole document.
  lemma {:induction false} MetaPoliciesOnlyGrow(b: string, x: string, i: nat)
    requires i <= |b|
    ensures MetaFrom(b, i) <= MetaFrom(b + x, i)
    decreases |b| - i
  {
    if NextMeta(b, i).Some? {
      NextMetaIsStable(b, x, i);
      MetaPoliciesOnlyGrow(b, x, NextMeta(b, i).value.end);
    }
  }
}
