/** Reading, planning around and rewriting Content-Security-Policy headers. (internal/gate/inject.go) */
module Csp {
  import opened Wrappers
  import opened Text

  // ---------------------------------------------------------------------------
  // Directives
  // ---------------------------------------------------------------------------

  // A policy's segments are its ;-separated pieces; a segment's name and values are its fields.

  function SegName(seg: string): string {
    if Fields(seg) == [] then "" else ToLower(Fields(seg)[0])
  }

  function SegVals(seg: string): seq<string> {
    if Fields(seg) == [] then [] else Fields(seg)[1..]
  }

  function LowerAll(vs: seq<string>): (ls: seq<string>)
    ensures |ls| == |vs| && forall i :: 0 <= i < |vs| ==> ls[i] == ToLower(vs[i])
  {
    seq(|vs|, i requires 0 <= i < |vs| => ToLower(vs[i]))
  }

  function LastNamed(segs: seq<string>, name: string, n: nat): (k: int)
    requires n <= |segs|
    ensures -1 <= k < n
    ensures k >= 0 ==> SegName(segs[k]) == name
    ensures forall j {:trigger SegName(segs[j])} :: k < j < n ==> SegName(segs[j]) != name
  {
    if n == 0 then -1 else if SegName(segs[n - 1]) == name then n - 1 else LastNamed(segs, name, n - 1)
  }

  function FirstNamed(segs: seq<string>, name: string, i: nat): (k: nat)
    requires i <= |segs|
    ensures i <= k <= |segs|
    ensures k < |segs| ==> SegName(segs[k]) == name
    ensures forall j {:trigger SegName(segs[j])} :: i <= j < k ==> SegName(segs[j]) != name
    decreases |segs| - i
  {
    if i == |segs| || SegName(segs[i]) == name then i else FirstNamed(segs, name, i + 1)
  }

  predicate Has(segs: seq<string>, name: string) {
    LastNamed(segs, name, |segs|) >= 0
  }

  lemma FirstAndLast(segs: seq<string>, name: string)
    ensures Has(segs, name) <==> FirstNamed(segs, name, 0) < |segs|
    ensures Has(segs, name) ==> FirstNamed(segs, name, 0) <= LastNamed(segs, name, |segs|)
  {
  }

  // The directive that governs script elements.
  function GoverningName(segs: seq<string>): string {
    if Has(segs, "script-src-elem") then "script-src-elem"
    else if Has(segs, "script-src") then "script-src"
    else if Has(segs, "default-src") then "default-src"
    else ""
  }

  // ---------------------------------------------------------------------------
  // One policy's effective script directive, as the gate reads it
  // ---------------------------------------------------------------------------

  datatype SourceList = SourceList(name: string, sources: seq<string>, restricting: bool, sandboxBlocks: bool) {
    predicate Lists(tok: string) {
      tok in sources
    }

    predicate HasNonceOrHash() {
      exists i :: 0 <= i < |sources| && IsNonceOrHash(sources[i])
    }
  }

  predicate IsNonceOrHash(v: string) {
    "'nonce-" <= v || "'sha256-" <= v || "'sha384-" <= v || "'sha512-" <= v
  }

  predicate SandboxBlocks(vals: seq<string>) {
    !("allow-scripts" in vals && "allow-same-origin" in vals)
  }

  // A repeated directive counts by its last occurrence.
  function Reading(segs: seq<string>): SourceList {
    var sandbox := LastNamed(segs, "sandbox", |segs|);
    var blocks := sandbox >= 0 && SandboxBlocks(LowerAll(SegVals(segs[sandbox])));
    var name := GoverningName(segs);
    if name == "" then SourceList("", [], false, blocks)
    else SourceList(name, LowerAll(SegVals(segs[LastNamed(segs, name, |segs|)])), true, blocks)
  }

  function EffectiveOf(policy: string): SourceList {
    Reading(Split(policy, ';'))
  }

  predicate IsScriptDirective(name: string) {
    name == "script-src-elem" || name == "script-src" || name == "default-src"
  }

  // What `found` and the sandbox variables hold after n segments.
  ghost predicate Collected(segs: seq<string>, n: nat, found: map<string, seq<string>>)
    requires n <= |segs|
  {
    forall name :: IsScriptDirective(name) ==>
      var k := LastNamed(segs, name, n);
      (name in found <==> k >= 0) && (k >= 0 ==> found[name] == LowerAll(SegVals(segs[k])))
  }

  function SandboxAt(segs: seq<string>, n: nat): Option<seq<string>>
    requires n <= |segs|
  {
    var k := LastNamed(segs, "sandbox", n);
    if k >= 0 then Some(LowerAll(SegVals(segs[k]))) else None
  }

  // What one segment adds to the two.
  function Found(found: map<string, seq<string>>, seg: string): map<string, seq<string>> {
    if IsScriptDirective(SegName(seg)) then found[SegName(seg) := LowerAll(SegVals(seg))] else found
  }

  lemma CollectOne(segs: seq<string>, i: nat, found: map<string, seq<string>>)
    requires i < |segs| && Collected(segs, i, found)
    ensures Collected(segs, i + 1, Found(found, segs[i]))
    ensures SandboxAt(segs, i + 1)
            == if SegName(segs[i]) == "sandbox" then Some(LowerAll(SegVals(segs[i]))) else SandboxAt(segs, i)
  {
  }

  method Collect(segs: seq<string>) returns (found: map<string, seq<string>>, sandbox: Option<seq<string>>)
    ensures Collected(segs, |segs|, found)
    ensures sandbox == SandboxAt(segs, |segs|)
  {
    found, sandbox := map[], None;
    var i := 0;
    while i < |segs|
      invariant 0 <= i <= |segs| && Collected(segs, i, found)
      invariant sandbox == SandboxAt(segs, i)
    {
      CollectOne(segs, i, found);
      found, sandbox := CollectSegment(segs[i], found, sandbox);
      i := i + 1;
    }
  }

  method CollectSegment(seg: string, found: map<string, seq<string>>, sandbox: Option<seq<string>>)
      returns (found': map<string, seq<string>>, sandbox': Option<seq<string>>)
    ensures found' == Found(found, seg)
    ensures sandbox' == if SegName(seg) == "sandbox" then Some(LowerAll(SegVals(seg))) else sandbox
  {
    found', sandbox' := found, sandbox;
    var fields := Fields(seg);
    if fields == [] {
      return;
    }
    var name := ToLower(fields[0]);
    var vals := LowerAll(fields[1..]);
    if IsScriptDirective(name) {
      found' := found[name := vals];
    } else if name == "sandbox" {
      sandbox' := Some(vals);
    }
  }

  method Effective(policy: string) returns (s: SourceList)
    ensures s == EffectiveOf(policy)
  {
    var segs := Split(policy, ';');
    var found, sandbox := Collect(segs);
    assert IsScriptDirective("script-src-elem") && IsScriptDirective("script-src") && IsScriptDirective("default-src");
    s := SourceList("", [], false, sandbox.Some? && SandboxBlocks(sandbox.value));
    if "script-src-elem" in found {
      s := s.(name := "script-src-elem", sources := found["script-src-elem"], restricting := true);
    } else if "script-src" in found {
      s := s.(name := "script-src", sources := found["script-src"], restricting := true);
    } else if "default-src" in found {
      s := s.(name := "default-src", sources := found["default-src"], restricting := true);
    }
  }

  // ---------------------------------------------------------------------------
  // Adding a source
  // ---------------------------------------------------------------------------

  predicate IsTabOrSpace(c: char) {
    c == ' ' || c == '\t'
  }

  // A source expression that parses as one token wherever it is put.
  predicate IsToken(src: string) {
    IsWord(src) && ',' !in src && ';' !in src
  }

  function Extended(seg: string, src: string): string {
    TrimRight(seg, IsTabOrSpace) + [' '] + src
  }

  function ExtendAt(segs: seq<string>, k: nat, src: string): seq<string>
    requires k < |segs|
  {
    segs[k := Extended(segs[k], src)]
  }

  // src goes on the first segment named `directive`; a policy without one is left alone.
  function Appended(policy: string, directive: string, src: string): string {
    var segs := Split(policy, ';');
    var k := FirstNamed(segs, directive, 0);
    if k == |segs| then policy else Join(ExtendAt(segs, k, src), ';')
  }

  method AppendSource(policy: string, directive: string, src: string) returns (out: string)
    requires directive != ""
    ensures out == Appended(policy, directive, src)
  {
    var segs := Split(policy, ';');
    var i := 0;
    while i < |segs|
      invariant 0 <= i <= |segs|
      invariant FirstNamed(segs, directive, 0) == FirstNamed(segs, directive, i)
    {
      var fields := Fields(segs[i]);
      if fields == [] || ToLower(fields[0]) != directive {
        i := i + 1;
        continue;
      }
      segs := segs[i := TrimRight(segs[i], IsTabOrSpace) + [' '] + src];
      return Join(segs, ';');
    }
    return policy;
  }

  function Edited(policy: string, src: string): string {
    var eff := EffectiveOf(policy);
    if eff.restricting then Appended(policy, eff.name, src) else policy
  }

  function EditedAll(parts: seq<string>, src: string): (out: seq<string>)
    ensures |out| == |parts| && forall j :: 0 <= j < |parts| ==> out[j] == Edited(parts[j], src)
  {
    seq(|parts|, j requires 0 <= j < |parts| => Edited(parts[j], src))
  }

  function EditedHeader(header: string, src: string): string {
    Join(EditedAll(Split(header, ','), src), ',')
  }

  lemma BlankIsUnrestricting(policy: string)
    requires TrimSpace(policy) == ""
    ensures !EffectiveOf(policy).restricting && !EffectiveOf(policy).sandboxBlocks
  {
    var t := TrimLeft(policy, IsSpace);
    TrimLeftTakes(policy, IsSpace);
    TrimRightTakes(t, IsSpace);
    assert forall i :: 0 <= i < |t| ==> IsSpace(t[i]);
    assert t == "";
    assert forall i :: 0 <= i < |policy| ==> IsSpace(policy[i]);
    assert ';' !in policy;
    SplitAtSeparator(policy, "", ';');
    FieldsOfSpaces(policy);
  }

  method Edit(policy: string, src: string) returns (out: string)
    ensures out == Edited(policy, src)
  {
    if TrimSpace(policy) == "" {
      BlankIsUnrestricting(policy);
      return policy;
    }
    var eff := Effective(policy);
    if !eff.restricting {
      return policy;
    }
    out := AppendSource(policy, eff.name, src);
  }

  method RewriteHeader(header: string, src: string) returns (out: string)
    ensures out == EditedHeader(header, src)
  {
    var original := Split(header, ',');
    var parts := EditEach(original, src);
    return Join(parts, ',');
  }

  method EditEach(original: seq<string>, src: string) returns (parts: seq<string>)
    ensures parts == EditedAll(original, src)
  {
    parts := original;
    ghost var goal := EditedAll(original, src);
    var j := 0;
    while j < |parts|
      invariant 0 <= j <= |parts| == |goal|
      invariant forall k :: 0 <= k < j ==> parts[k] == goal[k]
      invariant forall k :: j <= k < |parts| ==> parts[k] == original[k]
    {
      var edited := Edit(parts[j], src);
      parts := parts[j := edited];
      j := j + 1;
    }
  }

  // nil stands for "no headers": nothing to change.
  method Rewrite(headers: seq<string>, src: string) returns (out: Option<seq<string>>)
    ensures out == RewrittenAll(headers, src)
  {
    if |headers| == 0 {
      return None;
    }
    var result := headers;
    ghost var goal := RewrittenAll(headers, src).value;
    var i := 0;
    while i < |headers|
      invariant 0 <= i <= |headers| == |result| == |goal|
      invariant forall k :: 0 <= k < i ==> result[k] == goal[k]
    {
      var edited := RewriteHeader(headers[i], src);
      result := result[i := edited];
      i := i + 1;
    }
    assert result == goal;
    return Some(result);
  }

  function EditedHeaders(headers: seq<string>, src: string): (out: seq<string>)
    ensures |out| == |headers| && forall i :: 0 <= i < |headers| ==> out[i] == EditedHeader(headers[i], src)
  {
    seq(|headers|, i requires 0 <= i < |headers| => EditedHeader(headers[i], src))
  }

  function RewrittenAll(headers: seq<string>, src: string): (out: Option<seq<string>>)
    ensures out.None? <==> headers == []
  {
    if headers == [] then None else Some(EditedHeaders(headers, src))
  }

  // ---------------------------------------------------------------------------
  // What a rewrite does to a header's meaning
  // ---------------------------------------------------------------------------

  lemma ExtendedFields(seg: string, src: string)
    requires IsToken(src)
    ensures Fields(Extended(seg, src)) == Fields(seg) + [src]
    ensures Fields(seg) != [] ==> SegName(Extended(seg, src)) == SegName(seg)
    ensures Fields(seg) != [] ==> SegVals(Extended(seg, src)) == SegVals(seg) + [src]
  {
    FieldsAcrossSpace(TrimRight(seg, IsTabOrSpace), ' ', src);
    FieldsOfTrimRight(seg, IsTabOrSpace);
    FieldsOfWord(src);
    assert Extended(seg, src) == TrimRight(seg, IsTabOrSpace) + [' '] + src;
  }

  lemma ExtendedKeepsOut(seg: string, src: string, c: char)
    requires c !in seg && c !in src && c != ' '
    ensures c !in Extended(seg, src)
  {
    TrimRightTakes(seg, IsTabOrSpace);
  }

  lemma {:induction false} JoinKeepsOut(parts: seq<string>, sep: char, c: char)
    requires c != sep && forall i :: 0 <= i < |parts| ==> c !in parts[i]
    ensures c !in Join(parts, sep)
  {
    if |parts| > 1 {
      JoinKeepsOut(parts[1..], sep, c);
    }
  }

  lemma {:induction false} SplitKeepsOut(s: string, sep: char, c: char)
    requires c !in s
    ensures forall i :: 0 <= i < |Split(s, sep)| ==> c !in Split(s, sep)[i]
  {
    if s != [] {
      SplitKeepsOut(s[1..], sep, c);
    }
  }

  // Re-splitting an extended policy gives the old segments, byte for byte, but for the one extended.
  lemma AppendedSegments(policy: string, name: string, src: string)
    requires IsToken(src)
    ensures var segs := Split(policy, ';');
            var k := FirstNamed(segs, name, 0);
            Split(Appended(policy, name, src), ';') == if k == |segs| then segs else ExtendAt(segs, k, src)
    ensures ',' !in policy ==> ',' !in Appended(policy, name, src)
  {
    var segs := Split(policy, ';');
    var k := FirstNamed(segs, name, 0);
    if k < |segs| {
      SplitNoSeparator(policy, ';');
      ExtendedKeepsOut(segs[k], src, ';');
      SplitOfJoin(ExtendAt(segs, k, src), ';');
      if ',' !in policy {
        SplitKeepsOut(policy, ';', ',');
        ExtendedKeepsOut(segs[k], src, ',');
        JoinKeepsOut(ExtendAt(segs, k, src), ';', ',');
      }
    }
  }

  // A rewritten header splits into the same number of policies, each of them the edit of its original;
  // a policy that says nothing about scripts is byte for byte what it was.
  lemma RewriteKeepsPolicies(header: string, src: string)
    requires IsToken(src)
    ensures Split(EditedHeader(header, src), ',') == EditedAll(Split(header, ','), src)
    ensures forall j :: 0 <= j < |Split(header, ',')| && !EffectiveOf(Split(header, ',')[j]).restricting
              ==> Split(EditedHeader(header, src), ',')[j] == Split(header, ',')[j]
  {
    var parts := Split(header, ',');
    var edited := EditedAll(parts, src);
    SplitNoSeparator(header, ',');
    forall j | 0 <= j < |parts| ensures ',' !in edited[j] {
      AppendedSegments(parts[j], EffectiveOf(parts[j]).name, src);
    }
    SplitOfJoin(edited, ',');
  }

  // The governing directive occurs once.
  predicate GovernsOnce(policy: string) {
    var segs := Split(policy, ';');
    var name := GoverningName(segs);
    FirstNamed(segs, name, 0) == LastNamed(segs, name, |segs|)
  }

  lemma ExtendKeepsNames(segs: seq<string>, k: nat, src: string, name: string, n: nat)
    requires k < |segs| && n <= |segs| && IsToken(src) && Fields(segs[k]) != []
    ensures LastNamed(ExtendAt(segs, k, src), name, n) == LastNamed(segs, name, n)
    ensures FirstNamed(ExtendAt(segs, k, src), name, n) == FirstNamed(segs, name, n)
  {
    ExtendedFields(segs[k], src);
    var after := ExtendAt(segs, k, src);
    assert forall j :: 0 <= j < |segs| ==> SegName(after[j]) == SegName(segs[j]);
  }

  lemma ExtendKeepsGoverning(segs: seq<string>, k: nat, src: string)
    requires k < |segs| && IsToken(src) && Fields(segs[k]) != []
    ensures GoverningName(ExtendAt(segs, k, src)) == GoverningName(segs)
  {
    ExtendKeepsNames(segs, k, src, "script-src-elem", |segs|);
    ExtendKeepsNames(segs, k, src, "script-src", |segs|);
    ExtendKeepsNames(segs, k, src, "default-src", |segs|);
  }

  lemma LowerAllSnoc(vs: seq<string>, v: string)
    ensures LowerAll(vs + [v]) == LowerAll(vs) + [ToLower(v)]
  {
  }

  lemma GoverningOccurs(segs: seq<string>, name: string, k: nat)
    requires name == GoverningName(segs) != "" && k == FirstNamed(segs, name, 0)
    ensures Has(segs, name) && IsScriptDirective(name) && name != "sandbox"
    ensures k < |segs| && SegName(segs[k]) == name && Fields(segs[k]) != []
  {
    assert Has(segs, name);
    FirstAndLast(segs, name);
    assert SegName(segs[k]) == name;
  }

  // When the gate re-reads an edited restricting policy it finds the same directive and the same sandbox, and
  // the added source exactly when the governing directive is not repeated: it adds to the first occurrence and
  // reads the last.
  lemma EditAddsOneSource(policy: string, src: string)
    requires IsToken(src) && EffectiveOf(policy).restricting
    ensures var eff := EffectiveOf(policy);
            EffectiveOf(Edited(policy, src))
            == if GovernsOnce(policy) then eff.(sources := eff.sources + [ToLower(src)]) else eff
  {
    var segs := Split(policy, ';');
    var name := GoverningName(segs);
    var k := FirstNamed(segs, name, 0);
    AppendedSegments(policy, name, src);
    GoverningOccurs(segs, name, k);
    ExtendedReading(segs, k, src);
    hide Split, ExtendAt, FirstNamed, LastNamed, Appended, GoverningName;
    assert Split(Edited(policy, src), ';') == ExtendAt(segs, k, src);
  }

  lemma ExtendedReading(segs: seq<string>, k: nat, src: string)
    requires IsToken(src) && GoverningName(segs) != "" && k == FirstNamed(segs, GoverningName(segs), 0) < |segs|
    ensures var eff := Reading(segs);
            Reading(ExtendAt(segs, k, src))
            == if k == LastNamed(segs, GoverningName(segs), |segs|) then eff.(sources := eff.sources + [ToLower(src)]) else eff
  {
    hide LastNamed, FirstNamed, GoverningName, SegVals, SegName, Fields, LowerAll, SandboxBlocks, Extended;
    var name := GoverningName(segs);
    GoverningOccurs(segs, name, k);
    var after := ExtendAt(segs, k, src);
    ExtendKeepsGoverning(segs, k, src);
    ExtendKeepsNames(segs, k, src, name, |segs|);
    ExtendKeepsNames(segs, k, src, "sandbox", |segs|);
    var last, sandbox := LastNamed(segs, name, |segs|), LastNamed(segs, "sandbox", |segs|);
    assert sandbox >= 0 ==> sandbox != k && after[sandbox] == segs[sandbox];
    if k == last {
      ExtendedFields(segs[k], src);
      LowerAllSnoc(SegVals(segs[k]), src);
    } else {
      assert after[last] == segs[last];
    }
  }

  lemma ScriptSrc(name: string)
    requires name == "script-src"
    ensures IsToken(name) && ToLower(name) == name
  {
  }

  // Every policy script-src a; script-src b hides the added source from the gate, which reads the second.
  lemma RepeatedDirectiveHidesTheSource(a: string, b: string, src: string)
    requires IsToken(a) && IsToken(b) && IsToken(src)
    ensures var policy := ("script-src " + a) + ";" + ("script-src " + b);
            && EffectiveOf(policy) == SourceList("script-src", [ToLower(b)], true, false)
            && EffectiveOf(Edited(policy, src)) == EffectiveOf(policy)
  {
    var name := "script-src";
    assert "script-src " + a == name + [' '] + a && "script-src " + b == name + [' '] + b;
    TwoDirectives(name, a, b);
    var policy := ("script-src " + a) + ";" + ("script-src " + b);
    EditAddsOneSource(policy, src);
  }

  lemma TwoDirectives(name: string, a: string, b: string)
    requires name == "script-src" && IsToken(a) && IsToken(b)
    ensures var policy := (name + [' '] + a) + [';'] + (name + [' '] + b);
            && Split(policy, ';') == [name + [' '] + a, name + [' '] + b]
            && EffectiveOf(policy) == SourceList(name, [ToLower(b)], true, false)
            && GoverningName(Split(policy, ';')) == name && FirstNamed(Split(policy, ';'), name, 0) == 0
            && SegVals(name + [' '] + a) == [a] && !GovernsOnce(policy)
  {
    ScriptSrc(name);
    var first, second := name + [' '] + a, name + [' '] + b;
    var policy := first + [';'] + second;
    SplitAtSeparator(first, second, ';');
    SplitAtSeparator(second, "", ';');
    var segs := [first, second];
    assert Split(policy, ';') == segs;
    TwoFields(name, a);
    TwoFields(name, b);
    OnlyNamed(segs, name);
    assert LowerAll([b]) == [ToLower(b)];
  }

  lemma OnlyNamed(segs: seq<string>, name: string)
    requires |segs| == 2 && SegName(segs[0]) == SegName(segs[1]) == name == "script-src"
    ensures LastNamed(segs, name, 2) == 1 && FirstNamed(segs, name, 0) == 0
    ensures GoverningName(segs) == name && LastNamed(segs, "sandbox", 2) == -1
  {
    assert !Has(segs, "script-src-elem");
  }

  lemma TwoFields(name: string, v: string)
    requires IsWord(name) && IsWord(v)
    ensures Fields(name + [' '] + v) == [name, v]
  {
    FieldsAcrossSpace(name, ' ', v);
    FieldsOfWord(name);
    FieldsOfWord(v);
  }
}
