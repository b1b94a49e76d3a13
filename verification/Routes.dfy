/** Pricing rules: which rule prices a path, and what a paid pass bought under it opens.
    (internal/bypass/bypass.go, internal/gate/gate.go, internal/gate/pay.go) */
module Routes {
  import opened Wrappers
  import opened Text

  // ---------------------------------------------------------------------------
  // Path patterns
  // ---------------------------------------------------------------------------

  function Stars(pattern: string): nat {
    if pattern == [] then 0 else (if pattern[0] == '*' then 1 else 0) + Stars(pattern[1..])
  }

  // Where the first star is; the length if there is none.
  function FirstStar(pattern: string): (n: nat)
    ensures n <= |pattern| && '*' !in pattern[..n] && (n < |pattern| ==> pattern[n] == '*')
  {
    if pattern == [] || pattern[0] == '*' then 0 else 1 + FirstStar(pattern[1..])
  }

  predicate MatchGlob(pattern: string, s: string) {
    var n := FirstStar(pattern);
    if n == |pattern| then pattern == s
    else
      var pre, post := pattern[..n], pattern[n + 1..];
      |s| >= |pre| + |post| && pre <= s && s[|s| - |post|..] == post
  }

  predicate Fills(run: string, pattern: string, s: string) {
    var n := FirstStar(pattern);
    n < |pattern| && s == pattern[..n] + run + pattern[n + 1..]
  }

  // A star stands for any run of characters, slashes included, and nothing else is special.
  lemma GlobMeansSubstitution(pattern: string, s: string)
    ensures '*' !in pattern ==> (MatchGlob(pattern, s) <==> s == pattern)
    ensures '*' in pattern ==> (MatchGlob(pattern, s) <==> exists run :: Fills(run, pattern, s))
  {
    var n := FirstStar(pattern);
    assert pattern[..|pattern|] == pattern;
    if n < |pattern| {
      var pre, post := pattern[..n], pattern[n + 1..];
      if MatchGlob(pattern, s) {
        SplitAround(pre, post, s);
        assert Fills(s[n..|s| - |post|], pattern, s);
      }
      if run :| Fills(run, pattern, s) {
        AroundRun(pre, run, post);
      }
    }
  }

  lemma SplitAround(pre: string, post: string, s: string)
    requires |s| >= |pre| + |post| && pre <= s && s[|s| - |post|..] == post
    ensures s == pre + s[|pre|..|s| - |post|] + post
  {
    var mid := s[|pre|..|s| - |post|];
    assert s == s[..|pre|] + mid + s[|s| - |post|..];
  }

  lemma AroundRun(pre: string, run: string, post: string)
    ensures var s := pre + run + post;
            pre <= s && s[|s| - |post|..] == post
  {
    var s := pre + run + post;
    assert s == (pre + run) + post;
  }

  // A compiled matcher accepts a path when some pattern does.
  method MatchPath(paths: seq<string>, path: string) returns (hit: bool)
    ensures hit <==> PathMatches(paths, path)
  {
    var i := 0;
    while i < |paths|
      invariant 0 <= i <= |paths|
      invariant forall k :: 0 <= k < i ==> !MatchGlob(paths[k], path)
    {
      if MatchGlob(paths[i], path) {
        return true;
      }
      i := i + 1;
    }
    return false;
  }

  predicate PathMatches(paths: seq<string>, path: string) {
    exists i :: 0 <= i < |paths| && MatchGlob(paths[i], path)
  }

  predicate ValidPattern(pattern: string) {
    Stars(pattern) <= 1 && pattern != [] && pattern[0] == '/'
  }

  // ---------------------------------------------------------------------------
  // Scopes
  // ---------------------------------------------------------------------------

  // Stands for the base64 SHA-256 of the JSON array of sorted paths. All the gate relies on is that
  // different lists have different digests, and that none is empty or the wildcard.
  function ScopeDigest(paths: seq<string>): (d: string)
    ensures d != "" && d != "*"
  {
    var d := "s" + Encode(paths);
    assert d[0] == 's';
    d
  }

  function Encode(paths: seq<string>): string
    decreases paths, 1
  {
    if paths == [] then "" else EncodeChars(paths[0]) + ";" + Encode(paths[1..])
  }

  function EncodeChars(path: string): string {
    if path == [] then "" else ['.', path[0]] + EncodeChars(path[1..])
  }

  function Decode(code: string): (paths: seq<string>)
    decreases |code|
  {
    if code == [] then []
    else if code[0] == ';' then [""] + Decode(code[1..])
    else if |code| < 2 then []
    else
      var rest := Decode(code[2..]);
      if rest == [] then [] else [[code[1]] + rest[0]] + rest[1..]
  }

  lemma {:induction false} DecodeChars(path: string, rest: string)
    ensures Decode(EncodeChars(path) + ";" + rest) == [path] + Decode(rest)
    decreases |path|
  {
    var code := EncodeChars(path) + ";" + rest;
    if path == [] {
      assert code == [';'] + rest;
    } else {
      assert code[2..] == EncodeChars(path[1..]) + ";" + rest;
      DecodeChars(path[1..], rest);
      assert [path[0]] + path[1..] == path;
    }
  }

  lemma {:induction false} DecodeOfEncode(paths: seq<string>)
    ensures Decode(Encode(paths)) == paths
  {
    if paths != [] {
      DecodeOfEncode(paths[1..]);
      DecodeChars(paths[0], Encode(paths[1..]));
    }
  }

  lemma DigestIsInjective(a: seq<string>, b: seq<string>)
    requires ScopeDigest(a) == ScopeDigest(b)
    ensures a == b
  {
    assert ScopeDigest(a)[1..] == Encode(a) && ScopeDigest(b)[1..] == Encode(b);
    DecodeOfEncode(a);
    DecodeOfEncode(b);
  }

  function ScopeOf(paths: seq<string>): string {
    ScopeDigest(SortStrings(paths))
  }

  // A scope names the patterns a rule sells, with their multiplicity and regardless of their order.
  lemma ScopeNamesThePatterns(a: seq<string>, b: seq<string>)
    ensures ScopeOf(a) == ScopeOf(b) <==> multiset(a) == multiset(b)
  {
    SortStringsSorts(a);
    SortStringsSorts(b);
    if ScopeOf(a) == ScopeOf(b) {
      DigestIsInjective(SortStrings(a), SortStrings(b));
    }
    if multiset(a) == multiset(b) {
      SortedIsUnique(SortStrings(a), SortStrings(b));
    }
  }

  // ---------------------------------------------------------------------------
  // Compiled routes
  // ---------------------------------------------------------------------------

  datatype Route = Route(name: string, paths: seq<string>, scope: string)
  datatype Rule = Rule(name: string, paths: seq<string>)

  predicate Compiled(rules: seq<Rule>, routes: seq<Route>) {
    && |routes| == |rules|
    && forall i :: 0 <= i < |rules| ==>
         routes[i] == Route(rules[i].name, rules[i].paths, ScopeOf(rules[i].paths))
  }

  method CompilePaidRoutes(rules: seq<Rule>) returns (r: Result<seq<Route>, string>)
    ensures r.Ok? <==> forall i, k :: 0 <= i < |rules| && 0 <= k < |rules[i].paths| ==> ValidPattern(rules[i].paths[k])
    ensures r.Ok? ==> Compiled(rules, r.value)
  {
    var routes: seq<Route> := [];
    var i := 0;
    while i < |rules|
      invariant 0 <= i <= |rules| && Compiled(rules[..i], routes)
      invariant forall j, k :: 0 <= j < i && 0 <= k < |rules[j].paths| ==> ValidPattern(rules[j].paths[k])
    {
      var k := 0;
      while k < |rules[i].paths|
        invariant 0 <= k <= |rules[i].paths|
        invariant forall m :: 0 <= m < k ==> ValidPattern(rules[i].paths[m])
      {
        if Stars(rules[i].paths[k]) > 1 {
          return Err("path pattern has more than one *");
        }
        if rules[i].paths[k] == [] || rules[i].paths[k][0] != '/' {
          return Err("path pattern must start with /");
        }
        k := k + 1;
      }
      routes := routes + [Route(rules[i].name, rules[i].paths, ScopeOf(rules[i].paths))];
      i := i + 1;
    }
    return Ok(routes);
  }

  // Route i prices the path: it matches and no earlier one does.
  predicate Prices(routes: seq<Route>, i: int, path: string) {
    && 0 <= i < |routes| && PathMatches(routes[i].paths, path)
    && forall j :: 0 <= j < i ==> !PathMatches(routes[j].paths, path)
  }

  method MatchRoute(routes: seq<Route>, path: string) returns (route: Option<Route>)
    ensures route.Some? ==> exists i :: Prices(routes, i, path) && route.value == routes[i]
    ensures route.None? ==> forall i :: !Prices(routes, i, path)
  {
    var i := 0;
    while i < |routes|
      invariant 0 <= i <= |routes|
      invariant forall j :: 0 <= j < i ==> !PathMatches(routes[j].paths, path)
    {
      var hit := MatchPath(routes[i].paths, path);
      if hit {
        assert Prices(routes, i, path);
        return Some(routes[i]);
      }
      i := i + 1;
    }
    return None;
  }

  // What a paid pass carrying `scope` opens: the paths whose first matching rule has that scope now.
  ghost predicate PaidScopeCovers(routes: seq<Route>, scope: string, path: string) {
    exists i :: Prices(routes, i, path) && routes[i].scope == scope
  }

  // A pass bought at a path opens exactly the paths priced by the very rule that priced the purchase.
  // A rule that repeats an earlier rule's patterns shares its scope but can never price anything.
  lemma PricingScopesNeverLeak(rules: seq<Rule>, routes: seq<Route>, i: nat, bought: string, path: string)
    requires Compiled(rules, routes) && Prices(routes, i, bought)
    ensures PaidScopeCovers(routes, routes[i].scope, path) <==> Prices(routes, i, path)
  {
    if j :| Prices(routes, j, path) && routes[j].scope == routes[i].scope {
      ScopeNamesThePatterns(rules[i].paths, rules[j].paths);
      SamePatternsSamePaths(rules[i].paths, rules[j].paths, path);
      SamePatternsSamePaths(rules[i].paths, rules[j].paths, bought);
    }
  }

  lemma SamePatternsSamePaths(a: seq<string>, b: seq<string>, path: string)
    requires multiset(a) == multiset(b)
    ensures PathMatches(a, path) <==> PathMatches(b, path)
  {
    forall s ensures s in a <==> s in b {
      assert s in multiset(a) <==> s in multiset(b);
    }
    if i :| 0 <= i < |a| && MatchGlob(a[i], path) {
      assert a[i] in b;
    }
    if i :| 0 <= i < |b| && MatchGlob(b[i], path) {
      assert b[i] in a;
    }
  }
}
