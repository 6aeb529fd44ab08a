/** Path scopes of API access tokens (internal/service/token.go). */
module TokenScopes {
  import opened Strings
  import opened Glob

  /** A token may do `operations` on the paths that `path` matches. */
  datatype TokenScope = TokenScope(path: string, operations: seq<string>)

  /** One pattern segment of a scope: "*" takes any segment. */
  predicate ScopeSegment(pattern: string, segment: string) {
    pattern == "*" || pattern == segment
  }

  ghost predicate ScopeMatches(pattern: seq<string>, path: seq<string>) {
    Matches(ScopeSegment, pattern, path)
  }

  /** The backtracking matcher decides the glob relation. */
  method MatchPathParts(pattern: seq<string>, path: seq<string>) returns (r: bool)
    ensures r == ScopeMatches(pattern, path)
    decreases |pattern|
  {
    var pi, pp := 0, 0;
    while pi < |pattern| && pp < |path|
      invariant 0 <= pi <= |pattern| && 0 <= pp <= |path|
      invariant ScopeMatches(pattern, path) == ScopeMatches(pattern[pi..], path[pp..])
    {
      assert pattern[pi..][1..] == pattern[pi + 1..] && path[pp..][1..] == path[pp + 1..];
      if pattern[pi] == "**" {
        if pi == |pattern| - 1 {
          assert path[pp..][|path| - pp..] == [];
          assert Matches(ScopeSegment, pattern[pi..][1..], path[pp..][|path| - pp..]);
          return true;
        }
        var i := pp;
        while i <= |path|
          invariant pp <= i <= |path| + 1
          invariant forall j | pp <= j < i :: !ScopeMatches(pattern[pi + 1..], path[j..])
        {
          var rest := MatchPathParts(pattern[pi + 1..], path[i..]);
          if rest {
            assert path[pp..][i - pp..] == path[i..];
            return true;
          }
          i := i + 1;
        }
        assert forall j | 0 <= j <= |path[pp..]| :: path[pp..][j..] == path[pp + j..];
        return false;
      }
      if pattern[pi] == "*" {
        pi, pp := pi + 1, pp + 1;
        continue;
      }
      if pattern[pi] != path[pp] {
        return false;
      }
      pi, pp := pi + 1, pp + 1;
    }
    while pi < |pattern|
      invariant 0 <= pi <= |pattern| && 0 <= pp <= |path|
      invariant pi < |pattern| ==> pp == |path|
      invariant ScopeMatches(pattern, path) == ScopeMatches(pattern[pi..], path[pp..])
    {
      assert path[pp..] == [];
      assert pattern[pi..][1..] == pattern[pi + 1..];
      if pattern[pi] != "**" {
        return false;
      }
      assert forall i | 0 <= i <= |path[pp..]| :: path[pp..][i..] == path[pp..];
      assert path[pp..][0..] == path[pp..];
      pi := pi + 1;
    }
    return pp == |path|;
  }

  function Segments(path: string): seq<string> {
    Split(Trim(path, '/'), '/')
  }

  /** The segments of a path: joined again they are the path without its outer
      slashes. */
  lemma SegmentsExact(path: string) returns (left: string, right: string)
    ensures path == left + Join(Segments(path), '/') + right && Only(left, '/') && Only(right, '/')
    ensures Free(Segments(path), '/')
    ensures var core := Join(Segments(path), '/'); core != "" ==> core[0] != '/' && core[|core| - 1] != '/'
  {
    left, right := TrimCut(path, '/');
    JoinSplit(Trim(path, '/'), '/');
  }

  /** In a scope "*" takes any one segment, "**" any number of them, and every
      other segment itself. */
  lemma ScopePatterns(front: seq<string>, path: seq<string>)
    requires "*" !in front && "**" !in front
    ensures ScopeMatches(front, path) <==> path == front
    ensures ScopeMatches(front + ["**"], path) <==> front <= path
    ensures ScopeMatches(front + ["*"], path) <==> front <= path && |path| == |front| + 1
  {
    CommonPatterns(ScopeSegment, front, path);
  }

  method MatchPath(pattern: string, path: string) returns (r: bool)
    ensures r <==> pattern == "*" || ScopeMatches(Segments(pattern), Segments(path))
  {
    if pattern == "*" || pattern == "**" {
      if pattern == "**" {
        WildcardMatchesAll(Segments(path));
        assert IndexOf("**", '/') == None;
      }
      return true;
    }
    r := MatchPathParts(Segments(pattern), Segments(path));
  }

  lemma WildcardMatchesAll(path: seq<string>)
    ensures ScopeMatches(["**"], path)
  {
    assert path[|path|..] == [];
    assert Matches(ScopeSegment, ["**"][1..], path[|path|..]);
  }

  /** "*" is documented to take exactly one segment, and inside a pattern it
      does. As a whole pattern it is accepted for every path: the answer is the
      documented one for every pattern and path except a lone "*" on a path of
      several segments. */
  lemma LoneStarOverreaches(pattern: string, path: string)
    ensures (pattern == "*" || ScopeMatches(Segments(pattern), Segments(path)))
         == ScopeMatches(Segments(pattern), Segments(path))
       <==> !(pattern == "*" && |Segments(path)| > 1)
  {
    if pattern == "*" {
      assert Segments(pattern) == ["*"] by {
        assert IndexOf("*", '/') == None;
      }
      assert ["*"][1..] == [];
      assert Segments(path) != [];
    }
  }

  lemma TwoSegments(a: string, b: string)
    requires '/' !in a && '/' !in b && a != "" && b != ""
    ensures Segments(a + ['/'] + b) == [a, b]
  {
    var path := a + ['/'] + b;
    assert TrimLeft(path, '/') == path && TrimRight(path, '/') == path;
    SplitFirst(a, b, '/');
    SplitJoin([b], '/');
  }

  /** For instance "*" is accepted for "a/b", where it takes one segment only. */
  lemma LoneStarExample(pattern: string, path: string)
    requires pattern == "*" && |path| == 3 && path[..1] == "a" && path[1] == '/' && path[2..] == "b"
    ensures |Segments(path)| == 2 && !ScopeMatches(Segments(pattern), Segments(path))
  {
    TwoSegments(path[..1], path[2..]);
    assert path == path[..1] + ['/'] + path[2..];
    LoneStarOverreaches(pattern, path);
  }

  method ContainsOperation(ops: seq<string>, op: string) returns (r: bool)
    ensures r <==> op in ops || "*" in ops
  {
    for i := 0 to |ops|
      invariant op !in ops[..i] && "*" !in ops[..i]
    {
      if ops[i] == op || ops[i] == "*" {
        return true;
      }
    }
    assert ops[..|ops|] == ops;
    return false;
  }

  /** The scope permits the operation on the path. */
  ghost predicate ScopeAllows(scope: TokenScope, path: string, operation: string) {
    && (scope.path == "*" || ScopeMatches(Segments(scope.path), Segments(path)))
    && (operation in scope.operations || "*" in scope.operations)
  }

  /** A token's reach is the union of its scopes: the path and the operation
      must be granted by one and the same scope. */
  method TokenScopesAllow(scopes: seq<TokenScope>, path: string, operation: string) returns (r: bool)
    ensures r <==> exists s | s in scopes :: ScopeAllows(s, path, operation)
  {
    for i := 0 to |scopes|
      invariant forall s | s in scopes[..i] :: !ScopeAllows(s, path, operation)
    {
      var onPath := MatchPath(scopes[i].path, path);
      if onPath {
        var hasOperation := ContainsOperation(scopes[i].operations, operation);
        if hasOperation {
          assert scopes[i] in scopes;
          return true;
        }
      }
      TakeNext(scopes, i);
    }
    assert scopes[..|scopes|] == scopes;
    return false;
  }

  /** A scope for every path allows the operations it lists, or all if it lists
      "*"; and a scope that lists none allows nothing. */
  lemma OperationsAllowed(ops: seq<string>, path: string, op: string)
    ensures ScopeAllows(TokenScope("**", ops), path, op) <==> op in ops || "*" in ops
    ensures ScopeAllows(TokenScope(path, []), path, op) == false
  {
    WildcardMatchesAll(Segments(path));
    assert IndexOf("**", '/') == None;
    assert Segments("**") == ["**"];
  }
}
