/** Path patterns that scope a capability, and the check that lets a user walk
    down to a permitted path (internal/service/capabilities.go). A pattern is
    matched segment by segment; the relation `m` is what the glob library answers
    for one pattern segment and one path segment, a malformed segment matching
    nothing. */
module Capabilities {
  import opened Strings
  import opened Glob

  /** Patterns by capability key. A key that is absent, or has no patterns, is
      unrestricted; the source's nil map is the empty map. */
  type CapabilityPatterns = map<string, seq<string>>

  /** A whole pattern against a whole path. */
  predicate PatternMatches(m: SegmentMatch, pattern: string, path: string) {
    Matches(m, Split(pattern, '/'), Split(path, '/'))
  }

  ghost predicate Permits(m: SegmentMatch, cp: CapabilityPatterns, key: string, path: string) {
    || key !in cp
    || cp[key] == []
    || path == ""
    || exists pat | pat in cp[key] :: PatternMatches(m, pat, TrimLeft(path, '/'))
  }

  ghost predicate CanBeMet(m: SegmentMatch, segment: string) {
    segment == "**" || exists s :: m(segment, s)
  }

  /** Every segment of the pattern can be met by some path segment. */
  ghost predicate Satisfiable(m: SegmentMatch, pattern: seq<string>) {
    forall i | 0 <= i < |pattern| :: CanBeMet(m, pattern[i])
  }

  /** A directory on the way to something the pattern matches. */
  ghost predicate LeadsTo(m: SegmentMatch, pattern: seq<string>, path: seq<string>) {
    exists rest: seq<string> :: rest != [] && Matches(m, pattern, path + rest)
  }

  /** What the loop decides, on segments. */
  ghost predicate AncestorOf(m: SegmentMatch, pattern: seq<string>, path: seq<string>)
    decreases |path|
  {
    if path == [] then pattern != []
    else pattern != [] && (pattern[0] == "**" || (m(pattern[0], path[0]) && AncestorOf(m, pattern[1..], path[1..])))
  }

  method IsAncestorOfPattern(m: SegmentMatch, pathSegs: seq<string>, pattern: string) returns (r: bool)
    ensures r == AncestorOf(m, Split(pattern, '/'), pathSegs)
  {
    var patSegs := Split(pattern, '/');
    var pi := 0;
    for i := 0 to |pathSegs|
      invariant pi == i <= |patSegs|
      invariant AncestorOf(m, patSegs, pathSegs) == AncestorOf(m, patSegs[pi..], pathSegs[i..])
    {
      if pi >= |patSegs| {
        return false;
      }
      var ps := patSegs[pi];
      assert patSegs[pi..][1..] == patSegs[pi + 1..] && pathSegs[i..][1..] == pathSegs[i + 1..];
      if ps == "**" {
        return true;
      }
      if !m(ps, pathSegs[i]) {
        return false;
      }
      pi := pi + 1;
    }
    return pi < |patSegs|;
  }

  /** The check never hides a directory that leads to a permitted path. */
  lemma {:induction false} AncestorComplete(m: SegmentMatch, pattern: seq<string>, path: seq<string>)
    requires LeadsTo(m, pattern, path)
    ensures AncestorOf(m, pattern, path)
    decreases |path|
  {
    var rest: seq<string> :| rest != [] && Matches(m, pattern, path + rest);
    if path == [] {
      assert path + rest == rest;
    } else if pattern != [] && pattern[0] != "**" {
      assert (path + rest)[1..] == path[1..] + rest;
      AncestorComplete(m, pattern[1..], path[1..]);
    }
  }

  /** A pattern with satisfiable segments matches some non-empty path. */
  lemma {:induction false} Inhabited(m: SegmentMatch, pattern: seq<string>) returns (path: seq<string>)
    requires Satisfiable(m, pattern) && pattern != []
    ensures path != [] && Matches(m, pattern, path)
    decreases |pattern|
  {
    assert CanBeMet(m, pattern[0]);
    var tail: seq<string> := [];
    if |pattern| > 1 {
      tail := Inhabited(m, pattern[1..]);
    }
    assert Matches(m, pattern[1..], tail);
    var first := "";
    if pattern[0] != "**" {
      first :| m(pattern[0], first);
    }
    path := [first] + tail;
    assert path[1..] == tail;
  }

  /** And it never shows one that leads nowhere, as long as the pattern's
      segments can be met. */
  lemma {:induction false} AncestorSound(m: SegmentMatch, pattern: seq<string>, path: seq<string>)
    requires Satisfiable(m, pattern) && AncestorOf(m, pattern, path)
    ensures LeadsTo(m, pattern, path)
    decreases |path|
  {
    if path == [] {
      var rest := Inhabited(m, pattern);
      assert path + rest == rest;
    } else if pattern[0] == "**" {
      var rest := Inhabited(m, pattern);
      var i :| 0 <= i <= |rest| && Matches(m, pattern[1..], rest[i..]);
      assert (path + rest)[|path| + i..] == rest[i..];
    } else {
      AncestorSound(m, pattern[1..], path[1..]);
      var rest: seq<string> :| rest != [] && Matches(m, pattern[1..], path[1..] + rest);
      assert (path + rest)[1..] == path[1..] + rest;
    }
  }

  function SplitSegments(p: string): seq<string> {
    if p == "" then [] else Split(p, '/')
  }

  method Allows(m: SegmentMatch, cp: CapabilityPatterns, key: string, path: string) returns (r: bool)
    ensures r == Permits(m, cp, key, path)
  {
    if key !in cp || |cp[key]| == 0 {
      return true;
    }
    if path == "" {
      return true;
    }
    var clean := TrimLeft(path, '/');
    for i := 0 to |cp[key]|
      invariant forall pat | pat in cp[key][..i] :: !PatternMatches(m, pat, clean)
    {
      if PatternMatches(m, cp[key][i], clean) {
        assert cp[key][i] in cp[key];
        return true;
      }
      TakeNext(cp[key], i);
    }
    assert cp[key][..|cp[key]|] == cp[key];
    return false;
  }

  /** The answer of AllowsAncestor: the path, or a directory above it. */
  ghost predicate PermitsAncestor(m: SegmentMatch, cp: CapabilityPatterns, key: string, path: string) {
    || Permits(m, cp, key, path)
    || exists pat | pat in cp[key] :: AncestorOf(m, Split(pat, '/'), SplitSegments(Trim(path, '/')))
  }

  method AllowsAncestor(m: SegmentMatch, cp: CapabilityPatterns, key: string, path: string) returns (r: bool)
    ensures r == PermitsAncestor(m, cp, key, path)
  {
    r := Allows(m, cp, key, path);
    if r {
      return true;
    }
    var pats := cp[key];
    if |pats| == 0 {
      return true;
    }
    var pathSegs := SplitSegments(Trim(path, '/'));
    for i := 0 to |pats|
      invariant forall pat | pat in pats[..i] :: !AncestorOf(m, Split(pat, '/'), pathSegs)
    {
      var up := IsAncestorOfPattern(m, pathSegs, pats[i]);
      if up {
        assert pats[i] in cp[key];
        return true;
      }
      TakeNext(pats, i);
    }
    assert pats[..|pats|] == pats;
    return false;
  }

  /** With satisfiable patterns, AllowsAncestor accepts exactly the permitted
      paths and the directories on the way to something a pattern matches. */
  lemma AncestorExact(m: SegmentMatch, cp: CapabilityPatterns, key: string, path: string)
    requires key in cp ==> forall pat | pat in cp[key] :: Satisfiable(m, Split(pat, '/'))
    ensures PermitsAncestor(m, cp, key, path) <==>
              (|| Permits(m, cp, key, path)
               || exists pat | pat in cp[key] :: LeadsTo(m, Split(pat, '/'), SplitSegments(Trim(path, '/'))))
  {
    if !Permits(m, cp, key, path) {
      var segs := SplitSegments(Trim(path, '/'));
      forall pat | pat in cp[key]
        ensures AncestorOf(m, Split(pat, '/'), segs) <==> LeadsTo(m, Split(pat, '/'), segs)
      {
        if AncestorOf(m, Split(pat, '/'), segs) {
          AncestorSound(m, Split(pat, '/'), segs);
        }
        if LeadsTo(m, Split(pat, '/'), segs) {
          AncestorComplete(m, Split(pat, '/'), segs);
        }
      }
    }
  }

  /** On strings, for every pattern set: whoever may read "dir/rest" may list
      "dir", however many slashes surround the directory's name. */
  lemma ParentOfPermitted(m: SegmentMatch, cp: CapabilityPatterns, key: string, dir: string, rest: string)
    requires Permits(m, cp, key, Trim(dir, '/') + "/" + rest)
    ensures PermitsAncestor(m, cp, key, dir)
  {
    var d := Trim(dir, '/');
    var below := d + "/" + rest;
    if !Permits(m, cp, key, dir) {
      var pat :| pat in cp[key] && PatternMatches(m, pat, TrimLeft(below, '/'));
      var pattern := Split(pat, '/');
      if d == "" {
        assert AncestorOf(m, pattern, []);
      } else {
        assert TrimLeft(below, '/') == below;
        assert below == d + ['/'] + rest;
        SplitConcat(d, rest, '/');
        assert Matches(m, pattern, Split(d, '/') + Split(rest, '/'));
        assert LeadsTo(m, pattern, Split(d, '/'));
        AncestorComplete(m, pattern, Split(d, '/'));
      }
    }
  }

  /** When patterns do not limit: no map entry, no patterns, the empty path. */
  lemma Unlimited(m: SegmentMatch, cp: CapabilityPatterns, key: string, path: string)
    ensures key !in cp || cp[key] == [] || path == "" ==> Permits(m, cp, key, path)
    ensures key in cp && cp[key] != [] && path != "" && Permits(m, cp, key, path) ==>
              exists pat | pat in cp[key] :: Permits(m, map[key := [pat]], key, path)
  {
    if key in cp && cp[key] != [] && path != "" && Permits(m, cp, key, path) {
      var pat :| pat in cp[key] && PatternMatches(m, pat, TrimLeft(path, '/'));
      assert pat in [pat];
    }
  }

  /** What a single pattern permits: a directory only itself, and with "**" below
      it also everything there, slashes in front of the path aside. */
  lemma DirectoryPatterns(m: SegmentMatch, key: string, dir: string, path: string)
    requires Literals(m, Split(dir, '/')) && path != ""
    ensures var clean := TrimLeft(path, '/');
            && (Permits(m, map[key := [dir]], key, path) <==> clean == dir)
            && (Permits(m, map[key := [dir + "/" + "**"]], key, path) <==>
                  clean == dir || dir + "/" <= clean)
  {
    var clean := TrimLeft(path, '/');
    OnePattern(m, key, dir, path);
    OnePattern(m, key, dir + "/" + "**", path);
    DirectoryMatches(m, dir, clean);
  }

  lemma OnePattern(m: SegmentMatch, key: string, pat: string, path: string)
    requires path != ""
    ensures Permits(m, map[key := [pat]], key, path) <==> PatternMatches(m, pat, TrimLeft(path, '/'))
  {
    assert pat in [pat];
  }

  lemma DirectoryMatches(m: SegmentMatch, dir: string, path: string)
    requires Literals(m, Split(dir, '/'))
    ensures PatternMatches(m, dir, path) <==> path == dir
    ensures PatternMatches(m, dir + "/" + "**", path) <==> path == dir || dir + "/" <= path
  {
    CommonPatterns(m, Split(dir, '/'), Split(path, '/'));
    JoinSplit(path, '/');
    JoinSplit(dir, '/');
    WildcardBelow(dir, "**");
    BelowDirectory(dir, path);
  }

  lemma WildcardBelow(dir: string, w: string)
    requires '/' !in w
    ensures Split(dir + "/" + w, '/') == Split(dir, '/') + [w]
  {
    SplitConcat(dir, w, '/');
    assert dir + "/" + w == dir + ['/'] + w;
  }

  lemma BelowDirectory(dir: string, path: string)
    ensures Split(dir, '/') <= Split(path, '/') <==> path == dir || dir + "/" <= path
  {
    if dir + "/" <= path {
      BelowSegments(dir, path[|dir| + 1..]);
      assert path == dir + ['/'] + path[|dir| + 1..];
    }
    if Split(dir, '/') <= Split(path, '/') {
      SegmentsBelow(dir, path);
    }
  }

  lemma BelowSegments(dir: string, rest: string)
    ensures Split(dir, '/') <= Split(dir + ['/'] + rest, '/')
  {
    SplitConcat(dir, rest, '/');
  }

  lemma SegmentsBelow(dir: string, path: string)
    requires Split(dir, '/') <= Split(path, '/')
    ensures path == dir || dir + "/" <= path
  {
    var front, segs := Split(dir, '/'), Split(path, '/');
    JoinSplit(path, '/');
    JoinSplit(dir, '/');
    if front != segs {
      var rest := segs[|front|..];
      assert segs == front + rest;
      JoinConcat(front, rest, '/');
      assert dir + ['/'] == dir + "/";
    }
  }
}
