/** Slash-separated glob patterns, segment by segment. "**" stands for any
    number of path segments, also none; every other pattern segment stands for
    exactly one path segment, accepted by a per-segment relation. */
module Glob {

  type SegmentMatch = (string, string) -> bool

  /** The pattern matches the path. */
  predicate Matches(m: SegmentMatch, pattern: seq<string>, path: seq<string>)
    decreases |pattern|
  {
    if pattern == [] then path == []
    else if pattern[0] == "**" then exists i | 0 <= i <= |path| :: Matches(m, pattern[1..], path[i..])
    else path != [] && m(pattern[0], path[0]) && Matches(m, pattern[1..], path[1..])
  }

  /** What one pattern segment takes of a path. */
  ghost predicate Accepts(m: SegmentMatch, segment: string, piece: seq<string>) {
    segment == "**" || (|piece| == 1 && m(segment, piece[0]))
  }

  function Concat(pieces: seq<seq<string>>): seq<string> {
    if pieces == [] then [] else pieces[0] + Concat(pieces[1..])
  }

  /** The path is cut into one accepted piece for each pattern segment. */
  ghost predicate Divides(m: SegmentMatch, pattern: seq<string>, path: seq<string>, pieces: seq<seq<string>>) {
    && |pieces| == |pattern|
    && Concat(pieces) == path
    && forall k | 0 <= k < |pattern| :: Accepts(m, pattern[k], pieces[k])
  }

  /** What the recursive relation says: some way to cut the path into pieces
      gives every pattern segment a piece it accepts. */
  lemma MatchesIffDivides(m: SegmentMatch, pattern: seq<string>, path: seq<string>)
    ensures Matches(m, pattern, path) <==> exists pieces :: Divides(m, pattern, path, pieces)
  {
    if Matches(m, pattern, path) {
      var pieces := Division(m, pattern, path);
    }
    if pieces :| Divides(m, pattern, path, pieces) {
      DivisionMatches(m, pattern, path, pieces);
    }
  }

  lemma {:induction false} Division(m: SegmentMatch, pattern: seq<string>, path: seq<string>)
    returns (pieces: seq<seq<string>>)
    requires Matches(m, pattern, path)
    ensures Divides(m, pattern, path, pieces)
    decreases |pattern|
  {
    if pattern == [] {
      pieces := [];
    } else {
      var i: nat := 1;
      if pattern[0] == "**" {
        i :| 0 <= i <= |path| && Matches(m, pattern[1..], path[i..]);
      }
      var rest := Division(m, pattern[1..], path[i..]);
      pieces := [path[..i]] + rest;
      assert pieces[1..] == rest;
      assert path == path[..i] + path[i..];
      forall k | 0 <= k < |pattern|
        ensures Accepts(m, pattern[k], pieces[k])
      {
        if k > 0 {
          assert Accepts(m, pattern[1..][k - 1], rest[k - 1]);
        }
      }
    }
  }

  lemma {:induction false} DivisionMatches(m: SegmentMatch, pattern: seq<string>, path: seq<string>,
      pieces: seq<seq<string>>)
    requires Divides(m, pattern, path, pieces)
    ensures Matches(m, pattern, path)
    decreases |pattern|
  {
    if pattern != [] {
      var i := |pieces[0]|;
      assert Accepts(m, pattern[0], pieces[0]);
      assert path[i..] == Concat(pieces[1..]);
      forall k | 0 <= k < |pattern| - 1
        ensures Accepts(m, pattern[1..][k], pieces[1..][k])
      {
        assert Accepts(m, pattern[k + 1], pieces[k + 1]);
      }
      DivisionMatches(m, pattern[1..], path[i..], pieces[1..]);
    }
  }

  /** A leading "**" is satisfied by dropping any part of the path. */
  lemma StarStarDrops(m: SegmentMatch, q: seq<string>, path: seq<string>)
    ensures Matches(m, ["**"] + q, path) <==> exists i | 0 <= i <= |path| :: Matches(m, q, path[i..])
  {
    assert (["**"] + q)[1..] == q;
  }

  /** Doubling a "**" never changes the answer. */
  lemma {:induction false} DoubledStarStar(m: SegmentMatch, p: seq<string>, q: seq<string>, path: seq<string>)
    ensures Matches(m, p + ["**", "**"] + q, path) <==> Matches(m, p + ["**"] + q, path)
    decreases |p|
  {
    var twice, once := p + ["**", "**"] + q, p + ["**"] + q;
    if p == [] {
      var tail := ["**"] + q;
      assert twice == ["**"] + tail && once == tail;
      StarStarDrops(m, tail, path);
      StarStarDrops(m, q, path);
      if Matches(m, twice, path) {
        var i :| 0 <= i <= |path| && Matches(m, tail, path[i..]);
        StarStarDrops(m, q, path[i..]);
        var j :| 0 <= j <= |path[i..]| && Matches(m, q, path[i..][j..]);
        assert path[i..][j..] == path[i + j..];
      } else {
        assert path[0..] == path;
      }
    } else {
      var p' := p[1..];
      assert twice[1..] == p' + ["**", "**"] + q && once[1..] == p' + ["**"] + q;
      forall x: seq<string> {
        DoubledStarStar(m, p', q, x);
      }
    }
  }

  /** The segment stands for itself. */
  ghost predicate Literal(m: SegmentMatch, segment: string) {
    segment != "**" && forall x :: m(segment, x) <==> x == segment
  }

  ghost predicate Literals(m: SegmentMatch, pattern: seq<string>) {
    forall s | s in pattern :: Literal(m, s)
  }

  /** Literal segments match themselves, whatever follows. */
  lemma {:induction false} LiteralFront(m: SegmentMatch, front: seq<string>, rest: seq<string>, path: seq<string>)
    requires Literals(m, front)
    ensures Matches(m, front + rest, path) <==> front <= path && Matches(m, rest, path[|front|..])
    decreases |front|
  {
    if front == [] {
      assert front + rest == rest && path[0..] == path;
    } else {
      assert front[0] in front && Literal(m, front[0]);
      assert (front + rest)[1..] == front[1..] + rest;
      assert forall s | s in front[1..] :: s in front;
      if path != [] {
        LiteralFront(m, front[1..], rest, path[1..]);
        assert front <= path <==> front[0] == path[0] && front[1..] <= path[1..];
        if front <= path {
          assert path[1..][|front| - 1..] == path[|front|..];
        }
      }
    }
  }

  /** What the common patterns mean: a literal one only itself, one with "**"
      behind it everything from there down, one with a single wildcard behind it
      everything one level below. */
  lemma CommonPatterns(m: SegmentMatch, front: seq<string>, path: seq<string>)
    requires Literals(m, front)
    ensures Matches(m, front, path) <==> path == front
    ensures Matches(m, front + ["**"], path) <==> front <= path
    ensures (forall x :: m("*", x)) ==>
              (Matches(m, front + ["*"], path) <==> front <= path && |path| == |front| + 1)
  {
    LiteralFront(m, front, [], path);
    assert front + [] == front;
    LiteralFront(m, front, ["**"], path);
    LiteralFront(m, front, ["*"], path);
    assert ["**"][1..] == [] && ["*"][1..] == [];
    if front <= path {
      var below := path[|front|..];
      assert below[|below|..] == [];
      assert Matches(m, ["**"][1..], below[|below|..]);
    }
  }
}
