/** Merging permission bundles into one capability set
    (internal/service/permission.go). */
module Permissions {
  import opened Strings
  import opened Glob
  import opened Capabilities

  /** A bundle grants `keys`; `keyPatterns` scopes some of them to paths. */
  datatype Permission = Permission(keys: seq<string>, keyPatterns: map<string, seq<string>>)
  {
    /** The patterns of a key, none meaning unrestricted. */
    function PatternsOf(key: string): seq<string> {
      if key in keyPatterns then keyPatterns[key] else []
    }
  }

  ghost predicate Granted(perms: seq<Permission>, key: string) {
    exists p | p in perms :: key in p.keys
  }

  /** Some bundle grants the key without patterns. */
  ghost predicate Unrestricted(perms: seq<Permission>, key: string) {
    exists p | p in perms :: key in p.keys && p.PatternsOf(key) == []
  }

  /** `acc` followed by what `more` adds to it, each string once. */
  function AppendNew(acc: seq<string>, more: seq<string>): (r: seq<string>)
    ensures forall x :: x in r <==> x in acc || x in more
    ensures (forall i, j | 0 <= i < j < |acc| :: acc[i] != acc[j]) ==> forall i, j | 0 <= i < j < |r| :: r[i] != r[j]
  {
    if more == [] then acc
    else
      var r := AppendNew(acc, more[..|more| - 1]);
      var x := more[|more| - 1];
      assert more == more[..|more| - 1] + [x];
      if x in r then r else r + [x]
  }

  /** Every granted key, in order of first appearance. */
  function KeysOf(perms: seq<Permission>): (r: seq<string>)
    ensures forall i, j | 0 <= i < j < |r| :: r[i] != r[j]
    ensures forall k :: k in r <==> Granted(perms, k)
  {
    if perms == [] then []
    else
      assert perms == perms[..|perms| - 1] + [perms[|perms| - 1]];
      AppendNew(KeysOf(perms[..|perms| - 1]), perms[|perms| - 1].keys)
  }

  /** The patterns any bundle has for the key, in order of first appearance. */
  function UnionPatterns(perms: seq<Permission>, key: string): (r: seq<string>)
    ensures forall x :: x in r <==> exists p | p in perms :: x in p.PatternsOf(key)
  {
    if perms == [] then []
    else
      assert perms == perms[..|perms| - 1] + [perms[|perms| - 1]];
      AppendNew(UnionPatterns(perms[..|perms| - 1], key), perms[|perms| - 1].PatternsOf(key))
  }

  /** The keys some bundle carries patterns for. */
  ghost function PatternKeys(perms: seq<Permission>): set<string> {
    set p, k | p in perms && k in p.keyPatterns :: k
  }

  /** The patterns of every key that is granted, and never without patterns. */
  ghost function MergedPatterns(perms: seq<Permission>): CapabilityPatterns {
    map k | k in PatternKeys(perms) && Granted(perms, k) && !Unrestricted(perms, k) && UnionPatterns(perms, k) != []
      :: UnionPatterns(perms, k)
  }

  /** The same without the filter on granted keys. */
  ghost function ResolvedPatterns(perms: seq<Permission>): CapabilityPatterns {
    map k | k in PatternKeys(perms) && !Unrestricted(perms, k) && UnionPatterns(perms, k) != []
      :: UnionPatterns(perms, k)
  }

  // ---- The loops ----

  method UnrestrictedKeys(perms: seq<Permission>) returns (unrestricted: set<string>)
    ensures forall k :: k in unrestricted <==> Unrestricted(perms, k)
  {
    unrestricted := {};
    for i := 0 to |perms|
      invariant forall k :: k in unrestricted <==> Unrestricted(perms[..i], k)
    {
      var p := perms[i];
      for j := 0 to |p.keys|
        invariant forall k :: k in unrestricted <==>
                    Unrestricted(perms[..i], k) || (k in p.keys[..j] && p.PatternsOf(k) == [])
      {
        if |p.PatternsOf(p.keys[j])| == 0 {
          unrestricted := unrestricted + {p.keys[j]};
        }
        TakeNext(p.keys, j);
      }
      assert p.keys[..|p.keys|] == p.keys;
      TakeNext(perms, i);
    }
    assert perms[..|perms|] == perms;
  }

  /** One bundle's patterns for one key are appended to those found so far. */
  method AppendPatterns(existing: seq<string>, pats: seq<string>) returns (r: seq<string>)
    ensures r == AppendNew(existing, pats)
  {
    var has := set x | x in existing;
    r := existing;
    for j := 0 to |pats|
      invariant r == AppendNew(existing, pats[..j])
      invariant has == set x | x in r
    {
      TakeNext(pats, j);
      if pats[j] !in has {
        has := has + {pats[j]};
        r := r + [pats[j]];
      }
    }
    assert pats[..|pats|] == pats;
  }

  /** A missing key reads as no patterns, as in a Go map. */
  function Lookup(patterns: CapabilityPatterns, key: string): seq<string> {
    if key in patterns then patterns[key] else []
  }

  /** The keys whose patterns are not collected. */
  predicate Skipped(unrestricted: set<string>, only: Option<set<string>>, key: string) {
    key in unrestricted || (only.Some? && key !in only.value)
  }

  method VisitKey(found: CapabilityPatterns, key: string, pats: seq<string>) returns (patterns: CapabilityPatterns)
    requires pats != [] && forall k | k in found :: found[k] != []
    ensures forall k | k in patterns :: patterns[k] != []
    ensures forall k :: Lookup(patterns, k) == if k == key then AppendNew(Lookup(found, k), pats) else Lookup(found, k)
  {
    var all := AppendPatterns(Lookup(found, key), pats);
    assert pats[0] in all;
    patterns := found[key := all];
  }

  /** One bundle's contribution, in whatever order its map is iterated. */
  method VisitBundle(p: Permission, unrestricted: set<string>, only: Option<set<string>>, found: CapabilityPatterns)
    returns (patterns: CapabilityPatterns)
    requires forall k | k in found :: found[k] != []
    ensures forall k | k in patterns :: patterns[k] != []
    ensures forall k :: Lookup(patterns, k) ==
              if Skipped(unrestricted, only, k) then Lookup(found, k) else AppendNew(Lookup(found, k), p.PatternsOf(k))
  {
    patterns := found;
    var todo := p.keyPatterns.Keys;
    while todo != {}
      invariant todo <= p.keyPatterns.Keys
      invariant forall k | k in patterns :: patterns[k] != []
      invariant forall k :: Lookup(patterns, k) ==
                  if Skipped(unrestricted, only, k) || k in todo then Lookup(found, k)
                  else AppendNew(Lookup(found, k), p.PatternsOf(k))
    {
      var k :| k in todo;
      todo := todo - {k};
      if !Skipped(unrestricted, only, k) && |p.keyPatterns[k]| != 0 {
        patterns := VisitKey(patterns, k, p.keyPatterns[k]);
      }
    }
  }

  /** The second pass: the union of the patterns of every key of `only` that is
      not unrestricted. */
  method CollectPatterns(perms: seq<Permission>, unrestricted: set<string>, only: Option<set<string>>)
    returns (patterns: CapabilityPatterns)
    ensures forall k | k in patterns :: patterns[k] != []
    ensures forall k :: Lookup(patterns, k) == if Skipped(unrestricted, only, k) then [] else UnionPatterns(perms, k)
  {
    patterns := map[];
    for i := 0 to |perms|
      invariant forall k | k in patterns :: patterns[k] != []
      invariant forall k :: Lookup(patterns, k) ==
                  if Skipped(unrestricted, only, k) then [] else UnionPatterns(perms[..i], k)
    {
      TakeNext(perms, i);
      patterns := VisitBundle(perms[i], unrestricted, only, patterns);
    }
    assert perms[..|perms|] == perms;
  }

  /** The first pass over one bundle. */
  method AppendKeys(keys: seq<string>, seen: set<string>, more: seq<string>)
    returns (keys': seq<string>, seen': set<string>)
    requires forall k :: k in seen <==> k in keys
    ensures keys' == AppendNew(keys, more) && forall k :: k in seen' <==> k in keys'
  {
    keys', seen' := keys, seen;
    for j := 0 to |more|
      invariant keys' == AppendNew(keys, more[..j])
      invariant forall k :: k in seen' <==> k in keys'
    {
      TakeNext(more, j);
      if more[j] !in seen' {
        seen' := seen' + {more[j]};
        keys' := keys' + [more[j]];
      }
    }
    assert more[..|more|] == more;
  }

  method CollectKeys(perms: seq<Permission>) returns (keys: seq<string>, seen: set<string>)
    ensures keys == KeysOf(perms) && forall k :: k in seen <==> k in keys
  {
    keys, seen := [], {};
    for i := 0 to |perms|
      invariant keys == KeysOf(perms[..i])
      invariant forall k :: k in seen <==> k in keys
    {
      TakeNext(perms, i);
      keys, seen := AppendKeys(keys, seen, perms[i].keys);
    }
    assert perms[..|perms|] == perms;
  }

  method CapabilitiesFromBundles(perms: seq<Permission>) returns (keys: seq<string>, patterns: CapabilityPatterns)
    ensures keys == KeysOf(perms)
    ensures patterns == MergedPatterns(perms)
  {
    var seen;
    keys, seen := CollectKeys(perms);
    var unrestricted := UnrestrictedKeys(perms);
    patterns := CollectPatterns(perms, unrestricted, Some(seen));
    MergedReached(perms, unrestricted, seen, patterns);
  }

  lemma MergedReached(perms: seq<Permission>, unrestricted: set<string>, seen: set<string>,
      patterns: CapabilityPatterns)
    requires forall k :: k in unrestricted <==> Unrestricted(perms, k)
    requires forall k :: k in seen <==> Granted(perms, k)
    requires forall k | k in patterns :: patterns[k] != []
    requires forall k :: Lookup(patterns, k) == if Skipped(unrestricted, Some(seen), k) then []
                else UnionPatterns(perms, k)
    ensures patterns == MergedPatterns(perms)
  {
    var merged := MergedPatterns(perms);
    forall k
      ensures Lookup(patterns, k) == Lookup(merged, k)
    {
      assert Lookup(patterns, k) == if Skipped(unrestricted, Some(seen), k) then [] else UnionPatterns(perms, k);
      UnionHasKey(perms, k);
    }
    SameLookups(patterns, merged);
  }

  lemma SameLookups(a: CapabilityPatterns, b: CapabilityPatterns)
    requires (forall k | k in a :: a[k] != []) && (forall k | k in b :: b[k] != [])
    requires forall k :: Lookup(a, k) == Lookup(b, k)
    ensures a == b
  {
    forall k
      ensures k in a <==> k in b
      ensures k in a ==> a[k] == b[k]
    {
      assert Lookup(a, k) == Lookup(b, k);
    }
  }

  method ResolveUserCapabilityPatterns(perms: seq<Permission>) returns (patterns: CapabilityPatterns)
    ensures patterns == ResolvedPatterns(perms)
  {
    var unrestricted := UnrestrictedKeys(perms);
    patterns := CollectPatterns(perms, unrestricted, None);
    forall k
      ensures k in patterns <==> k in ResolvedPatterns(perms)
      ensures k in patterns ==> patterns[k] == ResolvedPatterns(perms)[k]
    {
      assert Lookup(patterns, k) == if Skipped(unrestricted, None, k) then [] else UnionPatterns(perms, k);
      UnionHasKey(perms, k);
    }
  }

  lemma UnionHasKey(perms: seq<Permission>, key: string)
    ensures UnionPatterns(perms, key) != [] ==> key in PatternKeys(perms)
  {
    if UnionPatterns(perms, key) != [] {
      assert UnionPatterns(perms, key)[0] in UnionPatterns(perms, key);
    }
  }

  // ---- What the merge means ----

  /** The bundle on its own grants the key on the path. */
  ghost predicate BundleGrants(m: SegmentMatch, p: Permission, key: string, path: string) {
    key in p.keys && (p.PatternsOf(key) == [] || BundleCovers(m, p, key, path))
  }

  /** The bundle's patterns for the key match the path, whether or not the
      bundle grants the key. */
  ghost predicate BundleCovers(m: SegmentMatch, p: Permission, key: string, path: string) {
    exists pat | pat in p.PatternsOf(key) :: PatternMatches(m, pat, TrimLeft(path, '/'))
  }

  /** A granted key is allowed on a path exactly when some bundle grants it
      without patterns or some bundle's patterns for it match. */
  lemma MergeMeaning(m: SegmentMatch, perms: seq<Permission>, key: string, path: string)
    requires Granted(perms, key) && path != ""
    ensures Permits(m, MergedPatterns(perms), key, path) <==>
              Unrestricted(perms, key) || exists p | p in perms :: BundleCovers(m, p, key, path)
  {
    var clean := TrimLeft(path, '/');
    ScopedKeysKept(perms, key);
    if !Unrestricted(perms, key) {
      var merged := MergedPatterns(perms);
      if Permits(m, merged, key, path) {
        var pat :| pat in merged[key] && PatternMatches(m, pat, clean);
        var p :| p in perms && pat in p.PatternsOf(key);
        assert BundleCovers(m, p, key, path);
      }
      if p :| p in perms && BundleCovers(m, p, key, path) {
        var pat :| pat in p.PatternsOf(key) && PatternMatches(m, pat, clean);
        assert pat in merged[key];
      }
    }
  }

  /** A granted key is missing from the merged map, and so unrestricted, only
      if some bundle grants it without patterns. */
  lemma ScopedKeysKept(perms: seq<Permission>, key: string)
    requires Granted(perms, key)
    ensures key in MergedPatterns(perms) <==> !Unrestricted(perms, key)
    ensures key in MergedPatterns(perms) ==> MergedPatterns(perms)[key] != []
  {
    if !Unrestricted(perms, key) {
      var p :| p in perms && key in p.keys;
      assert p.PatternsOf(key) != [] && p.PatternsOf(key)[0] in UnionPatterns(perms, key);
      UnionHasKey(perms, key);
    }
  }

  /** The order and the multiplicity of the bundles do not matter. */
  lemma MergeOrderIrrelevant(m: SegmentMatch, perms: seq<Permission>, perms': seq<Permission>, key: string,
      path: string)
    requires forall p :: p in perms <==> p in perms'
    ensures key in KeysOf(perms) <==> key in KeysOf(perms')
    ensures Permits(m, MergedPatterns(perms), key, path) <==> Permits(m, MergedPatterns(perms'), key, path)
  {
    if Granted(perms, key) && path != "" {
      MergeMeaning(m, perms, key, path);
      MergeMeaning(m, perms', key, path);
    }
  }

  /** The whole access decision: the key is held and its patterns allow. */
  ghost predicate HasAccess(m: SegmentMatch, perms: seq<Permission>, key: string, path: string) {
    key in KeysOf(perms) && Permits(m, MergedPatterns(perms), key, path)
  }

  /** Adding a bundle never removes access. */
  lemma AddingBundleMonotone(m: SegmentMatch, perms: seq<Permission>, extra: Permission, key: string, path: string)
    requires HasAccess(m, perms, key, path)
    ensures HasAccess(m, perms + [extra], key, path)
  {
    var p :| p in perms && key in p.keys;
    assert p in perms + [extra];
    if path != "" {
      MergeMeaning(m, perms, key, path);
      MergeMeaning(m, perms + [extra], key, path);
    }
  }

  /** For granted keys the two merges agree. */
  lemma ResolversAgree(perms: seq<Permission>, key: string)
    requires Granted(perms, key)
    ensures key in MergedPatterns(perms) <==> key in ResolvedPatterns(perms)
    ensures key in MergedPatterns(perms) ==> MergedPatterns(perms)[key] == ResolvedPatterns(perms)[key]
  {
    assert key in MergedPatterns(perms) <==> key in ResolvedPatterns(perms);
  }

  /** For the others the first merge has nothing, and the second the patterns of
      the bundles that scope the key. */
  lemma ResolversDiffer(perms: seq<Permission>, key: string)
    requires !Granted(perms, key)
    ensures key !in MergedPatterns(perms)
    ensures key in ResolvedPatterns(perms) <==> exists p | p in perms :: p.PatternsOf(key) != []
    ensures key in ResolvedPatterns(perms) ==>
              forall pat :: pat in ResolvedPatterns(perms)[key] <==> exists p | p in perms :: pat in p.PatternsOf(key)
  {
    UnionHasKey(perms, key);
    if p :| p in perms && p.PatternsOf(key) != [] {
      assert p.PatternsOf(key)[0] in UnionPatterns(perms, key);
    }
    if UnionPatterns(perms, key) != [] {
      assert UnionPatterns(perms, key)[0] in UnionPatterns(perms, key);
    }
  }

  /** All keys of all bundles, one after the other. */
  function AllKeys(perms: seq<Permission>): seq<string> {
    if perms == [] then [] else AllKeys(perms[..|perms| - 1]) + perms[|perms| - 1].keys
  }

  /** r has the elements of s, each once, in the order in which they first
      appear. */
  ghost predicate FirstsOf(s: seq<string>, r: seq<string>, at: seq<nat>) {
    && |at| == |r|
    && (forall i, j | 0 <= i < j < |at| :: at[i] < at[j])
    && (forall i | 0 <= i < |r| :: at[i] < |s| && r[i] == s[at[i]] && r[i] !in s[..at[i]])
    && (forall x | x in s :: x in r)
  }

  lemma {:induction false} AppendFirsts(s: seq<string>, acc: seq<string>, at: seq<nat>, more: seq<string>)
    returns (at': seq<nat>)
    requires FirstsOf(s, acc, at)
    ensures FirstsOf(s + more, AppendNew(acc, more), at')
    decreases |more|
  {
    if more == [] {
      assert s + more == s;
      at' := at;
    } else {
      var n := |more| - 1;
      at' := AppendFirsts(s, acc, at, more[..n]);
      assert s + more == (s + more[..n]) + [more[n]];
      at' := AppendFirst(s + more[..n], AppendNew(acc, more[..n]), at', more[n]);
    }
  }

  lemma AppendFirst(s: seq<string>, r: seq<string>, at: seq<nat>, x: string) returns (at': seq<nat>)
    requires FirstsOf(s, r, at)
    ensures FirstsOf(s + [x], if x in r then r else r + [x], at')
  {
    at' := at;
    forall i | 0 <= i < |at|
      ensures (s + [x])[..at[i]] == s[..at[i]]
    {
    }
    if x !in r {
      at' := at + [|s|];
      assert (s + [x])[..|s|] == s;
    }
  }

  /** The merged keys: each granted one once, in order of first appearance. */
  lemma {:induction false} KeysInOrder(perms: seq<Permission>) returns (at: seq<nat>)
    ensures FirstsOf(AllKeys(perms), KeysOf(perms), at)
  {
    at := [];
    if perms != [] {
      var n := |perms| - 1;
      at := KeysInOrder(perms[..n]);
      at := AppendFirsts(AllKeys(perms[..n]), KeysOf(perms[..n]), at, perms[n].keys);
    }
  }

  /** All patterns of all bundles for a key. */
  function AllPatterns(perms: seq<Permission>, key: string): seq<string> {
    if perms == [] then [] else AllPatterns(perms[..|perms| - 1], key) + perms[|perms| - 1].PatternsOf(key)
  }

  /** So with the merged patterns of a key. */
  lemma {:induction false} PatternsInOrder(perms: seq<Permission>, key: string) returns (at: seq<nat>)
    ensures FirstsOf(AllPatterns(perms, key), UnionPatterns(perms, key), at)
    ensures key in MergedPatterns(perms) ==> FirstsOf(AllPatterns(perms, key), MergedPatterns(perms)[key], at)
  {
    at := [];
    if perms != [] {
      var n := |perms| - 1;
      at := PatternsInOrder(perms[..n], key);
      at := AppendFirsts(AllPatterns(perms[..n], key), UnionPatterns(perms[..n], key), at, perms[n].PatternsOf(key));
    }
  }

  // ---- Bundles that scope a key they do not grant ----

  /** The bundle has patterns for a key it does not grant. */
  ghost predicate ScopesUngranted(p: Permission, key: string) {
    key !in p.keys && p.PatternsOf(key) != []
  }

  /** The patterns of the bundles that grant the key. */
  ghost function GrantingPatterns(perms: seq<Permission>, key: string): set<string> {
    set p, pat | p in perms && key in p.keys && pat in p.PatternsOf(key) :: pat
  }

  /** The patterns of the bundles that scope the key without granting it. */
  ghost function StrayPatterns(perms: seq<Permission>, key: string): set<string> {
    set p, pat | p in perms && ScopesUngranted(p, key) && pat in p.PatternsOf(key) :: pat
  }

  /** The documented merge is the union over the bundles that grant the key.
      The code also takes the patterns of bundles that carry patterns for the
      key without granting it. The merged list is the documented one exactly
      when those patterns also occur in a bundle that grants the key. */
  lemma StrayPatternsExact(perms: seq<Permission>, key: string)
    requires Granted(perms, key) && !Unrestricted(perms, key)
    ensures key in MergedPatterns(perms)
    ensures (set pat | pat in MergedPatterns(perms)[key]) == GrantingPatterns(perms, key)
       <==> StrayPatterns(perms, key) <= GrantingPatterns(perms, key)
  {
    ScopedKeysKept(perms, key);
    var merged := set pat | pat in MergedPatterns(perms)[key];
    assert merged == GrantingPatterns(perms, key) + StrayPatterns(perms, key);
  }

  /** When no bundle does that, access is exactly what some single bundle
      grants. */
  lemma MergeIsDisjunction(m: SegmentMatch, perms: seq<Permission>, key: string, path: string)
    requires path != "" && forall p | p in perms :: !ScopesUngranted(p, key)
    ensures HasAccess(m, perms, key, path) <==> exists p | p in perms :: BundleGrants(m, p, key, path)
  {
    if Granted(perms, key) {
      MergeMeaning(m, perms, key, path);
      if p :| p in perms && BundleCovers(m, p, key, path) {
        assert BundleGrants(m, p, key, path);
      }
      if p :| p in perms && BundleGrants(m, p, key, path) {
        assert p.PatternsOf(key) == [] || BundleCovers(m, p, key, path);
      }
    }
  }

  /** Exactly when: merged access is some single bundle's grant unless the key is
      granted, no bundle grants the path, and a bundle that does not grant the
      key has a pattern that covers it. */
  lemma MergeIsDisjunctionExact(m: SegmentMatch, perms: seq<Permission>, key: string, path: string)
    requires path != ""
    ensures (HasAccess(m, perms, key, path) <==> exists p | p in perms :: BundleGrants(m, p, key, path))
       <==> !(&& Granted(perms, key)
              && (forall p | p in perms :: !BundleGrants(m, p, key, path))
              && exists p | p in perms :: ScopesUngranted(p, key) && BundleCovers(m, p, key, path))
  {
    if Granted(perms, key) {
      MergeMeaning(m, perms, key, path);
      if p :| p in perms && BundleGrants(m, p, key, path) {
        assert p.PatternsOf(key) == [] || BundleCovers(m, p, key, path);
      }
      if p :| p in perms && BundleCovers(m, p, key, path) {
        assert p.PatternsOf(key) != [];
      }
    }
  }

  /** One bundle grants the key on a pattern, another has a pattern for it. */
  function GrantAndStray(key: string, own: string, other: string): seq<Permission> {
    [Permission([key], map[key := [own]]), Permission([], map[key := [other]])]
  }

  /** And the condition is needed: a bundle that grants nothing, but carries a
      pattern for a key another bundle grants on other paths only, opens the
      paths it matches. */
  lemma UngrantedPatternsWiden(m: SegmentMatch, key: string, own: string, other: string, path: string)
    requires path != "" && PatternMatches(m, other, TrimLeft(path, '/')) && !PatternMatches(m, own, TrimLeft(path, '/'))
    ensures HasAccess(m, GrantAndStray(key, own, other), key, path)
    ensures forall p | p in GrantAndStray(key, own, other) :: !BundleGrants(m, p, key, path)
  {
    var perms := GrantAndStray(key, own, other);
    GrantAndStrayBundles(key, own, other);
    OneCovers(m, perms[0], key, own, path);
    OneCovers(m, perms[1], key, other, path);
    CoverGivesAccess(m, perms, perms[1], key, path);
  }

  lemma GrantAndStrayBundles(key: string, own: string, other: string)
    ensures var perms := GrantAndStray(key, own, other);
            && |perms| == 2 && perms[0] in perms && perms[1] in perms
            && (forall p | p in perms :: p == perms[0] || p == perms[1])
            && key in perms[0].keys && perms[0].PatternsOf(key) == [own]
            && key !in perms[1].keys && perms[1].PatternsOf(key) == [other]
            && Granted(perms, key)
  {
    var perms := GrantAndStray(key, own, other);
    assert perms[0] in perms && key in perms[0].keys;
  }

  /** A bundle with one pattern for the key. */
  lemma OneCovers(m: SegmentMatch, p: Permission, key: string, pat: string, path: string)
    requires p.PatternsOf(key) == [pat]
    ensures BundleCovers(m, p, key, path) <==> PatternMatches(m, pat, TrimLeft(path, '/'))
  {
    assert pat in p.PatternsOf(key);
  }

  lemma CoverGivesAccess(m: SegmentMatch, perms: seq<Permission>, p: Permission, key: string, path: string)
    requires Granted(perms, key) && path != "" && p in perms && BundleCovers(m, p, key, path)
    ensures HasAccess(m, perms, key, path)
  {
    MergeMeaning(m, perms, key, path);
  }

  lemma StraySegmentWidens(m: SegmentMatch, key: string, own: string, other: string)
    requires '/' !in own && '/' !in other && other != "" && own != "**" && other != "**"
    requires m(other, other) && !m(own, other)
    ensures HasAccess(m, GrantAndStray(key, own, other), key, other)
    ensures forall p | p in GrantAndStray(key, own, other) :: !BundleGrants(m, p, key, other)
  {
    assert TrimLeft(other, '/') == other;
    OneSegment(m, other, other);
    OneSegment(m, own, other);
    UngrantedPatternsWiden(m, key, own, other, other);
  }

  /** For instance: "raw.read" granted on "a" alone is granted on "b" too. */
  lemma StrayPatternExample(m: SegmentMatch)
    requires m("b", "b") && !m("a", "b")
    ensures HasAccess(m, GrantAndStray("raw.read", "a", "b"), "raw.read", "b")
    ensures forall p | p in GrantAndStray("raw.read", "a", "b") :: !BundleGrants(m, p, "raw.read", "b")
  {
    StraySegmentWidens(m, "raw.read", "a", "b");
  }

  lemma OneSegment(m: SegmentMatch, pattern: string, path: string)
    requires '/' !in pattern && '/' !in path && pattern != "**"
    ensures PatternMatches(m, pattern, path) <==> m(pattern, path)
  {
    Unsplit(pattern);
    Unsplit(path);
    assert [pattern][1..] == [] && [path][1..] == [];
    assert Matches(m, [], []);
  }

  lemma Unsplit(s: string)
    requires '/' !in s
    ensures Split(s, '/') == [s]
  {
    SplitJoin([s], '/');
  }
}
