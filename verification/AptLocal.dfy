/** A local APT repository (internal/registry/apt/apt.go): its files and indexes,
    changed step by step as the code changes them, against the abstract core. */
module AptLocal {
  import opened Strings
  import opened Sorting
  import opened Deb822
  import opened AptControl
  import opened AptRepo
  import opened AptEntries
  import opened AptUploads
  import opened AptRelease
  import opened AptTree
  import opened AptPublished

  /** The loaded index of one distribution and component. */
  datatype IdxRef = IdxRef(dist: string, comp: string, entries: seq<Entry>)

  // ---- Reading the store ----

  lemma IndexNamesOf(index: Index, dist: string)
    ensures (set k | k in index && k.0 == dist :: k.1 + ".json") ==
            (set c | c in CompsOf(index, dist).Keys :: c + ".json")
  {
    forall c | c in CompsOf(index, dist).Keys
      ensures (dist, c) in index
    {
    }
  }

  /** The components of a distribution, from the names of its index files. */
  method Components(index: Index, dist: string) returns (out: seq<string>)
    ensures out == Listed(CompsOf(index, dist).Keys)
  {
    var names := SortedKeys(set k | k in index && k.0 == dist :: k.1 + ".json");
    IndexNamesOf(index, dist);
    out := [];
    for i := 0 to |names|
      invariant out == TrimAll(names[..i])
    {
      out := out + [TrimJson(names[i])];
    }
    assert names[..|names|] == names;
  }

  method GatherArches(rows: seq<Entry>, arches: set<string>) returns (out: set<string>)
    ensures out == arches + RowArches(rows)
  {
    out := arches;
    for i := 0 to |rows|
      invariant out == arches + RowArches(rows[..i])
    {
      TakeNext(rows, i);
      if Arch(rows[i]) != "all" {
        out := out + {Arch(rows[i])};
      }
    }
    assert rows[..|rows|] == rows;
  }

  lemma CompArchesSnoc(comps: map<string, seq<Entry>>, used: seq<string>, c: string)
    requires c in comps && forall x | x in used :: x in comps
    ensures CompArches(comps, used + [c]) == CompArches(comps, used) + RowArches(comps[c])
  {
    assert (used + [c])[..|used|] == used;
  }

  ghost predicate Agrees(a: map<string, seq<Entry>>, b: map<string, seq<Entry>>, used: seq<string>) {
    forall c | c in used :: c in a && c in b && a[c] == b[c]
  }

  /** What is gathered from the components listed so far. */
  ghost predicate Gathered(
    all: map<string, seq<Entry>>, front: seq<string>, byComp: map<string, seq<Entry>>, archSet: set<string>,
    used: seq<string>, always: set<string>)
  {
    && Agrees(byComp, all, used) && used == Filter(HasRows(all), front)
    && archSet == always + CompArches(all, used)
  }

  lemma GatheredSkip(
    all: map<string, seq<Entry>>, comps: seq<string>, i: nat, byComp: map<string, seq<Entry>>, archSet: set<string>,
    used: seq<string>, always: set<string>)
    requires i < |comps| && Gathered(all, comps[..i], byComp, archSet, used, always)
    requires comps[i] in all && all[comps[i]] == []
    ensures Gathered(all, comps[..i + 1], byComp, archSet, used, always)
  {
    FilterTake(HasRows(all), comps, i);
    assert used + [] == used;
  }

  lemma GatheredMore(
    all: map<string, seq<Entry>>, comps: seq<string>, i: nat, byComp: map<string, seq<Entry>>, archSet: set<string>,
    used: seq<string>, always: set<string>)
    requires i < |comps| && Gathered(all, comps[..i], byComp, archSet, used, always)
    requires comps[i] in all && all[comps[i]] != []
    ensures Gathered(all, comps[..i + 1], byComp[comps[i] := all[comps[i]]], archSet + RowArches(all[comps[i]]),
                     used + [comps[i]], always)
  {
    FilterTake(HasRows(all), comps, i);
    CompArchesSnoc(all, used, comps[i]);
  }

  /** The components with rows, and every architecture to publish. */
  method Gather(index: Index, dist: string, comps: seq<string>, ghost all: map<string, seq<Entry>>)
    returns (byComp: map<string, seq<Entry>>, archSet: set<string>, used: seq<string>)
    requires forall c | c in comps :: c in all && all[c] == RowsOf(index, dist, c)
    ensures Agrees(byComp, all, used)
    ensures used == Filter(HasRows(all), comps) && archSet == {"amd64", "arm64"} + CompArches(all, used)
  {
    byComp, archSet, used := map[], {"amd64", "arm64"}, [];
    ghost var always := archSet;
    for i := 0 to |comps|
      invariant Gathered(all, comps[..i], byComp, archSet, used, always)
    {
      var c := comps[i];
      assert c in comps;
      var es := RowsOf(index, dist, c);
      if |es| == 0 {
        GatheredSkip(all, comps, i, byComp, archSet, used, always);
        continue;
      }
      GatheredMore(all, comps, i, byComp, archSet, used, always);
      byComp := byComp[c := es];
      used := used + [c];
      archSet := GatherArches(es, archSet);
    }
    assert comps[..|comps|] == comps;
  }

  lemma {:induction false} SameFiles(
    cr: Crypto, a: map<string, seq<Entry>>, b: map<string, seq<Entry>>, used: seq<string>, arches: seq<string>)
    requires Agrees(a, b, used)
    ensures AllFiles(cr, a, used, arches) == AllFiles(cr, b, used, arches)
  {
    if used != [] {
      var n := |used| - 1;
      assert used == used[..n] + [used[n]];
      SameFiles(cr, a, b, used[..n], arches);
    }
  }

  /** The paths Release and its signatures leave in place. */
  function Kept(files: seq<IndexFile>, signed: bool): set<string> {
    {"Release"} + (if signed then {"Release.gpg", "InRelease"} else {}) + set f | f in files :: f.path
  }

  /** What the final walk leaves. */
  ghost function Swept(files: map<string, Bytes>, dist: string, keep: set<string>): map<string, Bytes> {
    map p | p in files && (!Under(dist, p) || p[|Root(dist)| + 1..] in keep) :: files[p]
  }

  lemma SweptExact(env: Env, files: map<string, Bytes>, dist: string, index: seq<IndexFile>, release: Bytes)
    ensures Swept(files + (Placed(Root(dist), index) + Signed(env.key, Root(dist), release)), dist,
                Kept(index, env.key.Some?))
         == WithTree(RealLayout(env), files, dist, Placed(Root(dist), index) + Signed(env.key, Root(dist), release))
  {
    var tree := Placed(Root(dist), index) + Signed(env.key, Root(dist), release);
    var keep := Kept(index, env.key.Some?);
    PlacedUnder(dist, index);
    SignedUnder(env.key, dist, release);
    forall p | Under(dist, p)
      ensures p in tree <==> p[|Root(dist)| + 1..] in keep
    {
      KeptExact(env.key, dist, index, release, p);
    }
    SweptMerge(RealLayout(env), files, tree, dist, keep);
  }

  lemma SweptMerge(l: Layout, files: map<string, Bytes>, tree: map<string, Bytes>, dist: string, keep: set<string>)
    requires forall p :: l.under(dist, p) <==> Under(dist, p)
    requires forall p | p in tree :: Under(dist, p)
    requires forall p | Under(dist, p) :: p in tree <==> p[|Root(dist)| + 1..] in keep
    ensures Swept(files + tree, dist, keep) == WithTree(l, files, dist, tree)
  {
  }

  lemma KeptExact(key: Option<Signer>, dist: string, index: seq<IndexFile>, release: Bytes, p: string)
    requires Under(dist, p)
    ensures p in Placed(Root(dist), index) + Signed(key, Root(dist), release)
       <==> p[|Root(dist)| + 1..] in Kept(index, key.Some?)
  {
    var q := p[|Root(dist)| + 1..];
    assert p == Root(dist) + "/" + q;
    PlacedUnder(dist, index);
    ContentsOf(index);
    SignedStamped(key, dist, release);
    StampedBelow(dist, q);
  }

  lemma StampedBelow(d: string, q: string)
    ensures Root(d) + "/" + q == Root(d) + "/Release" <==> q == "Release"
    ensures Stamped(d, Root(d) + "/" + q) <==> Unlisted(q)
  {
    BelowRoot(Root(d), q);
    BelowRoot(Root(d), "Release");
    BelowRoot(Root(d), "Release.gpg");
    BelowRoot(Root(d), "InRelease");
    assert Root(d) + "/Release" == Root(d) + "/" + "Release";
    assert Root(d) + "/Release.gpg" == Root(d) + "/" + "Release.gpg";
    assert Root(d) + "/InRelease" == Root(d) + "/" + "InRelease";
  }

  lemma SignedPuts(files: map<string, Bytes>, key: Option<Signer>, root: string, release: Bytes)
    ensures files + Signed(key, root, release) ==
              match key
              case None => files[root + "/Release" := release]
              case Some(k) =>
                var f := files[root + "/Release.gpg" := k.detach(release)];
                f[root + "/Release" := release][root + "/InRelease" := k.clear(release)]
  {
    if key.Some? {
      PutThree(files, root + "/Release.gpg", root + "/Release", root + "/InRelease",
               key.value.detach(release), release, key.value.clear(release));
    }
  }

  lemma PutThree(files: map<string, Bytes>, p: string, q: string, r: string, a: Bytes, b: Bytes, c: Bytes)
    ensures files + map[p := a, q := b, r := c] == files[p := a][q := b][r := c]
  {
  }

  lemma PlacedNext(root: string, out: seq<IndexFile>, i: nat)
    requires i < |out|
    ensures out[..i + 1] == out[..i] + [out[i]]
    ensures Placed(root, out[..i + 1]) == Placed(root, out[..i])[root + "/" + out[i].path := out[i].data]
  {
    TakeNext(out, i);
  }

  // ---- Rows ----

  /** Rows of the new file are overwritten where they are. */
  method ReplaceInPlace(a: array<Entry>, e: Entry, target: bool) returns (changed: bool)
    modifies a
    ensures a[..] == ReplaceRows(old(a[..]), e, target)
    ensures changed <==> Contains(old(a[..]), e.filename)
  {
    changed := false;
    for i := 0 to a.Length
      invariant forall j | 0 <= j < i :: a[j] == ReplaceRows(old(a[..]), e, target)[j]
      invariant forall j | i <= j < a.Length :: a[j] == old(a[..])[j]
      invariant changed <==> exists j | 0 <= j < i :: old(a[..])[j].filename == e.filename
    {
      var was := a[i];
      if was.filename != e.filename {
        continue;
      }
      a[i] := e;
      if !target {
        a[i] := a[i].(published := was.published);
      }
      changed := true;
    }
  }

  // ---- What the loops have done so far ----

  function KeyOf(r: IdxRef): (string, string) {
    (r.dist, r.comp)
  }

  ghost predicate Loaded(index: Index, refs: seq<IdxRef>) {
    && (forall r | r in refs :: KeyOf(r) in index && r.entries == index[KeyOf(r)])
    && (forall k | k in index :: Refers(refs, k))
  }

  ghost predicate Refers(refs: seq<IdxRef>, k: (string, string)) {
    exists r | r in refs :: KeyOf(r) == k
  }

  lemma ReferMore(refs: seq<IdxRef>, more: seq<IdxRef>)
    ensures forall k | Refers(refs, k) || Refers(more, k) :: Refers(refs + more, k)
  {
    forall k | Refers(refs, k) || Refers(more, k)
      ensures Refers(refs + more, k)
    {
      if Refers(refs, k) {
        var r :| r in refs && KeyOf(r) == k;
        assert r in refs + more;
      } else {
        var r :| r in more && KeyOf(r) == k;
        assert r in refs + more;
      }
    }
  }

  function Rewritten(rows: seq<Entry>, e: Entry, target: bool): seq<Entry> {
    if Contains(rows, e.filename) then StableSort(EntryLeq(), ReplaceRows(rows, e, target)) else rows
  }

  ghost predicate RewrittenIn(was: Index, now: Index, done: seq<IdxRef>, e: Entry, t: (string, string)) {
    && now.Keys == was.Keys
    && (forall r | r in done :: KeyOf(r) in was && now[KeyOf(r)] == Rewritten(was[KeyOf(r)], e, KeyOf(r) == t))
    && (forall k | k in was && (forall r | r in done :: KeyOf(r) != k) :: now[k] == was[k])
  }

  ghost function WithRewritten(index: Index, r: IdxRef, e: Entry, target: bool): Index {
    if Contains(r.entries, e.filename) then index[KeyOf(r) := Rewritten(r.entries, e, target)] else index
  }

  lemma RewrittenStep(was: Index, now: Index, done: seq<IdxRef>, r: IdxRef, e: Entry, t: (string, string))
    requires RewrittenIn(was, now, done, e, t) && KeyOf(r) in was && r.entries == was[KeyOf(r)]
    ensures RewrittenIn(was, WithRewritten(now, r, e, KeyOf(r) == t), done + [r], e, t)
  {
    var k := KeyOf(r);
    var rows := Rewritten(was[k], e, k == t);
    var now' := WithRewritten(now, r, e, k == t);
    if !Contains(r.entries, e.filename) {
      RewrittenHere(was, now, done, r, e, t);
    }
    RewrittenPut(was, now, now', done, r, e, t);
  }

  lemma RewrittenHere(was: Index, now: Index, done: seq<IdxRef>, r: IdxRef, e: Entry, t: (string, string))
    requires RewrittenIn(was, now, done, e, t) && KeyOf(r) in was && r.entries == was[KeyOf(r)]
    requires !Contains(r.entries, e.filename)
    ensures now[KeyOf(r)] == Rewritten(was[KeyOf(r)], e, KeyOf(r) == t)
  {
    if exists x | x in done :: KeyOf(x) == KeyOf(r) {
      var x :| x in done && KeyOf(x) == KeyOf(r);
      assert now[KeyOf(x)] == Rewritten(was[KeyOf(x)], e, KeyOf(x) == t);
    }
  }

  lemma RewrittenPut(was: Index, now: Index, now': Index, done: seq<IdxRef>, r: IdxRef, e: Entry, t: (string, string))
    requires RewrittenIn(was, now, done, e, t) && KeyOf(r) in was && KeyOf(r) in now'
    requires now'[KeyOf(r)] == Rewritten(was[KeyOf(r)], e, KeyOf(r) == t)
    requires now' == now || now' == now[KeyOf(r) := now'[KeyOf(r)]]
    ensures RewrittenIn(was, now', done + [r], e, t)
  {
    forall x | x in done + [r]
      ensures KeyOf(x) in was && now'[KeyOf(x)] == Rewritten(was[KeyOf(x)], e, KeyOf(x) == t)
    {
      if x in done {
        assert now[KeyOf(x)] == Rewritten(was[KeyOf(x)], e, KeyOf(x) == t);
      }
    }
    assert r in done + [r];
    assert forall x | x in done :: x in done + [r];
  }

  /** The distributions of the indexes that list the file. */
  function Touched(done: seq<IdxRef>, filename: string): set<string> {
    if done == [] then {}
    else
      var r := done[|done| - 1];
      Touched(done[..|done| - 1], filename) + (if Contains(r.entries, filename) then {r.dist} else {})
  }

  ghost predicate TargetAmong(done: seq<IdxRef>, filename: string, t: (string, string)) {
    exists r | r in done :: KeyOf(r) == t && Contains(r.entries, filename)
  }

  lemma TargetStep(done: seq<IdxRef>, r: IdxRef, filename: string, t: (string, string))
    ensures TargetAmong(done + [r], filename, t) <==>
              TargetAmong(done, filename, t) || (KeyOf(r) == t && Contains(r.entries, filename))
  {
    assert r in done + [r];
    if TargetAmong(done, filename, t) {
      var x :| x in done && KeyOf(x) == t && Contains(x.entries, filename);
      assert x in done + [r];
    }
  }

  /** The indexes, the affected distributions and the target flag after the
      first references. */
  ghost predicate Progress(
    was: Index, now: Index, done: seq<IdxRef>, e: Entry, t: (string, string), affected: set<string>, target: bool)
  {
    && RewrittenIn(was, now, done, e, t)
    && affected == {t.0} + Touched(done, e.filename)
    && (target <==> TargetAmong(done, e.filename, t))
  }

  lemma ProgressStep(
    was: Index, now: Index, refs: seq<IdxRef>, i: nat, e: Entry, t: (string, string), affected: set<string>,
        target: bool)
    requires i < |refs| && Loaded(was, refs)
    requires Progress(was, now, refs[..i], e, t, affected, target)
    ensures var r := refs[i];
            var changed := Contains(r.entries, e.filename);
            Progress(was, WithRewritten(now, r, e, KeyOf(r) == t), refs[..i + 1], e, t,
                     if changed then affected + {r.dist} else affected, target || (changed && KeyOf(r) == t))
  {
    TakeNext(refs, i);
    assert refs[i] in refs;
    RewrittenStep(was, now, refs[..i], refs[i], e, t);
    TargetStep(refs[..i], refs[i], e.filename, t);
  }

  lemma {:induction false} TouchedExact(done: seq<IdxRef>, filename: string)
    ensures forall d :: d in Touched(done, filename) <==> exists r | r in done ::
                r.dist == d && Contains(r.entries, filename)
  {
    if done != [] {
      var n := |done| - 1;
      TouchedExact(done[..n], filename);
      assert done == done[..n] + [done[n]];
    }
  }

  lemma AffectedReached(was: Index, refs: seq<IdxRef>, dist: string, filename: string)
    requires Loaded(was, refs)
    ensures {dist} + Touched(refs, filename) == AddAffected(was, dist, filename)
  {
    TouchedExact(refs, filename);
    forall d
      ensures d in Touched(refs, filename) <==> exists k | k in was && Contains(was[k], filename) :: k.0 == d
    {
      if d in Touched(refs, filename) {
        var r :| r in refs && r.dist == d && Contains(r.entries, filename);
        assert KeyOf(r) in was && Contains(was[KeyOf(r)], filename) && KeyOf(r).0 == d;
      }
      if exists k | k in was && Contains(was[k], filename) :: k.0 == d {
        var k :| k in was && Contains(was[k], filename) && k.0 == d;
        var r :| r in refs && KeyOf(r) == k;
        assert r.dist == d && r.entries == was[k];
      }
    }
  }

  lemma TargetReached(was: Index, refs: seq<IdxRef>, filename: string, t: (string, string))
    requires Loaded(was, refs)
    ensures TargetAmong(refs, filename, t) <==> t in was && Contains(was[t], filename)
  {
    if t in was && Contains(was[t], filename) {
      var r :| r in refs && KeyOf(r) == t;
      assert r.entries == was[t];
    }
  }

  lemma RewrittenReached(was: Index, now: Index, refs: seq<IdxRef>, e: Entry, t: (string, string))
    requires Loaded(was, refs) && RewrittenIn(was, now, refs, e, t)
    ensures now.Keys == was.Keys && forall k | k in was :: now[k] == Rewritten(was[k], e, k == t)
  {
    forall k | k in was
      ensures now[k] == Rewritten(was[k], e, k == t)
    {
      var r :| r in refs && KeyOf(r) == k;
      assert now[KeyOf(r)] == Rewritten(was[KeyOf(r)], e, KeyOf(r) == t);
    }
  }

  lemma RowRewritten(l: Layout, rows: seq<Entry>, e: Entry, target: bool)
    requires l.leq == EntryLeq()
    ensures AddRow(l, rows, e, target) ==
              if target && !Contains(rows, e.filename) then StableSort(EntryLeq(), rows + [e])
                  else Rewritten(rows, e, target)
  {
  }

  /** The row of the new file, where the target had none. */
  function Appended(now: Index, e: Entry, t: (string, string), target: bool): Index {
    if target then now else now[t := StableSort(EntryLeq(), RowsOf(now, t.0, t.1) + [e])]
  }

  lemma AddReached(
    l: Layout, was: Index, now: Index, refs: seq<IdxRef>, e: Entry, t: (string, string), affected: set<string>,
        target: bool)
    requires l.leq == EntryLeq()
    requires Loaded(was, refs) && Progress(was, now, refs, e, t, affected, target)
    ensures affected == AddAffected(was, t.0, e.filename)
    ensures Appended(now, e, t, target) == AddedIndex(l, was, t.0, t.1, e)
  {
    AffectedReached(was, refs, t.0, e.filename);
    TargetReached(was, refs, e.filename, t);
    RewrittenReached(was, now, refs, e, t);
    AppendedReached(l, was, now, e, t, target);
  }

  lemma AppendedReached(l: Layout, was: Index, now: Index, e: Entry, t: (string, string), target: bool)
    requires l.leq == EntryLeq()
    requires now.Keys == was.Keys && forall x | x in was :: now[x] == Rewritten(was[x], e, x == t)
    requires target <==> t in was && Contains(was[t], e.filename)
    ensures Appended(now, e, t, target) == AddedIndex(l, was, t.0, t.1, e)
  {
    var after, expected := Appended(now, e, t, target), AddedIndex(l, was, t.0, t.1, e);
    AppendedKeys(now, e, t, target);
    assert after.Keys == expected.Keys;
    forall k | k in expected
      ensures after[k] == expected[k]
    {
      AppendedAt(l, was, now, e, t, target, k);
    }
  }

  lemma AppendedKeys(now: Index, e: Entry, t: (string, string), target: bool)
    requires target ==> t in now
    ensures Appended(now, e, t, target).Keys == now.Keys + {t}
  {
  }

  lemma AppendedAt(l: Layout, was: Index, now: Index, e: Entry, t: (string, string), target: bool, k: (string, string))
    requires l.leq == EntryLeq() && k in was.Keys + {t}
    requires now.Keys == was.Keys && forall x | x in was :: now[x] == Rewritten(was[x], e, x == t)
    requires target <==> t in was && Contains(was[t], e.filename)
    ensures k in Appended(now, e, t, target)
    ensures Appended(now, e, t, target)[k] == AddRow(l, RowsOf(was, k.0, k.1), e, k == t)
  {
    RowRewritten(l, RowsOf(was, k.0, k.1), e, k == t);
  }

  lemma AddStaysConsistent(env: Env, st: State, dist: string, comp: string, e: Entry, body: Bytes, now: int)
    requires Consistent(RealLayout(env), st) && ReSegment(dist) && ReSegment(comp) && Uploaded(env.crypto, e, body)
    ensures Consistent(RealLayout(env), AddState(RealLayout(env), st, dist, comp, e, body, now))
  {
    var l := RealLayout(env);
    RealLayoutGood(env);
    assert l.isName(dist) && l.isName(comp) && l.describes(e, body);
    AddKeepsConsistent(l, st, dist, comp, e, body, now);
  }

  // ---- Removal, so far ----

  /** What a removal leaves of an index. */
  function Left(rows: seq<Entry>, matching: Entry -> bool): Option<seq<Entry>> {
    var kept := Filter(Unmatched(matching), rows);
    if |kept| == |rows| then Some(rows) else if kept == [] then None else Some(StableSort(EntryLeq(), kept))
  }

  function Look(index: Index, k: (string, string)): Option<seq<Entry>> {
    if k in index then Some(index[k]) else None
  }

  function Put(index: Index, k: (string, string), rows: Option<seq<Entry>>): Index {
    if rows.Some? then index[k := rows.value] else index - {k}
  }

  predicate Loses(rows: seq<Entry>, matching: Entry -> bool) {
    |Filter(Unmatched(matching), rows)| != |rows|
  }

  function WithLeft(index: Index, r: IdxRef, matching: Entry -> bool): Index {
    if Loses(r.entries, matching) then Put(index, KeyOf(r), Left(r.entries, matching)) else index
  }

  ghost predicate LeftIn(was: Index, now: Index, done: seq<IdxRef>, matching: Entry -> bool) {
    && (forall r | r in done :: Look(now, KeyOf(r)) == Left(r.entries, matching))
    && (forall k | (forall r | r in done :: KeyOf(r) != k) :: Look(now, k) == Look(was, k))
  }

  lemma LeftStep(was: Index, now: Index, done: seq<IdxRef>, r: IdxRef, matching: Entry -> bool)
    requires LeftIn(was, now, done, matching) && Look(was, KeyOf(r)) == Some(r.entries)
    requires forall x | x in done && KeyOf(x) == KeyOf(r) :: x == r
    ensures LeftIn(was, WithLeft(now, r, matching), done + [r], matching)
  {
    var k, now' := KeyOf(r), WithLeft(now, r, matching);
    assert Look(now', k) == Left(r.entries, matching) by {
      if !Loses(r.entries, matching) && exists x | x in done :: KeyOf(x) == k {
        var x :| x in done && KeyOf(x) == k;
        assert Look(now, KeyOf(x)) == Left(x.entries, matching);
      }
    }
    forall x | x in done + [r]
      ensures Look(now', KeyOf(x)) == Left(x.entries, matching)
    {
      if x in done && KeyOf(x) != k {
        assert Look(now, KeyOf(x)) == Left(x.entries, matching);
      }
    }
    assert r in done + [r];
    assert forall x | x in done :: x in done + [r];
  }

  function RemovedOf(done: seq<IdxRef>, matching: Entry -> bool): seq<Entry> {
    if done == [] then []
    else RemovedOf(done[..|done| - 1], matching) + Filter(matching, done[|done| - 1].entries)
  }

  function ReferencedOf(done: seq<IdxRef>, matching: Entry -> bool): set<string> {
    if done == [] then {}
    else
      ReferencedOf(done[..|done| - 1], matching)
      + KeysOf(Filename, Filter(Unmatched(matching), done[|done| - 1].entries))
  }

  function LosersOf(done: seq<IdxRef>, matching: Entry -> bool): set<string> {
    if done == [] then {}
    else
      var r := done[|done| - 1];
      LosersOf(done[..|done| - 1], matching) + (if Loses(r.entries, matching) then {r.dist} else {})
  }

  /** Everything a removal knows after the first references. */
  ghost predicate Removing(
    was: Index, now: Index, done: seq<IdxRef>, matching: Entry -> bool,
    removed: seq<Entry>, affected: set<string>, referenced: set<string>)
  {
    && LeftIn(was, now, done, matching)
    && removed == RemovedOf(done, matching)
    && affected == LosersOf(done, matching)
    && referenced == ReferencedOf(done, matching)
  }

  lemma RemovingStep(
    was: Index, now: Index, refs: seq<IdxRef>, i: nat, matching: Entry -> bool,
    removed: seq<Entry>, affected: set<string>, referenced: set<string>)
    requires i < |refs| && Loaded(was, refs) && Removing(was, now, refs[..i], matching, removed, affected, referenced)
    ensures var r := refs[i];
            Removing(was, WithLeft(now, r, matching), refs[..i + 1], matching,
                     removed + Filter(matching, r.entries),
                     if Loses(r.entries, matching) then affected + {r.dist} else affected,
                     referenced + KeysOf(Filename, Filter(Unmatched(matching), r.entries)))
  {
    var r := refs[i];
    TakeNext(refs, i);
    assert r in refs;
    forall x | x in refs[..i] && KeyOf(x) == KeyOf(r)
      ensures x == r
    {
      assert x in refs && x.entries == was[KeyOf(x)];
    }
    LeftStep(was, now, refs[..i], r, matching);
  }

  lemma {:induction false} RemovedOfExact(done: seq<IdxRef>, matching: Entry -> bool)
    ensures forall e :: e in RemovedOf(done, matching) <==> matching(e) && exists r | r in done :: e in r.entries
    ensures forall p :: p in ReferencedOf(done, matching) <==>
                         exists r, e | r in done && e in r.entries && !matching(e) :: e.filename == p
    ensures forall d :: d in LosersOf(done, matching) <==> exists r | r in done && Loses(r.entries, matching) ::
                r.dist == d
  {
    if done != [] {
      var n := |done| - 1;
      RemovedOfExact(done[..n], matching);
      KeysOfExact(Filename, Filter(Unmatched(matching), done[n].entries));
      assert done == done[..n] + [done[n]];
    }
  }

  ghost predicate Stores(index: Index, e: Entry) {
    exists k | k in index :: e in index[k]
  }

  /** Some matching row is of the file. */
  ghost predicate Names(index: Index, matching: Entry -> bool, p: string) {
    exists k, e | k in index && e in index[k] :: matching(e) && e.filename == p
  }

  /** The removed rows are the stored ones that match. */
  lemma RemovedReached(was: Index, refs: seq<IdxRef>, matching: Entry -> bool, e: Entry)
    requires Loaded(was, refs)
    ensures e in RemovedOf(refs, matching) <==> matching(e) && Stores(was, e)
  {
    RemovedOfExact(refs, matching);
    if e in RemovedOf(refs, matching) {
      var r :| r in refs && e in r.entries;
      assert KeyOf(r) in was && e in was[KeyOf(r)];
    }
    if matching(e) && Stores(was, e) {
      var k :| k in was && e in was[k];
      var r :| r in refs && KeyOf(r) == k;
      assert e in r.entries;
    }
  }

  lemma RemovedNames(was: Index, refs: seq<IdxRef>, matching: Entry -> bool, p: string)
    requires Loaded(was, refs)
    ensures p in KeysOf(Filename, RemovedOf(refs, matching)) <==> Names(was, matching, p)
  {
    var removed := RemovedOf(refs, matching);
    KeysOfExact(Filename, removed);
    if p in KeysOf(Filename, removed) {
      var e :| e in removed && Filename(e) == p;
      RemovedReached(was, refs, matching, e);
      var k :| k in was && e in was[k];
    }
    if Names(was, matching, p) {
      var k, e :| k in was && e in was[k] && matching(e) && e.filename == p;
      RemovedReached(was, refs, matching, e);
      assert e in removed && Filename(e) == p;
    }
  }

  lemma ReferencedNames(was: Index, refs: seq<IdxRef>, matching: Entry -> bool, p: string)
    requires Loaded(was, refs)
    ensures p in ReferencedOf(refs, matching) <==> Names(was, Unmatched(matching), p)
  {
    RemovedOfExact(refs, matching);
    if p in ReferencedOf(refs, matching) {
      var r, e :| r in refs && e in r.entries && !matching(e) && e.filename == p;
      assert KeyOf(r) in was && e in was[KeyOf(r)] && Unmatched(matching)(e);
    }
    if Names(was, Unmatched(matching), p) {
      var k, e :| k in was && e in was[k] && Unmatched(matching)(e) && e.filename == p;
      var r :| r in refs && KeyOf(r) == k;
      assert e in r.entries;
    }
  }

  lemma OrphansReached(was: Index, refs: seq<IdxRef>, matching: Entry -> bool, p: string)
    requires Loaded(was, refs)
    ensures Orphaned(was, matching, p) <==>
              p in KeysOf(Filename, RemovedOf(refs, matching)) && p !in ReferencedOf(refs, matching)
  {
    RemovedNames(was, refs, matching, p);
    ReferencedNames(was, refs, matching, p);
    OrphanedIs(was, matching, p);
  }

  lemma OrphanedIs(index: Index, matching: Entry -> bool, p: string)
    ensures Orphaned(index, matching, p) <==> Names(index, matching, p) && !Names(index, Unmatched(matching), p)
  {
    if !Names(index, Unmatched(matching), p) {
      forall k, e | k in index && e in index[k] && !matching(e)
        ensures e.filename != p
      {
        assert Unmatched(matching)(e);
      }
    }
  }

  lemma FilesReached(
    st: State, refs: seq<IdxRef>, matching: Entry -> bool, left: map<string, Bytes>)
    requires Loaded(st.index, refs)
    requires left == map p | p in st.files
                          && !(p in KeysOf(Filename, RemovedOf(refs, matching)) &&
                              p !in ReferencedOf(refs, matching)) :: st.files[p]
    ensures left == RemainingFiles(st, matching)
  {
    forall p
      ensures Orphaned(st.index, matching, p) <==>
                p in KeysOf(Filename, RemovedOf(refs, matching)) && p !in ReferencedOf(refs, matching)
    {
      OrphansReached(st.index, refs, matching, p);
    }
  }

  lemma LosersReached(was: Index, refs: seq<IdxRef>, matching: Entry -> bool)
    requires Loaded(was, refs)
    ensures LosersOf(refs, matching) == RemoveAffected(was, matching)
  {
    RemovedOfExact(refs, matching);
    var losers, affected := LosersOf(refs, matching), RemoveAffected(was, matching);
    forall d | d in losers
      ensures d in affected
    {
      var r :| r in refs && Loses(r.entries, matching) && r.dist == d;
      assert KeyOf(r) in was && KeyOf(r).0 == d;
    }
    forall d | d in affected
      ensures d in losers
    {
      var k :| k in was && |Filter(Unmatched(matching), was[k])| != |was[k]| && k.0 == d;
      var r :| r in refs && KeyOf(r) == k;
      assert Loses(r.entries, matching);
    }
  }

  lemma LeftReached(l: Layout, was: Index, now: Index, refs: seq<IdxRef>, matching: Entry -> bool)
    requires l.leq == EntryLeq() && Loaded(was, refs) && LeftIn(was, now, refs, matching)
    requires forall k | k in was :: was[k] != []
    ensures now == RemovedIndex(l, was, matching)
  {
    var expected := RemovedIndex(l, was, matching);
    forall k
      ensures Look(now, k) == Look(expected, k)
    {
      LeftAt(l, was, now, refs, matching, k);
    }
    SameIndex(now, expected);
  }

  lemma SameIndex(a: Index, b: Index)
    requires forall k :: Look(a, k) == Look(b, k)
    ensures a == b
  {
    forall k
      ensures k in a <==> k in b
      ensures k in a ==> a[k] == b[k]
    {
      assert Look(a, k) == Look(b, k);
    }
  }

  lemma LeftAt(l: Layout, was: Index, now: Index, refs: seq<IdxRef>, matching: Entry -> bool, k: (string, string))
    requires l.leq == EntryLeq() && Loaded(was, refs) && LeftIn(was, now, refs, matching)
    requires forall k | k in was :: was[k] != []
    ensures Look(now, k) == Look(RemovedIndex(l, was, matching), k)
  {
    if k in was {
      var r :| r in refs && KeyOf(r) == k;
      assert Look(now, KeyOf(r)) == Left(r.entries, matching);
      assert r.entries == was[k];
      FilterKeepsAll(Unmatched(matching), was[k]);
    } else {
      assert forall r | r in refs :: KeyOf(r) != k;
    }
  }

  lemma RemoveStaysConsistent(env: Env, st: State, matching: Entry -> bool, now: int)
    requires Consistent(RealLayout(env), st)
    ensures Consistent(RealLayout(env), RemoveState(RealLayout(env), st, matching, now))
    ensures forall k | k in st.index :: st.index[k] != []
  {
    RealLayoutGood(env);
    RemoveKeepsConsistent(RealLayout(env), st, matching, now);
    forall k | k in st.index
      ensures st.index[k] != []
    {
      assert GoodRows(RealLayout(env), st.files, st.index[k]);
    }
  }

  function IsVersion(name: string, version: string): Entry -> bool {
    (e: Entry) => Name(e) == name && (Version(e) == version || StripEpoch(Version(e)) == version)
  }

  /** The package is `name`, and its version is the one asked for, or that one
      behind an epoch. */
  ghost predicate Asked(e: Entry, name: string, version: string) {
    Name(e) == name && (Version(e) == version || exists epoch :: ':' !in epoch && Version(e) == epoch + ":" + version)
  }

  lemma IsVersionExact(name: string, version: string, e: Entry)
    ensures IsVersion(name, version)(e) <==> Asked(e, name, version)
  {
    StripEpochExact(Version(e), version);
  }

  /** The rows left of an index are those that were not asked for, in order. */
  ghost predicate Remain(was: seq<Entry>, left: seq<Entry>, name: string, version: string) {
    exists at :: RemainAt(was, left, name, version, at)
  }

  ghost predicate RemainAt(was: seq<Entry>, left: seq<Entry>, name: string, version: string, at: seq<nat>) {
    Selects((e: Entry) => !Asked(e, name, version), was, left, at)
  }

  /** What deleting a version does to the rows, and to the pool. */
  lemma VersionDeleted(env: Env, st: State, name: string, version: string, now: int)
    requires Consistent(RealLayout(env), st)
    ensures var st' := RemoveState(RealLayout(env), st, IsVersion(name, version), now);
            && (forall d, c :: Remain(RowsOf(st.index, d, c), RowsOf(st'.index, d, c), name, version))
            && (forall p | "pool/" <= p && p in st'.files :: p in st.files && st'.files[p] == st.files[p])
  {
    var l, matching := RealLayout(env), IsVersion(name, version);
    var st' := RemoveState(l, st, matching, now);
    RealLayoutGood(env);
    RemovedIndexes(l, st, matching, now);
    forall d, c
      ensures Remain(RowsOf(st.index, d, c), RowsOf(st'.index, d, c), name, version)
    {
      RemovedRowsExact(l, st, matching, d, c);
      RowsRemain(RowsOf(st.index, d, c), name, version);
    }
    forall p | "pool/" <= p && p in st'.files
      ensures p in st.files && st'.files[p] == st.files[p]
    {
      forall d | l.isName(d)
        ensures !l.under(d, p)
      {
        PoolNotUnder(d, p);
      }
      RemovedPool(l, st, matching, now, p);
    }
  }

  lemma RemovedIndexes(l: Layout, st: State, matching: Entry -> bool, now: int)
    requires l.Good() && PoolAgrees(l, st)
    ensures RemoveState(l, st, matching, now).index == RemovedIndex(l, st.index, matching)
  {
    assert forall d | d in SortedKeys(RemoveAffected(st.index, matching)) :: l.isName(d);
    RegeneratedExact(l, State(RemainingFiles(st, matching), RemovedIndex(l, st.index, matching)),
                     SortedKeys(RemoveAffected(st.index, matching)), now);
  }

  lemma RowsRemain(rows: seq<Entry>, name: string, version: string)
    ensures Remain(rows, Filter(Unmatched(IsVersion(name, version)), rows), name, version)
  {
    var at := FilterSelects(Unmatched(IsVersion(name, version)), rows);
    forall j: nat | j < |rows|
      ensures Unmatched(IsVersion(name, version))(rows[j]) <==> !Asked(rows[j], name, version)
    {
      IsVersionExact(name, version, rows[j]);
    }
    assert RemainAt(rows, Filter(Unmatched(IsVersion(name, version)), rows), name, version, at);
  }

  lemma FoundAsked(index: Index, name: string, version: string)
    ensures (exists e :: IsVersion(name, version)(e) && Stores(index, e))
       <==> exists k, e | k in index && e in index[k] :: Asked(e, name, version)
  {
    if e :| IsVersion(name, version)(e) && Stores(index, e) {
      IsVersionExact(name, version, e);
      var k :| k in index && e in index[k];
    }
    if k, e :| k in index && e in index[k] && Asked(e, name, version) {
      IsVersionExact(name, version, e);
      assert Stores(index, e);
    }
  }

  // ---- The repository ----

  class Local {
    const env: Env
    var files: map<string, Bytes>
    var index: Index

    ghost function Stored(): State
      reads this
    {
      State(files, index)
    }

    /** Every row is true of a pool file, every pool file has a row, and what is
        published was generated from the rows. */
    ghost predicate Valid()
      reads this
    {
      Consistent(RealLayout(env), Stored())
    }

    constructor (env: Env)
      ensures Valid() && this.env == env && files == map[] && index == map[]
    {
      this.env := env;
      files, index := map[], map[];
      new;
      EmptyConsistent(env);
    }

    // ---- Regenerating ----

    method WriteAll(root: string, out: seq<IndexFile>) returns (keep: set<string>)
      modifies this`files
      ensures files == old(files) + Placed(root, out)
      ensures keep == {"Release"} + set f | f in out :: f.path
    {
      keep := {"Release"};
      for i := 0 to |out|
        invariant files == old(files) + Placed(root, out[..i])
        invariant keep == {"Release"} + set f | f in out[..i] :: f.path
      {
        PlacedNext(root, out, i);
        keep := keep + {out[i].path};
        files := files[root + "/" + out[i].path := out[i].data];
      }
      assert out[..|out|] == out;
    }

    /** Every file below the distribution, as `Walk` visits them. */
    method Walk(dist: string) returns (rels: seq<string>)
      ensures forall p :: p in rels <==> p in files && Under(dist, p)
    {
      rels := SortedKeys(set p | p in files && Under(dist, p));
    }

    method Sweep(dist: string, keep: set<string>)
      modifies this`files
      ensures files == Swept(old(files), dist, keep)
    {
      var rels := Walk(dist);
      for i := 0 to |rels|
        invariant files == map p | p in old(files) && (p !in rels[..i] || p[|Root(dist)| + 1..] in keep) ::
                    old(files)[p]
      {
        var rel := rels[i];
        assert rel in rels;
        TakeNext(rels, i);
        if rel[|Root(dist)| + 1..] !in keep {
          files := files - {rel};
        }
      }
      assert rels[..|rels|] == rels;
    }

    method DeleteTree(dist: string)
      modifies this`files
      ensures files == WithTree(RealLayout(env), old(files), dist, map[])
    {
      var rels := Walk(dist);
      for i := 0 to |rels|
        invariant files == map p | p in old(files) && p !in rels[..i] :: old(files)[p]
      {
        TakeNext(rels, i);
        files := files - {rels[i]};
      }
      assert rels[..|rels|] == rels;
    }

    /** Release and its signatures. */
    method WriteRelease(root: string, release: Bytes, keep: set<string>) returns (kept: set<string>)
      modifies this`files
      ensures files == old(files) + Signed(env.key, root, release)
      ensures kept == keep + if env.key.Some? then {"Release.gpg", "InRelease"} else {}
    {
      kept := keep;
      SignedPuts(files, env.key, root, release);
      if env.key.Some? {
        files := files[root + "/Release.gpg" := env.key.value.detach(release)];
        kept := kept + {"Release.gpg", "InRelease"};
      }
      files := files[root + "/Release" := release];
      if env.key.Some? {
        files := files[root + "/InRelease" := env.key.value.clear(release)];
      }
    }

    /** Rebuilds dists/{dist}/ from the index. */
    method Regenerate(dist: string, now: int)
      modifies this`files
      ensures files == WithTree(RealLayout(env), old(files), dist, Tree(env, dist, CompsOf(index, dist), now))
    {
      ghost var all := CompsOf(index, dist);
      var comps := Components(index, dist);
      ListedExact(all.Keys);
      var byComp, archSet, used := Gather(index, dist, comps, all);
      if |used| == 0 {
        DeleteTree(dist);
        return;
      }
      var out, release := Generate(dist, now, byComp, archSet, used, all);
      Publish(dist, out, release);
    }

    /** Renders the index files and their Release. */
    method Generate(
      dist: string, now: int, byComp: map<string, seq<Entry>>, archSet: set<string>, used: seq<string>,
      ghost all: map<string, seq<Entry>>)
      returns (out: seq<IndexFile>, release: Bytes)
      requires used == UsedComps(all) && archSet == ArchSet(all) && Agrees(byComp, all, used)
      ensures out == TreeIndexFiles(env.crypto, all) && release == ReleaseOf(env, dist, all, now)
    {
      var arches := SortedKeys(archSet);
      out := PackagesFiles(env.crypto, byComp, used, arches);
      SameFiles(env.crypto, byComp, all, used, arches);
      var h := Heading(env.repo, dist, env.date(now), Join(arches, ' '), Join(used, ' '));
      release := BuildRelease(env.crypto, h, out);
    }

    /** Writes the generated files, and deletes every other file below the
        distribution. */
    method Publish(dist: string, out: seq<IndexFile>, release: Bytes)
      modifies this`files
      ensures files == WithTree(RealLayout(env), old(files), dist,
                                Placed(Root(dist), out) + Signed(env.key, Root(dist), release))
    {
      var keep := WriteAll(Root(dist), out);
      keep := WriteRelease(Root(dist), release, keep);
      assert files == old(files) + (Placed(Root(dist), out) + Signed(env.key, Root(dist), release));
      assert keep == Kept(out, env.key.Some?);
      SweptExact(env, old(files), dist, out, release);
      Sweep(dist, keep);
    }

    method RegenerateAll(dists: seq<string>, now: int)
      modifies this`files
      ensures Stored() == Regenerated(RealLayout(env), old(Stored()), dists, now)
    {
      for i := 0 to |dists|
        invariant Stored() == Regenerated(RealLayout(env), old(Stored()), dists[..i], now)
      {
        TakeNext(dists, i);
        Regenerate(dists[i], now);
      }
      assert dists[..|dists|] == dists;
    }

    // ---- Indexes ----

    /** Every index, loaded. */
    method AllIndexes() returns (refs: seq<IdxRef>)
      ensures Loaded(index, refs)
    {
      var dists := SortedKeys(set k | k in index :: k.0);
      refs := [];
      for i := 0 to |dists|
        invariant forall r | r in refs :: KeyOf(r) in index && r.entries == index[KeyOf(r)]
        invariant forall k | k in index && k.0 in dists[..i] :: Refers(refs, k)
      {
        TakeNext(dists, i);
        var more := IndexesOf(dists[i]);
        ReferMore(refs, more);
        refs := refs + more;
      }
      assert dists[..|dists|] == dists;
    }

    method IndexesOf(dist: string) returns (refs: seq<IdxRef>)
      ensures forall r | r in refs :: KeyOf(r) in index && r.entries == index[KeyOf(r)]
      ensures forall k | k in index && k.0 == dist :: Refers(refs, k)
    {
      var comps := Components(index, dist);
      ListedExact(CompsOf(index, dist).Keys);
      refs := LoadAll(dist, comps);
    }

    method LoadAll(dist: string, comps: seq<string>) returns (refs: seq<IdxRef>)
      requires forall c | c in comps :: (dist, c) in index
      ensures forall r | r in refs :: KeyOf(r) in index && r.entries == index[KeyOf(r)]
      ensures forall c | c in comps :: Refers(refs, (dist, c))
    {
      refs := [];
      for i := 0 to |comps|
        invariant forall r | r in refs :: KeyOf(r) in index && r.entries == index[KeyOf(r)]
        invariant forall c | c in comps[..i] :: Refers(refs, (dist, c))
      {
        TakeNext(comps, i);
        var ref := IdxRef(dist, comps[i], RowsOf(index, dist, comps[i]));
        assert ref in [ref] && KeyOf(ref) == (dist, comps[i]);
        ReferMore(refs, [ref]);
        refs := refs + [ref];
      }
      assert comps[..|comps|] == comps;
    }

    /** Deletes an index without rows, and otherwise writes its rows in order. */
    method SaveIndex(dist: string, comp: string, es: seq<Entry>)
      modifies this`index
      ensures index == if es == [] then old(index) - {(dist, comp)}
                  else old(index)[(dist, comp) := StableSort(EntryLeq(), es)]
    {
      if |es| == 0 {
        index := index - {(dist, comp)};
        return;
      }
      index := index[(dist, comp) := StableSort(EntryLeq(), es)];
    }

    // ---- Uploads ----

    /** Overwrites the rows of the new file in one index. */
    method UpdateIndex(ref: IdxRef, e: Entry, target: bool) returns (changed: bool)
      modifies this`index
      ensures changed <==> Contains(ref.entries, e.filename)
      ensures index == WithRewritten(old(index), ref, e, target)
    {
      var entries := new Entry[|ref.entries|](i requires 0 <= i < |ref.entries| => ref.entries[i]);
      assert entries[..] == ref.entries;
      changed := ReplaceInPlace(entries, e, target);
      if changed {
        SaveIndex(ref.dist, ref.comp, entries[..]);
      }
    }

    method VisitIndex(
      ghost was: Index, refs: seq<IdxRef>, i: nat, e: Entry, t: (string, string), affected: set<string>, target: bool)
      returns (affected': set<string>, target': bool)
      requires i < |refs| && Loaded(was, refs) && Progress(was, index, refs[..i], e, t, affected, target)
      modifies this`index
      ensures Progress(was, index, refs[..i + 1], e, t, affected', target')
    {
      ProgressStep(was, index, refs, i, e, t, affected, target);
      affected', target' := affected, target;
      var ref := refs[i];
      var here := ref.dist == t.0 && ref.comp == t.1;
      var changed := UpdateIndex(ref, e, here);
      if changed {
        affected' := affected + {ref.dist};
        target' := target || here;
      }
    }

    method UpdateIndexes(refs: seq<IdxRef>, e: Entry, t: (string, string))
      returns (affected: set<string>, target: bool)
      requires Loaded(index, refs)
      modifies this`index
      ensures Progress(old(index), index, refs, e, t, affected, target)
    {
      affected, target := {t.0}, false;
      for i := 0 to |refs|
        invariant Progress(old(index), index, refs[..i], e, t, affected, target)
      {
        affected, target := VisitIndex(old(index), refs, i, e, t, affected, target);
      }
      assert refs[..|refs|] == refs;
    }

    /** Stores the file, records it in the target index and wherever else it is
        listed, and regenerates what that changed. */
    method AddDeb(dist: string, comp: string, body: Bytes, ctl: Stanza, published: int, now: int) returns (e: Entry)
      requires Valid() && ReSegment(dist) && ReSegment(comp)
      requires Get(ctl, "Package") != "" && Uploaded(env.crypto, NewEntry(env.crypto, ctl, comp, body, published), body)
      modifies this`files, this`index
      ensures Valid() && e == NewEntry(env.crypto, ctl, comp, body, published)
      ensures Stored() == AddState(RealLayout(env), old(Stored()), dist, comp, e, body, now)
    {
      e := NewEntry(env.crypto, ctl, comp, body, published);
      AddStaysConsistent(env, Stored(), dist, comp, e, body, now);
      Write(dist, comp, e, body, now);
    }

    method Write(dist: string, comp: string, e: Entry, body: Bytes, now: int)
      modifies this`files, this`index
      ensures Stored() == AddState(RealLayout(env), old(Stored()), dist, comp, e, body, now)
    {
      files := files[e.filename := body];
      var affected := Record(dist, comp, e);
      RegenerateAll(SortedKeys(affected), now);
    }

    method Record(dist: string, comp: string, e: Entry) returns (affected: set<string>)
      modifies this`index
      ensures affected == AddAffected(old(index), dist, e.filename)
      ensures index == AddedIndex(RealLayout(env), old(index), dist, comp, e)
    {
      var refs := AllIndexes();
      var target;
      affected, target := UpdateIndexes(refs, e, (dist, comp));
      AddReached(RealLayout(env), old(index), index, refs, e, (dist, comp), affected, target);
      if !target {
        var es := RowsOf(index, dist, comp);
        SaveIndex(dist, comp, es + [e]);
      }
    }

    /** An upload: refused for a bad target or a bad control file. `text` is the
        control file of the package, already unpacked. */
    method Upload(dist: string, comp: string, text: Bytes, body: Bytes, published: int, now: int)
      returns (r: Option<Entry>)
      requires Valid() && GoodCrypto(env.crypto) && |body| < 0x8000_0000_0000_0000
      modifies this`files, this`index
      ensures Valid()
      ensures r.None? ==> Stored() == old(Stored())
      ensures r.Some? <==> ReSegment(dist) && ReSegment(comp) && ControlOf(text).Some?
      ensures r.Some? ==> Get(ControlOf(text).value, "Package") != ""
      ensures r.Some? ==> r.value == NewEntry(env.crypto, ControlOf(text).value, comp, body, published)
      ensures r.Some? ==> Stored() == AddState(RealLayout(env), old(Stored()), dist, comp, r.value, body, now)
    {
      if !ReSegment(dist) || !ReSegment(comp) {
        return None;
      }
      var ctl := ReadControl(text);
      if ctl.None? {
        return None;
      }
      UploadPrints(env.crypto, text, ctl.value, comp, body, published);
      var e := AddDeb(dist, comp, body, ctl.value, published, now);
      return Some(e);
    }

    // ---- Removals ----

    /** Drops the matching rows of one index. */
    method DropRows(ref: IdxRef, matching: Entry -> bool)
      returns (removed: seq<Entry>, referenced: set<string>, changed: bool)
      modifies this`index
      ensures removed == Filter(matching, ref.entries)
      ensures referenced == KeysOf(Filename, Filter(Unmatched(matching), ref.entries))
      ensures changed == Loses(ref.entries, matching)
      ensures index == WithLeft(old(index), ref, matching)
    {
      var entries := new Entry[|ref.entries|](i requires 0 <= i < |ref.entries| => ref.entries[i]);
      assert entries[..] == ref.entries;
      var n;
      n, removed, referenced := KeepInPlace(entries, matching, Unmatched(matching), Filename);
      changed := n != |ref.entries|;
      if changed {
        SaveIndex(ref.dist, ref.comp, entries[..n]);
      }
    }

    method DropAll(refs: seq<IdxRef>, matching: Entry -> bool)
      returns (removed: seq<Entry>, affected: set<string>, referenced: set<string>)
      requires Loaded(index, refs)
      modifies this`index
      ensures Removing(old(index), index, refs, matching, removed, affected, referenced)
    {
      removed, affected, referenced := [], {}, {};
      for i := 0 to |refs|
        invariant Removing(old(index), index, refs[..i], matching, removed, affected, referenced)
      {
        RemovingStep(old(index), index, refs, i, matching, removed, affected, referenced);
        var gone, names, changed := DropRows(refs[i], matching);
        removed := removed + gone;
        referenced := referenced + names;
        if changed {
          affected := affected + {refs[i].dist};
        }
      }
      assert refs[..|refs|] == refs;
    }

    method DeleteUnreferenced(removed: seq<Entry>, referenced: set<string>)
      modifies this`files
      ensures files == map p | p in old(files) && !(p in KeysOf(Filename, removed) && p !in referenced) :: old(files)[p]
    {
      for i := 0 to |removed|
        invariant files == map p | p in old(files) && !(p in KeysOf(Filename, removed[..i]) && p !in referenced) ::
                    old(files)[p]
      {
        TakeNext(removed, i);
        if removed[i].filename !in referenced {
          files := files - {removed[i].filename};
        }
      }
      assert removed[..|removed|] == removed;
    }

    /** Drops the matching rows everywhere, the pool files no row is left for, and
        regenerates what that changed. */
    method RemoveWhere(matching: Entry -> bool, now: int) returns (removed: seq<Entry>)
      requires Valid()
      modifies this`files, this`index
      ensures Valid()
      ensures Stored() == RemoveState(RealLayout(env), old(Stored()), matching, now)
      ensures forall e :: e in removed <==> matching(e) && Stores(old(index), e)
    {
      RemoveStaysConsistent(env, Stored(), matching, now);
      var affected;
      removed, affected := Drop(matching);
      RegenerateAll(SortedKeys(affected), now);
    }

    method Drop(matching: Entry -> bool) returns (removed: seq<Entry>, affected: set<string>)
      requires forall k | k in index :: index[k] != []
      modifies this`files, this`index
      ensures affected == RemoveAffected(old(index), matching)
      ensures index == RemovedIndex(RealLayout(env), old(index), matching)
      ensures files == RemainingFiles(old(Stored()), matching)
      ensures forall e :: e in removed <==> matching(e) && Stores(old(index), e)
    {
      var refs := AllIndexes();
      var referenced;
      removed, affected, referenced := DropAll(refs, matching);
      LosersReached(old(index), refs, matching);
      LeftReached(RealLayout(env), old(index), index, refs, matching);
      DeleteUnreferenced(removed, referenced);
      FilesReached(old(Stored()), refs, matching, files);
      forall e
        ensures e in removed <==> matching(e) && Stores(old(index), e)
      {
        RemovedReached(old(index), refs, matching, e);
      }
    }

    /** Deletes a version of a package, written with or without its epoch. */
    method DeleteVersion(name: string, version: string, now: int) returns (found: bool)
      requires Valid()
      modifies this`files, this`index
      ensures Valid()
      ensures Stored() == RemoveState(RealLayout(env), old(Stored()), IsVersion(name, version), now)
      ensures found <==> exists k, e | k in old(index) && e in old(index)[k] :: Asked(e, name, version)
      ensures forall d, c :: Remain(RowsOf(old(index), d, c), RowsOf(index, d, c), name, version)
      ensures forall p | "pool/" <= p && p in files :: p in old(files) && files[p] == old(files)[p]
    {
      VersionDeleted(env, Stored(), name, version, now);
      FoundAsked(index, name, version);
      var removed := RemoveWhere(IsVersion(name, version), now);
      found := |removed| != 0;
      if found {
        assert removed[0] in removed;
      }
    }
  }
}
