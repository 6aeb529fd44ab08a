/** The generated tree of a distribution (internal/registry/apt/apt.go), and
    the layout of a real repository. */
module AptTree {
  import opened Strings
  import opened Sorting
  import opened Deb822
  import opened AptControl
  import opened AptRepo
  import opened AptEntries
  import opened AptRelease

  /** A signing key: detached and clear-text signatures. */
  datatype Signer = Signer(detach: Bytes -> Bytes, clear: Bytes -> Bytes)

  /** One repository's settings; `date` prints a time. */
  datatype Env = Env(crypto: Crypto, repo: string, date: int -> string, key: Option<Signer>)

  function Root(dist: string): string {
    "dists/" + dist
  }

  /** Below dists/{dist}/. */
  predicate Under(dist: string, p: string) {
    Root(dist) + "/" <= p
  }

  // ---- The index files ----

  function PackagesPath(c: string, a: string): string {
    c + "/binary-" + a + "/Packages"
  }

  function FilesFor(cr: Crypto, rows: seq<Entry>, c: string, arches: seq<string>): seq<IndexFile> {
    if arches == [] then []
    else
      var a := arches[|arches| - 1];
      var raw := PackagesText(rows, a);
      FilesFor(cr, rows, c, arches[..|arches| - 1])
      + [IndexFile(PackagesPath(c, a), raw), IndexFile(PackagesPath(c, a) + ".gz", cr.gzip(raw))]
  }

  /** Packages and Packages.gz for every component and architecture. */
  function AllFiles(cr: Crypto, comps: map<string, seq<Entry>>, used: seq<string>, arches: seq<string>): seq<IndexFile>
    requires forall c | c in used :: c in comps
  {
    if used == [] then []
    else
      var c := used[|used| - 1];
      AllFiles(cr, comps, used[..|used| - 1], arches) + FilesFor(cr, comps[c], c, arches)
  }

  method ComponentFiles(cr: Crypto, rows: seq<Entry>, c: string, arches: seq<string>) returns (files: seq<IndexFile>)
    ensures files == FilesFor(cr, rows, c, arches)
  {
    files := [];
    for j := 0 to |arches|
      invariant files == FilesFor(cr, rows, c, arches[..j])
    {
      TakeNext(arches, j);
      var raw := RenderPackages(rows, arches[j]);
      var rel := PackagesPath(c, arches[j]);
      files := files + [IndexFile(rel, raw), IndexFile(rel + ".gz", cr.gzip(raw))];
    }
    assert arches[..|arches|] == arches;
  }

  method PackagesFiles(cr: Crypto, comps: map<string, seq<Entry>>, used: seq<string>, arches: seq<string>)
    returns (files: seq<IndexFile>)
    requires forall c | c in used :: c in comps
    ensures files == AllFiles(cr, comps, used, arches)
  {
    files := [];
    for i := 0 to |used|
      invariant files == AllFiles(cr, comps, used[..i], arches)
    {
      TakeNext(used, i);
      assert used[i] in used;
      var more := ComponentFiles(cr, comps[used[i]], used[i], arches);
      files := files + more;
    }
    assert used[..|used|] == used;
  }

  // ---- The tree ----

  function TrimJson(name: string): string {
    if |name| >= 5 && name[|name| - 5..] == ".json" then name[..|name| - 5] else name
  }

  function TrimAll(names: seq<string>): seq<string> {
    seq(|names|, i requires 0 <= i < |names| => TrimJson(names[i]))
  }

  /** The components of a distribution, in the order of their files: "a-b.json"
      is before "a.json". */
  function Listed(comps: set<string>): seq<string> {
    TrimAll(SortedKeys(set c | c in comps :: c + ".json"))
  }

  lemma ListedExact(comps: set<string>)
    ensures forall c :: c in Listed(comps) <==> c in comps
  {
    var names := SortedKeys(set c | c in comps :: c + ".json");
    forall c: string
      ensures TrimJson(c + ".json") == c
    {
    }
    forall c | c in comps
      ensures c in Listed(comps)
    {
      assert c + ".json" in names;
      var i :| 0 <= i < |names| && names[i] == c + ".json";
      assert Listed(comps)[i] == c;
    }
    forall c | c in Listed(comps)
      ensures c in comps
    {
      var i :| 0 <= i < |names| && Listed(comps)[i] == c;
      assert names[i] in names;
      var d :| d in comps && d + ".json" == names[i];
      assert TrimJson(d + ".json") == d;
    }
  }

  function HasRows(comps: map<string, seq<Entry>>): string -> bool {
    (c: string) => c in comps && comps[c] != []
  }

  function UsedComps(comps: map<string, seq<Entry>>): seq<string> {
    Filter(HasRows(comps), Listed(comps.Keys))
  }

  lemma UsedExact(comps: map<string, seq<Entry>>)
    ensures forall c :: c in UsedComps(comps) <==> c in comps && comps[c] != []
  {
    ListedExact(comps.Keys);
  }

  function RowArches(rows: seq<Entry>): set<string> {
    if rows == [] then {}
    else
      var a := Arch(rows[|rows| - 1]);
      RowArches(rows[..|rows| - 1]) + (if a != "all" then {a} else {})
  }

  function CompArches(comps: map<string, seq<Entry>>, used: seq<string>): set<string>
    requires forall c | c in used :: c in comps
  {
    if used == [] then {}
    else CompArches(comps, used[..|used| - 1]) + RowArches(comps[used[|used| - 1]])
  }

  /** Those of the rows, and always amd64 and arm64. */
  function ArchSet(comps: map<string, seq<Entry>>): set<string> {
    UsedExact(comps);
    {"amd64", "arm64"} + CompArches(comps, UsedComps(comps))
  }

  function TreeIndexFiles(cr: Crypto, comps: map<string, seq<Entry>>): seq<IndexFile> {
    UsedExact(comps);
    AllFiles(cr, comps, UsedComps(comps), SortedKeys(ArchSet(comps)))
  }

  function HeadingOf(env: Env, dist: string, comps: map<string, seq<Entry>>, now: int): Heading {
    Heading(env.repo, dist, env.date(now), Join(SortedKeys(ArchSet(comps)), ' '), Join(UsedComps(comps), ' '))
  }

  function ReleaseOf(env: Env, dist: string, comps: map<string, seq<Entry>>, now: int): Bytes {
    ReleaseText(env.crypto, HeadingOf(env, dist, comps, now), TreeIndexFiles(env.crypto, comps))
  }

  /** Files by their paths below the root, moved below it. */
  function Placed(root: string, files: seq<IndexFile>): map<string, Bytes> {
    if files == [] then map[]
    else Placed(root, files[..|files| - 1])[root + "/" + files[|files| - 1].path := files[|files| - 1].data]
  }

  /** Release and its signatures. */
  function Signed(key: Option<Signer>, root: string, release: Bytes): map<string, Bytes> {
    match key
    case None => map[root + "/Release" := release]
    case Some(k) =>
      map[root + "/Release.gpg" := k.detach(release), root + "/Release" := release,
          root + "/InRelease" := k.clear(release)]
  }

  /** Everything generated below dists/{dist}/, by full path. */
  function Tree(env: Env, dist: string, comps: map<string, seq<Entry>>, now: int): map<string, Bytes> {
    if UsedComps(comps) == [] then map[]
    else
      var signed := Signed(env.key, Root(dist), ReleaseOf(env, dist, comps, now));
      Placed(Root(dist), TreeIndexFiles(env.crypto, comps)) + signed
  }

  lemma {:induction false} PlacedUnder(dist: string, files: seq<IndexFile>)
    ensures forall p | p in Placed(Root(dist), files) :: Under(dist, p)
    ensures forall p :: Root(dist) + "/" + p in Placed(Root(dist), files) <==> p in Contents(files)
    ensures forall p | p in Contents(files) :: Placed(Root(dist), files)[Root(dist) + "/" + p] == Contents(files)[p]
  {
    if files != [] {
      var n := |files| - 1;
      PlacedUnder(dist, files[..n]);
      assert forall p: string, q: string :: Root(dist) + "/" + p == Root(dist) + "/" + q ==> p == q by {
        forall p: string, q: string | Root(dist) + "/" + p == Root(dist) + "/" + q
          ensures p == q
        {
          BelowRoot(Root(dist), p);
          BelowRoot(Root(dist), q);
        }
      }
    }
  }

  lemma BelowRoot(root: string, p: string)
    ensures (root + "/" + p)[|root| + 1..] == p
  {
  }

  // ---- What a client finds in it ----

  lemma PackagesPathShape(c: string, a: string)
    ensures PackagesPath(c, a) == c + "/" + ("binary-" + a) + "/" + "Packages"
    ensures PackagesPath(c, a) + ".gz" == c + "/" + ("binary-" + a) + "/" + "Packages.gz"
  {
    assert "Packages" + ".gz" == "Packages.gz";
  }

  lemma PackagesPathsDiffer(c: string, a: string, c': string, a': string)
    requires '/' !in c && '/' !in a && '/' !in c' && '/' !in a'
    ensures PackagesPath(c, a) == PackagesPath(c', a') ==> c == c' && a == a'
    ensures PackagesPath(c, a) + ".gz" == PackagesPath(c', a') + ".gz" ==> c == c' && a == a'
    ensures PackagesPath(c, a) != PackagesPath(c', a') + ".gz"
  {
    var b, b' := "binary-" + a, "binary-" + a';
    assert b[7..] == a && b'[7..] == a';
    PackagesPathShape(c, a);
    PackagesPathShape(c', a');
    PathParts(c, b, c', b', "Packages", "Packages");
    PathParts(c, b, c', b', "Packages.gz", "Packages.gz");
    PathParts(c, b, c', b', "Packages", "Packages.gz");
    assert |"Packages"| != |"Packages.gz"|;
  }

  lemma PathParts(c: string, b: string, c': string, b': string, x: string, y: string)
    requires '/' !in c && '/' !in b && '/' !in c' && '/' !in b'
    ensures c + "/" + b + "/" + x == c' + "/" + b' + "/" + y ==> c == c' && b == b' && x == y
  {
    if c + "/" + b + "/" + x == c' + "/" + b' + "/" + y {
      assert c + "/" + b + "/" + x == c + ['/'] + (b + ['/'] + x);
      assert c' + "/" + b' + "/" + y == c' + ['/'] + (b' + ['/'] + y);
      CutUnique(c, b + ['/'] + x, c', b' + ['/'] + y, '/');
      CutUnique(b, x, b', y, '/');
    }
  }

  // ---- Which index files there are ----

  lemma {:induction false} ContentsConcat(a: seq<IndexFile>, b: seq<IndexFile>)
    ensures Contents(a + b) == Contents(a) + Contents(b)
  {
    if b == [] {
      assert a + b == a;
    } else {
      var n := |b| - 1;
      assert (a + b)[..|a + b| - 1] == a + b[..n];
      ContentsConcat(a, b[..n]);
    }
  }

  function At(files: map<string, Bytes>, p: string): Option<Bytes> {
    if p in files then Some(files[p]) else None
  }

  lemma AtConcat(a: seq<IndexFile>, b: seq<IndexFile>, p: string)
    ensures At(Contents(a + b), p) == if At(Contents(b), p).Some? then At(Contents(b), p) else At(Contents(a), p)
  {
    ContentsConcat(a, b);
  }

  lemma AtPair(f: IndexFile, g: IndexFile, p: string)
    ensures At(Contents([f, g]), p) == if p == g.path then Some(g.data) else if p == f.path then Some(f.data) else None
  {
    assert [f, g][..1] == [f] && [f][..0] == [];
    assert Contents([f]) == map[][f.path := f.data];
  }

  lemma {:induction false} FilesForContents(cr: Crypto, rows: seq<Entry>, c: string, arches: seq<string>, c': string,
      a': string)
    requires '/' !in c && '/' !in c' && '/' !in a' && forall a | a in arches :: '/' !in a
    ensures var files := Contents(FilesFor(cr, rows, c, arches));
            var raw := PackagesText(rows, a');
            && At(files, PackagesPath(c', a')) == (if c' == c && a' in arches then Some(raw) else None)
            && At(files, PackagesPath(c', a') + ".gz") == (if c' == c && a' in arches then Some(cr.gzip(raw)) else None)
  {
    if arches != [] {
      var n := |arches| - 1;
      var a := arches[n];
      var raw := PackagesText(rows, a);
      var front := FilesFor(cr, rows, c, arches[..n]);
      FilesForContents(cr, rows, c, arches[..n], c', a');
      var f, g := IndexFile(PackagesPath(c, a), raw), IndexFile(PackagesPath(c, a) + ".gz", cr.gzip(raw));
      assert arches == arches[..n] + [a];
      PackagesPathsDiffer(c', a', c, a);
      PackagesPathsDiffer(c, a, c', a');
      AtPair(f, g, PackagesPath(c', a'));
      AtPair(f, g, PackagesPath(c', a') + ".gz");
      AtConcat(front, [f, g], PackagesPath(c', a'));
      AtConcat(front, [f, g], PackagesPath(c', a') + ".gz");
    }
  }

  /** The index files hold the Packages text of every component and
      architecture, and its gzip, under their paths - and no others'. */
  lemma {:induction false} AllFilesContents(
    cr: Crypto, comps: map<string, seq<Entry>>, used: seq<string>, arches: seq<string>, c': string, a': string)
    requires (forall c | c in used :: c in comps && '/' !in c) && forall a | a in arches :: '/' !in a
    requires '/' !in c' && '/' !in a'
    ensures var files := Contents(AllFiles(cr, comps, used, arches));
            && At(files, PackagesPath(c', a'))
               == (if c' in used && a' in arches then Some(PackagesText(comps[c'], a')) else None)
            && At(files, PackagesPath(c', a') + ".gz")
               == (if c' in used && a' in arches then Some(cr.gzip(PackagesText(comps[c'], a'))) else None)
  {
    if used != [] {
      var n := |used| - 1;
      var c := used[n];
      var front, last := AllFiles(cr, comps, used[..n], arches), FilesFor(cr, comps[c], c, arches);
      AllFilesContents(cr, comps, used[..n], arches, c', a');
      FilesForContents(cr, comps[c], c, arches, c', a');
      AtConcat(front, last, PackagesPath(c', a'));
      AtConcat(front, last, PackagesPath(c', a') + ".gz");
      assert used == used[..n] + [c];
    }
  }

  /** The Packages file of a component and an architecture, or its gzip. */
  predicate IsIndexFile(cr: Crypto, rows: seq<Entry>, c: string, a: string, f: IndexFile) {
    var raw := PackagesText(rows, a);
    f == IndexFile(PackagesPath(c, a), raw) || f == IndexFile(PackagesPath(c, a) + ".gz", cr.gzip(raw))
  }

  /** Every file is one of these. */
  ghost predicate IndexFiles(
    cr: Crypto, comps: map<string, seq<Entry>>, files: seq<IndexFile>, used: seq<string>, arches: seq<string>)
    requires forall c | c in used :: c in comps
  {
    forall f | f in files :: exists c, a | c in used && a in arches :: IsIndexFile(cr, comps[c], c, a, f)
  }

  lemma {:induction false} FilesForAre(cr: Crypto, rows: seq<Entry>, c: string, arches: seq<string>)
    ensures forall f | f in FilesFor(cr, rows, c, arches) :: exists a | a in arches :: IsIndexFile(cr, rows, c, a, f)
  {
    if arches != [] {
      var n := |arches| - 1;
      FilesForAre(cr, rows, c, arches[..n]);
      assert arches == arches[..n] + [arches[n]];
      assert arches[n] in arches;
    }
  }

  lemma {:induction false} AllFilesAre(
    cr: Crypto, comps: map<string, seq<Entry>>, used: seq<string>, arches: seq<string>)
    requires forall c | c in used :: c in comps
    ensures IndexFiles(cr, comps, AllFiles(cr, comps, used, arches), used, arches)
  {
    if used != [] {
      var n := |used| - 1;
      var c := used[n];
      assert used == used[..n] + [c];
      AllFilesAre(cr, comps, used[..n], arches);
      FilesForAre(cr, comps[c], c, arches);
      forall f | f in AllFiles(cr, comps, used, arches)
        ensures exists x, a | x in used && a in arches :: IsIndexFile(cr, comps[x], x, a, f)
      {
        if f in FilesFor(cr, comps[c], c, arches) {
          var a :| a in arches && IsIndexFile(cr, comps[c], c, a, f);
          assert c in used;
        } else {
          var x, a :| x in used[..n] && a in arches && IsIndexFile(cr, comps[x], x, a, f);
          assert x in used;
        }
      }
    }
  }

  /** No path is listed with two contents. */
  lemma AllFilesOnce(
    cr: Crypto, comps: map<string, seq<Entry>>, used: seq<string>, arches: seq<string>, f: IndexFile)
    requires (forall c | c in used :: c in comps && '/' !in c) && forall a | a in arches :: '/' !in a
    requires f in AllFiles(cr, comps, used, arches)
    ensures At(Contents(AllFiles(cr, comps, used, arches)), f.path) == Some(f.data)
  {
    AllFilesAre(cr, comps, used, arches);
    var c, a :| c in used && a in arches && IsIndexFile(cr, comps[c], c, a, f);
    AllFilesContents(cr, comps, used, arches, c, a);
  }

  lemma {:induction false} ContentsOf(files: seq<IndexFile>)
    ensures forall p :: p in Contents(files) <==> exists f | f in files :: f.path == p
  {
    if files != [] {
      var n := |files| - 1;
      ContentsOf(files[..n]);
      assert files == files[..n] + [files[n]];
    }
  }
}
