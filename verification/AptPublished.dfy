/** What a client of a local repository finds: the layout of the abstract core
    is the real one, and its three layers say the same. */
module AptPublished {
  import opened Strings
  import opened Sorting
  import opened Deb822
  import opened AptControl
  import opened AptRepo
  import opened AptEntries
  import opened AptUploads
  import opened AptRelease
  import opened AptTree

  ghost function RealLayout(env: Env): Layout {
    Layout(
      EntryLeq(),
      (e: Entry, body: Bytes) => Uploaded(env.crypto, e, body),
      (s: string) => ReSegment(s),
      (d: string, p: string) => Under(d, p),
      (d: string, comps: map<string, seq<Entry>>, now: int) => Tree(env, d, comps, now))
  }

  lemma UnderOne(d: string, e: string, p: string)
    requires '/' !in d && '/' !in e && Under(d, p) && Under(e, p)
    ensures d == e
  {
    var x, y := p[|Root(d)| + 1..], p[|Root(e)| + 1..];
    assert p == "dists/" + (d + ['/'] + x) && p == "dists/" + (e + ['/'] + y);
    assert p[6..] == d + ['/'] + x && p[6..] == e + ['/'] + y;
    CutUnique(d, x, e, y, '/');
  }

  lemma TreeUnder(env: Env, d: string, comps: map<string, seq<Entry>>, now: int)
    ensures forall p | p in Tree(env, d, comps, now) :: Under(d, p)
  {
    PlacedUnder(d, TreeIndexFiles(env.crypto, comps));
    SignedUnder(env.key, d, ReleaseOf(env, d, comps, now));
  }

  lemma SignedUnder(key: Option<Signer>, d: string, release: Bytes)
    ensures forall p | p in Signed(key, Root(d), release) :: Under(d, p)
  {
    assert Root(d) + "/Release" == Root(d) + "/" + "Release";
    assert Root(d) + "/Release.gpg" == Root(d) + "/" + "Release.gpg";
    assert Root(d) + "/InRelease" == Root(d) + "/" + "InRelease";
  }

  lemma PoolNotUnder(d: string, p: string)
    requires "pool/" <= p
    ensures !Under(d, p)
  {
    assert p[0] == 'p' && (Root(d) + "/")[0] == 'd';
  }

  lemma UploadedIgnoresTime(cr: Crypto, e: Entry, t: int, body: Bytes)
    ensures Uploaded(cr, e.(published := t), body) <==> Uploaded(cr, e, body)
  {
    var later := e.(published := t);
    assert later.control == e.control && later.filename == e.filename;
    SameStanza(e, later);
  }

  lemma SameStanza(a: Entry, b: Entry)
    requires a.(published := 0) == b.(published := 0)
    ensures PackagesStanza(a) == PackagesStanza(b)
  {
  }

  /** The real orders, paths and trees are as the core needs them. */
  lemma RealLayoutGood(env: Env)
    ensures RealLayout(env).Good()
  {
    var l := RealLayout(env);
    EntryOrder();
    forall d, e, p | l.isName(d) && l.isName(e) && l.under(d, p) && l.under(e, p)
      ensures d == e
    {
      UnderOne(d, e, p);
    }
    forall d, comps, now, p | l.isName(d) && p in l.tree(d, comps, now)
      ensures l.under(d, p)
    {
      TreeUnder(env, d, comps, now);
    }
    forall e, body, d | l.describes(e, body) && l.isName(d)
      ensures !l.under(d, e.filename)
    {
      PoolNotUnder(d, e.filename);
    }
    forall e: Entry, t, body
      ensures l.describes(e.(published := t), body) <==> l.describes(e, body)
    {
      UploadedIgnoresTime(env.crypto, e, t, body);
    }
  }

  lemma NothingUsed(comps: map<string, seq<Entry>>)
    requires comps == map[]
    ensures UsedComps(comps) == []
  {
    assert (set c | c in comps.Keys :: c + ".json") == {};
    assert |Listed(comps.Keys)| == 0;
  }

  lemma EmptyConsistent(env: Env)
    ensures Consistent(RealLayout(env), State(map[], map[]))
  {
    var l, st := RealLayout(env), State(map[], map[]);
    forall d | l.isName(d)
      ensures TreeCurrent(l, st, d)
    {
      var comps := CompsOf(st.index, d);
      assert comps == map[];
      NothingUsed(comps);
      assert Tree(env, d, comps, 0) == map[];
      assert TreeOf(l, st.files, d) == l.tree(d, comps, 0);
    }
  }

  // ---- Only time tells two generations apart ----

  predicate Stamped(d: string, p: string) {
    p == Root(d) + "/Release" || p == Root(d) + "/Release.gpg" || p == Root(d) + "/InRelease"
  }

  lemma TreeTimeOnly(env: Env, d: string, comps: map<string, seq<Entry>>, now: int, later: int)
    ensures var a, b := Tree(env, d, comps, now), Tree(env, d, comps, later);
            a.Keys == b.Keys && forall p | p in a && !Stamped(d, p) :: a[p] == b[p]
    ensures HeadingOf(env, d, comps, later) == HeadingOf(env, d, comps, now).(date := env.date(later))
  {
    var files := Placed(Root(d), TreeIndexFiles(env.crypto, comps));
    var r, r' := ReleaseOf(env, d, comps, now), ReleaseOf(env, d, comps, later);
    SignedStamped(env.key, d, r);
    SignedStamped(env.key, d, r');
    MergeStamped(d, files, Signed(env.key, Root(d), r), Signed(env.key, Root(d), r'));
  }

  lemma SignedStamped(key: Option<Signer>, d: string, release: Bytes)
    ensures forall p :: p in Signed(key, Root(d), release) <==>
                p == Root(d) + "/Release" || (key.Some? && Stamped(d, p))
  {
  }

  lemma MergeStamped(d: string, files: map<string, Bytes>, a: map<string, Bytes>, b: map<string, Bytes>)
    requires a.Keys == b.Keys && forall p | p in a :: Stamped(d, p)
    ensures (files + a).Keys == (files + b).Keys
    ensures forall p | p in files + a && !Stamped(d, p) :: (files + a)[p] == (files + b)[p]
  {
  }

  /** Release and its signatures, as generated from the rows on a date. */
  ghost predicate ReleaseOn(
    env: Env, files: map<string, Bytes>, d: string, comps: map<string, seq<Entry>>, date: string)
  {
    var heading := HeadingOf(env, d, comps, 0).(date := date);
    var release := ReleaseText(env.crypto, heading, TreeIndexFiles(env.crypto, comps));
    && At(files, Root(d) + "/Release") == Some(release)
    && (env.key.Some? ==>
          && At(files, Root(d) + "/Release.gpg") == Some(env.key.value.detach(release))
          && At(files, Root(d) + "/InRelease") == Some(env.key.value.clear(release)))
  }

  /** The rebuilt distribution is the one there was: the same files with the same
      bytes, and Release and its signatures but for the date. */
  ghost predicate SameButDate(
    env: Env, files: map<string, Bytes>, full: map<string, Bytes>, d: string, comps: map<string, seq<Entry>>, now: int)
  {
    && (forall p | Under(d, p) :: p in files <==> p in full)
    && (forall p | Under(d, p) && p in files && !Stamped(d, p) :: files[p] == full[p])
    && (UsedComps(comps) != [] ==>
          && ReleaseOn(env, full, d, comps, env.date(now))
          && exists t: int :: ReleaseOn(env, files, d, comps, env.date(t)))
  }

  /** Incremental equals full: after any run of uploads and removals from the
      empty repository, each regenerating only what it affects, rebuilding every
      distribution from scratch changes nothing below any of them, but the date
      in Release and its signatures. */
  lemma RebuildChangesNothing(env: Env, ops: seq<Op>, all: seq<string>, now: int, d: string)
    requires forall i | 0 <= i < |ops| :: Admitted(RealLayout(env), ops[i])
    requires (forall x | x in all :: ReSegment(x)) && d in all
    ensures var st := Run(RealLayout(env), State(map[], map[]), ops);
            SameButDate(env, st.files, Regenerated(RealLayout(env), st, all, now).files, d, CompsOf(st.index, d), now)
  {
    var l := RealLayout(env);
    RealLayoutGood(env);
    EmptyConsistent(env);
    RunsStayConsistent(l, State(map[], map[]), ops);
    RebuildOf(env, Run(l, State(map[], map[]), ops), all, now, d);
  }

  lemma RebuildOf(env: Env, st: State, all: seq<string>, now: int, d: string)
    requires RealLayout(env).Good() && Consistent(RealLayout(env), st)
    requires (forall x | x in all :: ReSegment(x)) && d in all
    ensures SameButDate(env, st.files, Regenerated(RealLayout(env), st, all, now).files, d, CompsOf(st.index, d), now)
  {
    var l := RealLayout(env);
    assert l.isName(d);
    IncrementalIsFullRebuild(l, st, all, now, d);
    var full := Regenerated(l, st, all, now);
    var comps := CompsOf(st.index, d);
    var t: int :| TreeOf(l, st.files, d) == l.tree(d, comps, t);
    TreesDifferInDate(env, l, st.files, full.files, d, comps, t, now);
  }

  lemma TreesDifferInDate(
    env: Env, l: Layout, files: map<string, Bytes>, full: map<string, Bytes>, d: string,
    comps: map<string, seq<Entry>>, t: int, now: int)
    requires l == RealLayout(env)
    requires TreeOf(l, files, d) == Tree(env, d, comps, t) && TreeOf(l, full, d) == Tree(env, d, comps, now)
    ensures SameButDate(env, files, full, d, comps, now)
  {
    TreeTimeOnly(env, d, comps, t, now);
    forall p | Under(d, p)
      ensures At(files, p) == At(Tree(env, d, comps, t), p) && At(full, p) == At(Tree(env, d, comps, now), p)
    {
      assert p in files <==> p in TreeOf(l, files, d);
      assert p in full <==> p in TreeOf(l, full, d);
    }
    if UsedComps(comps) != [] {
      TreeReleaseOn(env, files, d, comps, t);
      TreeReleaseOn(env, full, d, comps, now);
    }
  }

  lemma TreeReleaseOn(env: Env, files: map<string, Bytes>, d: string, comps: map<string, seq<Entry>>, t: int)
    requires UsedComps(comps) != [] && forall p | Under(d, p) :: At(files, p) == At(Tree(env, d, comps, t), p)
    ensures ReleaseOn(env, files, d, comps, env.date(t))
  {
    TreeParts(env, d, comps, t);
    SignedFound(env.key, files, Placed(Root(d), TreeIndexFiles(env.crypto, comps)), d, ReleaseOf(env, d, comps, t));
  }

  lemma TreeParts(env: Env, d: string, comps: map<string, seq<Entry>>, t: int)
    requires UsedComps(comps) != []
    ensures Tree(env, d, comps, t)
         == Placed(Root(d), TreeIndexFiles(env.crypto, comps)) + Signed(env.key, Root(d), ReleaseOf(env, d, comps, t))
  {
  }

  lemma SignedFound(
    key: Option<Signer>, files: map<string, Bytes>, placed: map<string, Bytes>, d: string, release: Bytes)
    requires forall p | Under(d, p) :: At(files, p) == At(placed + Signed(key, Root(d), release), p)
    ensures At(files, Root(d) + "/Release") == Some(release)
    ensures key.Some? ==>
              && At(files, Root(d) + "/Release.gpg") == Some(key.value.detach(release))
              && At(files, Root(d) + "/InRelease") == Some(key.value.clear(release))
  {
    SignedUnder(key, d, release);
    SignedFiles(key, d, release);
    var signed := Signed(key, Root(d), release);
    forall p | p in signed
      ensures At(files, p) == At(signed, p)
    {
      assert Under(d, p);
    }
  }

  lemma SignedFiles(key: Option<Signer>, d: string, release: Bytes)
    ensures var signed := Signed(key, Root(d), release);
            && At(signed, Root(d) + "/Release") == Some(release)
            && (key.Some? ==>
                  && At(signed, Root(d) + "/Release.gpg") == Some(key.value.detach(release))
                  && At(signed, Root(d) + "/InRelease") == Some(key.value.clear(release)))
  {
    var root := Root(d);
    assert |root + "/Release"| == |root| + 8 && |root + "/Release.gpg"| == |root| + 12;
    assert (root + "/Release")[|root| + 1] == 'R' && (root + "/InRelease")[|root| + 1] == 'I';
    assert (root + "/Release.gpg")[|root| + 1] == 'R';
  }

  // ---- Packages ----

  predicate PlainName(s: string) {
    '/' !in s && Word(s)
  }

  /** The names an index is stored and printed under. */
  ghost predicate PlainNames(comps: map<string, seq<Entry>>) {
    forall c | c in comps :: PlainName(c) && forall e | e in comps[c] :: PlainName(Arch(e))
  }

  lemma {:induction false} RowArchesExact(rows: seq<Entry>)
    ensures forall a :: a in RowArches(rows) <==> a != "all" && HasArch(rows, a)
  {
    if rows != [] {
      var n := |rows| - 1;
      RowArchesExact(rows[..n]);
      forall a: string {
        HasArchStep(rows, a);
      }
    }
  }

  ghost predicate HasArch(rows: seq<Entry>, a: string) {
    exists e | e in rows :: Arch(e) == a
  }

  lemma HasArchStep(rows: seq<Entry>, a: string)
    requires rows != []
    ensures HasArch(rows, a) <==> HasArch(rows[..|rows| - 1], a) || Arch(rows[|rows| - 1]) == a
  {
    var front, last := rows[..|rows| - 1], rows[|rows| - 1];
    assert rows == front + [last];
    assert last in rows;
  }

  lemma {:induction false} CompArchesExact(comps: map<string, seq<Entry>>, used: seq<string>)
    requires forall c | c in used :: c in comps
    ensures forall a :: a in CompArches(comps, used) <==> exists c | c in used :: a in RowArches(comps[c])
  {
    if used != [] {
      var n := |used| - 1;
      CompArchesExact(comps, used[..n]);
      assert used == used[..n] + [used[n]];
    }
  }

  /** The architectures published: amd64, arm64, and those of the rows. */
  lemma ArchSetExact(comps: map<string, seq<Entry>>, a: string)
    ensures a in ArchSet(comps) <==>
              a == "amd64" || a == "arm64" || (a != "all" && exists c, e | c in comps && e in comps[c] :: Arch(e) == a)
  {
    var used := UsedComps(comps);
    UsedExact(comps);
    CompArchesExact(comps, used);
    if a in CompArches(comps, used) {
      var c :| c in used && a in RowArches(comps[c]);
      RowArchesExact(comps[c]);
    }
    if a != "all" && exists c, e | c in comps && e in comps[c] :: Arch(e) == a {
      var c, e :| c in comps && e in comps[c] && Arch(e) == a;
      RowArchesExact(comps[c]);
      assert c in used && a in RowArches(comps[c]);
    }
  }

  lemma ArchesPlain(comps: map<string, seq<Entry>>)
    requires PlainNames(comps)
    ensures forall a | a in SortedKeys(ArchSet(comps)) :: PlainName(a)
  {
    var arches := ArchSet(comps);
    forall a | a in arches
      ensures PlainName(a)
    {
      ArchPlain(comps, a);
    }
  }

  lemma ArchPlain(comps: map<string, seq<Entry>>, a: string)
    requires PlainNames(comps) && a in ArchSet(comps)
    ensures PlainName(a)
  {
    ArchSetExact(comps, a);
    DefaultsPlain();
  }

  lemma DefaultsPlain()
    ensures PlainName("amd64") && PlainName("arm64")
  {
  }

  lemma IndexPackages(cr: Crypto, comps: map<string, seq<Entry>>, c: string, a: string)
    requires PlainNames(comps) && c in comps && comps[c] != [] && a in ArchSet(comps)
    ensures var files := Contents(TreeIndexFiles(cr, comps));
            && At(files, PackagesPath(c, a)) == Some(PackagesText(comps[c], a))
            && At(files, PackagesPath(c, a) + ".gz") == Some(cr.gzip(PackagesText(comps[c], a)))
  {
    UsedExact(comps);
    ArchesPlain(comps);
    var used, arches := UsedComps(comps), SortedKeys(ArchSet(comps));
    assert c in used && a in arches;
    ArchPlain(comps, a);
    AllFilesContents(cr, comps, used, arches, c, a);
  }

  /** The generated tree holds, for every component with rows and every
      architecture, the Packages text of those rows and its gzip. */
  lemma TreePackages(env: Env, d: string, comps: map<string, seq<Entry>>, now: int, c: string, a: string)
    requires PlainNames(comps) && c in comps && comps[c] != [] && a in ArchSet(comps)
    ensures At(Tree(env, d, comps, now), Root(d) + "/" + PackagesPath(c, a)) == Some(PackagesText(comps[c], a))
    ensures At(Tree(env, d, comps, now), Root(d) + "/" + (PackagesPath(c, a) + ".gz"))
         == Some(env.crypto.gzip(PackagesText(comps[c], a)))
  {
    IndexPackages(env.crypto, comps, c, a);
    UsedExact(comps);
    assert c in UsedComps(comps);
    TreeIndexFile(env, d, comps, now, PackagesPath(c, a));
    TreeIndexFile(env, d, comps, now, PackagesPath(c, a) + ".gz");
  }

  lemma IndexFileNested(cr: Crypto, rows: seq<Entry>, c: string, a: string, f: IndexFile)
    requires IsIndexFile(cr, rows, c, a, f)
    ensures '/' in f.path && (Word(c) && Word(a) ==> Word(f.path))
  {
    assert f.path[|c|] == '/';
    if Word(c) && Word(a) {
      PackagesPathWord(c, a);
    }
  }

  lemma PackagesPathWord(c: string, a: string)
    requires Word(c) && Word(a)
    ensures Word(PackagesPath(c, a)) && Word(PackagesPath(c, a) + ".gz")
  {
  }

  /** Release does not list itself and its signatures. */
  predicate Unlisted(p: string) {
    p == "Release" || p == "Release.gpg" || p == "InRelease"
  }

  lemma SignedFlat(key: Option<Signer>, d: string, release: Bytes, p: string)
    requires Root(d) + "/" + p in Signed(key, Root(d), release)
    ensures Unlisted(p)
  {
    BelowRoot(Root(d), p);
    BelowRoot(Root(d), "Release");
    BelowRoot(Root(d), "Release.gpg");
    BelowRoot(Root(d), "InRelease");
    SignedStamped(key, d, release);
    assert Root(d) + "/Release" == Root(d) + "/" + "Release";
    assert Root(d) + "/Release.gpg" == Root(d) + "/" + "Release.gpg";
    assert Root(d) + "/InRelease" == Root(d) + "/" + "InRelease";
  }

  lemma TreeFileNested(cr: Crypto, comps: map<string, seq<Entry>>, f: IndexFile)
    requires f in TreeIndexFiles(cr, comps)
    ensures '/' in f.path && (PlainNames(comps) ==> Word(f.path))
  {
    UsedExact(comps);
    var used, arches := UsedComps(comps), SortedKeys(ArchSet(comps));
    AllFilesAre(cr, comps, used, arches);
    var c, a :| c in used && a in arches && IsIndexFile(cr, comps[c], c, a, f);
    if PlainNames(comps) {
      ArchPlain(comps, a);
    }
    IndexFileNested(cr, comps[c], c, a, f);
  }

  lemma TreeIndexNested(cr: Crypto, comps: map<string, seq<Entry>>)
    ensures forall p | p in Contents(TreeIndexFiles(cr, comps)) :: '/' in p
  {
    var files := TreeIndexFiles(cr, comps);
    ContentsOf(files);
    forall p | p in Contents(files)
      ensures '/' in p
    {
      var f :| f in files && f.path == p;
      TreeFileNested(cr, comps, f);
    }
  }

  lemma PlacedUnsigned(d: string, files: seq<IndexFile>, key: Option<Signer>, release: Bytes, path: string)
    requires path in Contents(files) && '/' in path
    ensures At(Placed(Root(d), files) + Signed(key, Root(d), release), Root(d) + "/" + path) ==
                Some(Contents(files)[path])
  {
    PlacedUnder(d, files);
    if Root(d) + "/" + path in Signed(key, Root(d), release) {
      SignedFlat(key, d, release, path);
    }
  }

  /** An index file in its place. */
  lemma TreeIndexFile(env: Env, d: string, comps: map<string, seq<Entry>>, now: int, path: string)
    requires UsedComps(comps) != [] && path in Contents(TreeIndexFiles(env.crypto, comps))
    ensures At(Tree(env, d, comps, now), Root(d) + "/" + path) ==
                Some(Contents(TreeIndexFiles(env.crypto, comps))[path])
  {
    TreeIndexNested(env.crypto, comps);
    PlacedUnsigned(d, TreeIndexFiles(env.crypto, comps), env.key, ReleaseOf(env, d, comps, now), path);
  }

  // ---- Reachable states ----

  lemma SegmentPlain(s: string)
    requires ReSegment(s)
    ensures PlainName(s) && OneLine(s)
  {
  }

  lemma ArchNamePlain(s: string)
    requires ReArch(s)
    ensures PlainName(s)
  {
  }

  lemma IndexNames(env: Env, st: State, d: string, c: string)
    requires PoolAgrees(RealLayout(env), st) && (d, c) in st.index
    ensures PlainName(c) && forall e | e in st.index[(d, c)] :: PlainName(Arch(e))
  {
    var l := RealLayout(env);
    assert l.isName(c) && GoodRows(l, st.files, st.index[(d, c)]);
    SegmentPlain(c);
    forall e | e in st.index[(d, c)]
      ensures PlainName(Arch(e))
    {
      assert l.describes(e, st.files[e.filename]);
      ArchNamePlain(Arch(e));
    }
  }

  lemma ConsistentNames(env: Env, st: State, d: string)
    requires PoolAgrees(RealLayout(env), st)
    ensures PlainNames(CompsOf(st.index, d))
  {
    var comps := CompsOf(st.index, d);
    forall c | c in comps
      ensures PlainName(c) && forall e | e in comps[c] :: PlainName(Arch(e))
    {
      IndexNames(env, st, d, c);
    }
  }

  lemma IndexRow(env: Env, st: State, d: string, c: string, e: Entry)
    requires PoolAgrees(RealLayout(env), st) && (d, c) in st.index && e in st.index[(d, c)]
    ensures e.filename in st.files && Uploaded(env.crypto, e, st.files[e.filename])
  {
    var l := RealLayout(env);
    assert GoodRows(l, st.files, st.index[(d, c)]);
    assert l.describes(e, st.files[e.filename]);
  }

  /** The rows an architecture's file lists all have file names that fit a line. */
  ghost predicate ShortPaths(rows: seq<Entry>, a: string) {
    forall e | e in rows && (Arch(e) == a || Arch(e) == "all") :: ShortPath(e)
  }

  lemma IndexReadsBack(env: Env, st: State, d: string, c: string, a: string)
    returns (kept: seq<Entry>, at: seq<nat>)
    requires PoolAgrees(RealLayout(env), st) && (d, c) in st.index
    ensures RowsFor(st.index[(d, c)], a, kept, at)
    ensures Parse(PackagesText(st.index[(d, c)], a)) == StanzasOf(kept) <==> ShortPaths(st.index[(d, c)], a)
  {
    var rows := st.index[(d, c)];
    forall e | e in rows
      ensures WfStanza(PackagesStanza(e)) && (Printable(e) <==> ShortPath(e))
    {
      IndexRow(env, st, d, c, e);
    }
    kept, at := PackagesReadBack(rows, a);
  }

  lemma PackagesFound(env: Env, st: State, d: string, c: string, a: string)
    requires Consistent(RealLayout(env), st) && (d, c) in st.index && a in ArchSet(CompsOf(st.index, d))
    ensures var text := PackagesText(st.index[(d, c)], a);
            && At(st.files, Root(d) + "/" + PackagesPath(c, a)) == Some(text)
            && At(st.files, Root(d) + "/" + (PackagesPath(c, a) + ".gz")) == Some(env.crypto.gzip(text))
  {
    var l := RealLayout(env);
    var comps := CompsOf(st.index, d);
    ConsistentNames(env, st, d);
    assert l.isName(d) && GoodRows(l, st.files, st.index[(d, c)]) && comps[c] == st.index[(d, c)];
    assert TreeCurrent(l, st, d);
    var t: int :| TreeOf(l, st.files, d) == l.tree(d, comps, t);
    TreePackages(env, d, comps, t, c, a);
    FoundInTree(env, st, d, comps, t, Root(d) + "/" + PackagesPath(c, a));
    FoundInTree(env, st, d, comps, t, Root(d) + "/" + (PackagesPath(c, a) + ".gz"));
  }

  /** In every consistent state the Packages file of each index and architecture
      is there with its gzip, and reads back as the index's rows of that
      architecture or of "all", in order, exactly when their file names fit the
      scanner's lines. */
  lemma PackagesPublished(env: Env, st: State, d: string, c: string, a: string)
    returns (kept: seq<Entry>, at: seq<nat>)
    requires Consistent(RealLayout(env), st) && (d, c) in st.index && a in ArchSet(CompsOf(st.index, d))
    ensures RowsFor(st.index[(d, c)], a, kept, at)
    ensures var raw := At(st.files, Root(d) + "/" + PackagesPath(c, a));
            && raw.Some?
            && (Parse(raw.value) == StanzasOf(kept) <==> ShortPaths(st.index[(d, c)], a))
            && At(st.files, Root(d) + "/" + (PackagesPath(c, a) + ".gz")) == Some(env.crypto.gzip(raw.value))
  {
    PackagesFound(env, st, d, c, a);
    kept, at := IndexReadsBack(env, st, d, c, a);
  }

  /** The stanzas a client reads in a Packages file. */
  ghost predicate Read(files: map<string, Bytes>, d: string, c: string, a: string, s: Stanza) {
    var raw := At(files, Root(d) + "/" + PackagesPath(c, a));
    raw.Some? && s in Parse(raw.value)
  }

  /** A row is read in exactly the files of its architecture - of every one, if
      it is of "all" - and nothing else is read there. */
  lemma RowsRead(env: Env, st: State, d: string, c: string, a: string, s: Stanza)
    requires Consistent(RealLayout(env), st) && (d, c) in st.index && a in ArchSet(CompsOf(st.index, d))
    requires ShortPaths(st.index[(d, c)], a)
    ensures Read(st.files, d, c, a, s) <==>
              exists e | e in st.index[(d, c)] :: PackagesStanza(e) == s && (Arch(e) == a || Arch(e) == "all")
    ensures Read(st.files, d, c, a, s) ==> Get(s, "Architecture") == a || Get(s, "Architecture") == "all"
  {
    var kept, at := PackagesPublished(env, st, d, c, a);
    KeptRows(st.index[(d, c)], a, kept, at);
    if Read(st.files, d, c, a, s) {
      var e := RowOfStanza(kept, s);
      StanzaArch(env, st, d, c, e);
    }
    if e :| e in st.index[(d, c)] && PackagesStanza(e) == s && (Arch(e) == a || Arch(e) == "all") {
      StanzaAmong(kept, e);
    }
  }

  lemma StanzaArch(env: Env, st: State, d: string, c: string, e: Entry)
    requires PoolAgrees(RealLayout(env), st) && (d, c) in st.index && e in st.index[(d, c)]
    ensures Get(PackagesStanza(e), "Architecture") == Arch(e)
  {
    IndexRow(env, st, d, c, e);
    ControlPublished(e, "Architecture");
  }

  /** So of the rows of an index, just those of the architecture or of "all" are
      in its file. */
  lemma RowReadExact(env: Env, st: State, d: string, c: string, a: string, e: Entry)
    requires Consistent(RealLayout(env), st) && (d, c) in st.index && a in ArchSet(CompsOf(st.index, d))
    requires ShortPaths(st.index[(d, c)], a) && e in st.index[(d, c)]
    ensures Read(st.files, d, c, a, PackagesStanza(e)) <==> Arch(e) == a || Arch(e) == "all"
  {
    RowsRead(env, st, d, c, a, PackagesStanza(e));
    StanzaArch(env, st, d, c, e);
  }

  lemma FoundInTree(env: Env, st: State, d: string, comps: map<string, seq<Entry>>, t: int, p: string)
    requires TreeOf(RealLayout(env), st.files, d) == Tree(env, d, comps, t)
    ensures p in Tree(env, d, comps, t) ==> At(st.files, p) == At(Tree(env, d, comps, t), p)
    ensures Under(d, p) && p in st.files ==> At(st.files, p) == At(Tree(env, d, comps, t), p)
  {
  }

  /** The stanza names a pool file, and gives its size and its three digests. */
  predicate TellsTruth(cr: Crypto, files: map<string, Bytes>, s: Stanza) {
    var name := Get(s, "Filename");
    && name in files
    && Get(s, "Size") == Itoa(|files[name]|)
    && Get(s, "MD5sum") == cr.md5(files[name])
    && Get(s, "SHA1") == cr.sha1(files[name])
    && Get(s, "SHA256") == cr.sha256(files[name])
  }

  /** Every published stanza tells the truth. */
  lemma StanzasTellTruth(env: Env, st: State, d: string, c: string, a: string, s: Stanza)
    requires Consistent(RealLayout(env), st) && (d, c) in st.index && a in ArchSet(CompsOf(st.index, d))
    requires ShortPaths(st.index[(d, c)], a) && Read(st.files, d, c, a, s)
    ensures TellsTruth(env.crypto, st.files, s)
  {
    RowsRead(env, st, d, c, a, s);
    var e :| e in st.index[(d, c)] && PackagesStanza(e) == s && (Arch(e) == a || Arch(e) == "all");
    IndexRow(env, st, d, c, e);
    EntryTellsTruth(env.crypto, st.files, e);
  }

  lemma RowOfStanza(rows: seq<Entry>, s: Stanza) returns (e: Entry)
    requires s in StanzasOf(rows)
    ensures e in rows && s == PackagesStanza(e)
  {
    var i :| 0 <= i < |rows| && StanzasOf(rows)[i] == s;
    e := rows[i];
  }

  lemma EntryTellsTruth(cr: Crypto, files: map<string, Bytes>, e: Entry)
    requires Clean(e.control) && e.filename in files && Describes(cr, e, files[e.filename])
    ensures TellsTruth(cr, files, PackagesStanza(e))
  {
    IndexFieldValue(e, 0);
    IndexFieldValue(e, 1);
    IndexFieldValue(e, 2);
    IndexFieldValue(e, 3);
    IndexFieldValue(e, 4);
  }

  lemma IndexFieldValue(e: Entry, i: nat)
    requires Clean(e.control) && i < 5
    ensures Get(PackagesStanza(e), IndexFields(e)[i].k) == IndexFields(e)[i].v
  {
    IndexFieldsKeys(e);
    OneFieldEach(e, i);
  }

  /** No package is missing: every row is published for some architecture, and a
      row of "all" for every one. */
  lemma EveryRowPublished(env: Env, st: State, d: string, c: string, e: Entry)
    requires Consistent(RealLayout(env), st) && (d, c) in st.index && e in st.index[(d, c)]
    ensures exists a :: a in ArchSet(CompsOf(st.index, d)) && (Arch(e) == a || Arch(e) == "all")
    ensures forall a | a in ArchSet(CompsOf(st.index, d)) && ShortPaths(st.index[(d, c)], a) ::
              Read(st.files, d, c, a, PackagesStanza(e)) <==> Arch(e) == a || Arch(e) == "all"
  {
    var comps := CompsOf(st.index, d);
    var own := if Arch(e) == "all" then "amd64" else Arch(e);
    ArchSetExact(comps, own);
    assert c in comps && e in comps[c];
    assert own in ArchSet(comps);
    forall a | a in ArchSet(comps) && ShortPaths(st.index[(d, c)], a)
      ensures Read(st.files, d, c, a, PackagesStanza(e)) <==> Arch(e) == a || Arch(e) == "all"
    {
      RowReadExact(env, st, d, c, a, e);
    }
  }

  lemma StanzaAmong(rows: seq<Entry>, e: Entry)
    requires e in rows
    ensures PackagesStanza(e) in StanzasOf(rows)
  {
    var i :| 0 <= i < |rows| && rows[i] == e;
    assert StanzasOf(rows)[i] == PackagesStanza(e);
  }

  // ---- Release ----

  lemma {:induction false} JoinedWords(words: seq<string>)
    requires words != [] && forall w | w in words :: Word(w)
    ensures OneLine(Join(words, ' '))
  {
    var j := Join(words, ' ');
    assert words[0] in words;
    if |words| > 1 {
      JoinedWords(words[1..]);
      var rest := Join(words[1..], ' ');
      assert j == words[0] + [' '] + rest;
      assert j[0] == words[0][0] && j[|j| - 1] == rest[|rest| - 1];
    }
    assert IsSpace('\n');
  }

  lemma HeadingPlain(env: Env, d: string, comps: map<string, seq<Entry>>, now: int)
    requires ReSegment(d) && PlainNames(comps) && UsedComps(comps) != []
    requires OneLine(env.repo) && OneLine(env.date(now))
    ensures HeadingOf(env, d, comps, now).Plain()
  {
    SegmentPlain(d);
    ArchesPlain(comps);
    UsedExact(comps);
    assert "amd64" in SortedKeys(ArchSet(comps));
    JoinedWords(SortedKeys(ArchSet(comps)));
    JoinedWords(UsedComps(comps));
  }

  lemma IndexFilesWords(cr: Crypto, comps: map<string, seq<Entry>>)
    requires PlainNames(comps)
    ensures forall f | f in TreeIndexFiles(cr, comps) :: Word(f.path)
  {
    forall f | f in TreeIndexFiles(cr, comps)
      ensures Word(f.path)
    {
      TreeFileNested(cr, comps, f);
    }
  }

  /** The document fits the scanner. */
  ghost predicate ReleaseFits(env: Env, d: string, comps: map<string, seq<Entry>>, now: int) {
    StanzaFits(ReleaseStanza(env.crypto, HeadingOf(env, d, comps, now), TreeIndexFiles(env.crypto, comps)), LIMIT)
  }

  /** The document parses to one stanza, which lists the files with their sizes
      and digests in each of its sections. */
  ghost predicate ListsAll(cr: Crypto, release: Bytes, listed: seq<IndexFile>) {
    var stanzas := Parse(release);
    && |stanzas| == 1
    && Lists(Get(stanzas[0], "MD5Sum"), cr.md5, listed)
    && Lists(Get(stanzas[0], "SHA1"), cr.sha1, listed)
    && Lists(Get(stanzas[0], "SHA256"), cr.sha256, listed)
  }

  lemma ReleaseReads(env: Env, d: string, comps: map<string, seq<Entry>>, now: int)
    requires GoodCrypto(env.crypto) && OneLine(env.repo) && OneLine(env.date(now))
    requires ReSegment(d) && PlainNames(comps) && UsedComps(comps) != [] && ReleaseFits(env, d, comps, now)
    ensures ListsAll(env.crypto, ReleaseOf(env, d, comps, now), TreeIndexFiles(env.crypto, comps))
  {
    HeadingPlain(env, d, comps, now);
    IndexFilesWords(env.crypto, comps);
    DigestsAreWords(env.crypto);
    ReleaseListsFiles(env.crypto, HeadingOf(env, d, comps, now), TreeIndexFiles(env.crypto, comps));
  }

  lemma DigestsAreWords(cr: Crypto)
    requires GoodCrypto(cr)
    ensures forall b: Bytes :: Word(cr.md5(b)) && Word(cr.sha1(b)) && Word(cr.sha256(b))
  {
    forall b: Bytes
      ensures Word(cr.md5(b)) && Word(cr.sha1(b)) && Word(cr.sha256(b))
    {
      assert DigestWord(cr.md5(b));
    }
  }

  lemma PlacedBelow(d: string, files: seq<IndexFile>, key: Option<Signer>, release: Bytes, p: string)
    requires !Unlisted(p)
    ensures At(Placed(Root(d), files) + Signed(key, Root(d), release), Root(d) + "/" + p) == At(Contents(files), p)
  {
    PlacedUnder(d, files);
    if Root(d) + "/" + p in Signed(key, Root(d), release) {
      SignedFlat(key, d, release, p);
    }
  }

  lemma NestedListed(p: string)
    requires '/' in p
    ensures !Unlisted(p)
  {
  }

  /** The listed files are exactly those below the distribution, but for Release
      itself and its signatures, with the bytes that are there. */
  ghost predicate ListedExactly(files: map<string, Bytes>, d: string, listed: seq<IndexFile>) {
    && (forall f | f in listed :: !Unlisted(f.path) && At(files, Root(d) + "/" + f.path) == Some(f.data))
    && (forall p: string | Root(d) + "/" + p in files && !Unlisted(p) :: exists f | f in listed :: f.path == p)
  }

  lemma TreeFilesListed(cr: Crypto, comps: map<string, seq<Entry>>)
    requires PlainNames(comps)
    ensures var files := TreeIndexFiles(cr, comps);
            forall f | f in files :: !Unlisted(f.path) && At(Contents(files), f.path) == Some(f.data)
  {
    var files := TreeIndexFiles(cr, comps);
    forall f | f in files
      ensures !Unlisted(f.path) && At(Contents(files), f.path) == Some(f.data)
    {
      TreeFileNested(cr, comps, f);
      NestedListed(f.path);
      TreeFileOnce(cr, comps, f);
    }
  }

  lemma TreeListed(env: Env, d: string, comps: map<string, seq<Entry>>, now: int)
    requires PlainNames(comps) && UsedComps(comps) != []
    ensures ListedExactly(Tree(env, d, comps, now), d, TreeIndexFiles(env.crypto, comps))
  {
    TreeFilesListed(env.crypto, comps);
    TreeParts(env, d, comps, now);
    PlacedListed(d, TreeIndexFiles(env.crypto, comps), env.key, ReleaseOf(env, d, comps, now));
  }

  lemma PlacedListed(d: string, files: seq<IndexFile>, key: Option<Signer>, release: Bytes)
    requires forall f | f in files :: !Unlisted(f.path) && At(Contents(files), f.path) == Some(f.data)
    ensures ListedExactly(Placed(Root(d), files) + Signed(key, Root(d), release), d, files)
  {
    var tree := Placed(Root(d), files) + Signed(key, Root(d), release);
    forall f | f in files
      ensures At(tree, Root(d) + "/" + f.path) == Some(f.data)
    {
      PlacedBelow(d, files, key, release, f.path);
    }
    ContentsOf(files);
    forall p: string | Root(d) + "/" + p in tree && !Unlisted(p)
      ensures exists f | f in files :: f.path == p
    {
      PlacedBelow(d, files, key, release, p);
    }
  }

  lemma TreeFileOnce(cr: Crypto, comps: map<string, seq<Entry>>, f: IndexFile)
    requires PlainNames(comps) && f in TreeIndexFiles(cr, comps)
    ensures At(Contents(TreeIndexFiles(cr, comps)), f.path) == Some(f.data)
  {
    UsedExact(comps);
    ArchesPlain(comps);
    AllFilesOnce(cr, comps, UsedComps(comps), SortedKeys(ArchSet(comps)), f);
  }

  /** Release is there and true: it lists exactly the files below the distribution,
      but for itself and its signatures, each with its size and its three
      digests, as a client reads them. */
  ghost predicate ReleaseTrue(cr: Crypto, files: map<string, Bytes>, d: string) {
    exists listed :: ReleaseLists(cr, files, d, listed)
  }

  ghost predicate ReleaseLists(cr: Crypto, files: map<string, Bytes>, d: string, listed: seq<IndexFile>) {
    && Root(d) + "/Release" in files
    && ListsAll(cr, files[Root(d) + "/Release"], listed)
    && ListedExactly(files, d, listed)
  }

  lemma ListedTransfer(tree: map<string, Bytes>, files: map<string, Bytes>, d: string, listed: seq<IndexFile>)
    requires ListedExactly(tree, d, listed) && forall p | Under(d, p) :: At(files, p) == At(tree, p)
    ensures ListedExactly(files, d, listed)
  {
    forall p: string
      ensures At(files, Root(d) + "/" + p) == At(tree, Root(d) + "/" + p)
    {
      assert Under(d, Root(d) + "/" + p);
    }
  }

  /** In every consistent state the Release of a distribution with rows is true. */
  lemma ReleasePublished(env: Env, st: State, d: string)
    requires Consistent(RealLayout(env), st) && ReSegment(d) && CompsOf(st.index, d) != map[]
    requires GoodCrypto(env.crypto) && OneLine(env.repo) && forall t :: OneLine(env.date(t))
    requires forall t :: ReleaseFits(env, d, CompsOf(st.index, d), t)
    ensures ReleaseTrue(env.crypto, st.files, d)
  {
    var l, comps := RealLayout(env), CompsOf(st.index, d);
    assert l.isName(d) && TreeCurrent(l, st, d);
    var t: int :| TreeOf(l, st.files, d) == l.tree(d, comps, t);
    ConsistentNames(env, st, d);
    SomeRows(env, st, d);
    assert ReleaseFits(env, d, comps, t) && OneLine(env.date(t));
    forall p | Under(d, p)
      ensures At(st.files, p) == At(Tree(env, d, comps, t), p)
    {
      assert p in TreeOf(l, st.files, d) <==> p in st.files;
    }
    ReleaseOfTree(env, st.files, d, comps, t);
  }

  lemma ReleaseOfTree(env: Env, files: map<string, Bytes>, d: string, comps: map<string, seq<Entry>>, t: int)
    requires GoodCrypto(env.crypto) && OneLine(env.repo) && OneLine(env.date(t))
    requires ReSegment(d) && PlainNames(comps) && UsedComps(comps) != [] && ReleaseFits(env, d, comps, t)
    requires forall p | Under(d, p) :: At(files, p) == At(Tree(env, d, comps, t), p)
    ensures ReleaseTrue(env.crypto, files, d)
  {
    ReleaseReads(env, d, comps, t);
    TreeListed(env, d, comps, t);
    ListedTransfer(Tree(env, d, comps, t), files, d, TreeIndexFiles(env.crypto, comps));
    TreeReleaseOn(env, files, d, comps, t);
    assert HeadingOf(env, d, comps, 0).(date := env.date(t)) == HeadingOf(env, d, comps, t);
    assert ReleaseLists(env.crypto, files, d, TreeIndexFiles(env.crypto, comps));
  }

  /** So the reader of the SHA256 section finds every such file's digest, and
      nothing else. */
  lemma ReaderFindsTruth(cr: Crypto, files: map<string, Bytes>, d: string, p: string)
    requires ReleaseTrue(cr, files, d)
    ensures var found := DigestsOf(Split(Get(Parse(files[Root(d) + "/Release"])[0], "SHA256"), '\n'));
            && (p in found <==> Root(d) + "/" + p in files && !Unlisted(p))
            && (p in found ==> found[p] == cr.sha256(files[Root(d) + "/" + p]))
  {
    var listed :| ReleaseLists(cr, files, d, listed);
    ReleaseFilesExact(Get(Parse(files[Root(d) + "/Release"])[0], "SHA256"), cr.sha256, listed);
    ContentsOf(listed);
    ContentsAre(listed);
  }

  lemma {:induction false} ContentsAre(files: seq<IndexFile>)
    ensures forall p | p in Contents(files) :: IndexFile(p, Contents(files)[p]) in files
  {
    if files != [] {
      var n := |files| - 1;
      ContentsAre(files[..n]);
      assert files == files[..n] + [files[n]];
      assert IndexFile(files[n].path, files[n].data) == files[n];
    }
  }

  lemma SomeRows(env: Env, st: State, d: string)
    requires PoolAgrees(RealLayout(env), st) && CompsOf(st.index, d) != map[]
    ensures UsedComps(CompsOf(st.index, d)) != []
  {
    var comps := CompsOf(st.index, d);
    UsedExact(comps);
    var c :| c in comps;
    assert GoodRows(RealLayout(env), st.files, st.index[(d, c)]);
    assert c in UsedComps(comps);
  }
}
