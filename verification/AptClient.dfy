/** What a client finds in a repository after an upload or a deletion, in the
    words of the published files (internal/registry/apt/apt.go). */
module AptClient {
  import opened Strings
  import opened Sorting
  import opened Deb822
  import opened AptControl
  import opened AptRepo
  import opened AptEntries
  import opened AptUploads
  import opened AptRelease
  import opened AptTree
  import opened AptPublished
  import opened AptLocal

  // ---- Paths ----

  /** Where the Packages file of a component and an architecture is. */
  lemma PackagesAt(d: string, c: string, a: string)
    ensures Root(d) + "/" + PackagesPath(c, a) == "dists/" + d + "/" + c + "/binary-" + a + "/Packages"
  {
  }

  // ---- After an upload ----

  /** The stanza starts with the control and adds what is true of the body. */
  ghost predicate Offers(cr: Crypto, files: map<string, Bytes>, ctl: Stanza, s: Stanza, body: Bytes) {
    && ctl <= s && Get(s, "Package") == Get(ctl, "Package")
    && Get(s, "Version") == Get(ctl, "Version") && Get(s, "Architecture") == Get(ctl, "Architecture")
    && TellsTruth(cr, files, s)
    && files[Get(s, "Filename")] == body
  }

  lemma RowOffers(cr: Crypto, files: map<string, Bytes>, e: Entry, body: Bytes)
    requires Uploaded(cr, e, body) && At(files, e.filename) == Some(body)
    ensures Offers(cr, files, e.control, PackagesStanza(e), body)
    ensures Get(PackagesStanza(e), "Filename") == e.filename
  {
    EntryTellsTruth(cr, files, e);
    IndexFieldValue(e, 0);
    ControlPublished(e, "Package");
    ControlPublished(e, "Version");
    ControlPublished(e, "Architecture");
  }

  /** The row of an upload is in its index, and its file holds the body. */
  lemma UploadStored(env: Env, st: State, dist: string, comp: string, e: Entry, body: Bytes, now: int)
    requires Consistent(RealLayout(env), st) && ReSegment(dist) && ReSegment(comp) && Uploaded(env.crypto, e, body)
    ensures var st' := AddState(RealLayout(env), st, dist, comp, e, body, now);
            && Consistent(RealLayout(env), st')
            && (dist, comp) in st'.index && e in st'.index[(dist, comp)]
            && At(st'.files, e.filename) == Some(body)
  {
    var l := RealLayout(env);
    RealLayoutGood(env);
    AddKeepsConsistent(l, st, dist, comp, e, body, now);
    AddedIndexes(l, st, dist, comp, e, body, now);
    InPoolOf(l, e, body);
    AddedPool(l, st, dist, comp, e, body, now, e.filename);
    var rows := RowsOf(st.index, dist, comp);
    assert (dist, comp) in st.index ==> GoodRows(l, st.files, rows);
    AddRowExact(l, rows, e, true);
  }

  lemma InPoolOf(l: Layout, e: Entry, body: Bytes)
    requires l.Good() && l.describes(e, body)
    ensures InPool(l, e.filename)
  {
  }

  lemma AddedIndexes(l: Layout, st: State, dist: string, comp: string, e: Entry, body: Bytes, now: int)
    requires l.Good() && PoolAgrees(l, st) && l.isName(dist)
    ensures AddState(l, st, dist, comp, e, body, now).index == AddedIndex(l, st.index, dist, comp, e)
  {
    AffectedNames(l, st, dist, e.filename);
    RegeneratedExact(l, State(st.files[e.filename := body], AddedIndex(l, st.index, dist, comp, e)),
                     SortedKeys(AddAffected(st.index, dist, e.filename)), now);
  }

  /** Whatever control file is uploaded: once it is accepted, a client who reads
      the Packages file of its component and its architecture - for "all", of any
      published one - finds the control there with the true size and digests of
      the body, under a file name that holds the body. */
  lemma UploadFound(
    env: Env, st: State, dist: string, comp: string, text: Bytes, body: Bytes, published: int, now: int, a: string)
    requires Consistent(RealLayout(env), st) && GoodCrypto(env.crypto) && |body| < 0x8000_0000_0000_0000
    requires ReSegment(dist) && ReSegment(comp) && ControlOf(text).Some?
    ensures var ctl := ControlOf(text).value;
            && Get(ctl, "Package") != ""
            && var e := NewEntry(env.crypto, ctl, comp, body, published);
               var st' := AddState(RealLayout(env), st, dist, comp, e, body, now);
               && (dist, comp) in st'.index
               && (a in ArchSet(CompsOf(st'.index, dist)) && ShortPaths(st'.index[(dist, comp)], a)
                   && (Get(ctl, "Architecture") == a || Get(ctl, "Architecture") == "all") ==>
                     exists s :: Read(st'.files, dist, comp, a, s) && Offers(env.crypto, st'.files, ctl, s, body))
               && (Get(ctl, "Architecture") != "all" ==> Get(ctl, "Architecture") in ArchSet(CompsOf(st'.index, dist)))
  {
    var ctl := ControlOf(text).value;
    UploadPrints(env.crypto, text, ctl, comp, body, published);
    var e := NewEntry(env.crypto, ctl, comp, body, published);
    EntryFound(env, st, dist, comp, e, body, now, a);
  }

  lemma EntryFound(env: Env, st: State, dist: string, comp: string, e: Entry, body: Bytes, now: int, a: string)
    requires Consistent(RealLayout(env), st) && ReSegment(dist) && ReSegment(comp) && Uploaded(env.crypto, e, body)
    ensures var st' := AddState(RealLayout(env), st, dist, comp, e, body, now);
            && (dist, comp) in st'.index
            && (a in ArchSet(CompsOf(st'.index, dist)) && ShortPaths(st'.index[(dist, comp)], a)
                && (Arch(e) == a || Arch(e) == "all") ==>
                  exists s :: Read(st'.files, dist, comp, a, s) && Offers(env.crypto, st'.files, e.control, s, body))
            && (Arch(e) != "all" ==> Arch(e) in ArchSet(CompsOf(st'.index, dist)))
  {
    UploadStored(env, st, dist, comp, e, body, now);
    var st' := AddState(RealLayout(env), st, dist, comp, e, body, now);
    RowOffers(env.crypto, st'.files, e, body);
    var comps := CompsOf(st'.index, dist);
    assert comp in comps && e in comps[comp];
    ArchSetExact(comps, Arch(e));
    if a in ArchSet(comps) && ShortPaths(st'.index[(dist, comp)], a) && (Arch(e) == a || Arch(e) == "all") {
      RowReadExact(env, st', dist, comp, a, e);
      assert Read(st'.files, dist, comp, a, PackagesStanza(e));
    }
  }

  // ---- After a deletion ----

  /** The stanza is of the package, in the version asked for or that one behind
      an epoch. */
  ghost predicate Offered(s: Stanza, name: string, version: string) {
    && Get(s, "Package") == name
    && (Get(s, "Version") == version || exists epoch :: ':' !in epoch && Get(s, "Version") == epoch + ":" + version)
  }

  lemma RowOffered(env: Env, st: State, d: string, c: string, e: Entry, name: string, version: string)
    requires PoolAgrees(RealLayout(env), st) && (d, c) in st.index && e in st.index[(d, c)]
    ensures Offered(PackagesStanza(e), name, version) <==> Asked(e, name, version)
  {
    IndexRow(env, st, d, c, e);
    ControlPublished(e, "Package");
    ControlPublished(e, "Version");
  }

  lemma DeletedRow(env: Env, st: State, name: string, version: string, now: int, k: (string, string), e: Entry)
    requires Consistent(RealLayout(env), st)
    ensures var st' := RemoveState(RealLayout(env), st, IsVersion(name, version), now);
            k in st'.index && e in st'.index[k] <==> k in st.index && e in st.index[k] && !Asked(e, name, version)
  {
    var st' := RemoveState(RealLayout(env), st, IsVersion(name, version), now);
    VersionDeleted(env, st, name, version, now);
    RemainExact(RowsOf(st.index, k.0, k.1), RowsOf(st'.index, k.0, k.1), name, version, e);
  }

  lemma RemainExact(was: seq<Entry>, left: seq<Entry>, name: string, version: string, e: Entry)
    requires Remain(was, left, name, version)
    ensures e in left <==> e in was && !Asked(e, name, version)
  {
    var at :| RemainAt(was, left, name, version, at);
    if e in left {
      var i: nat :| i < |left| && left[i] == e;
      assert at[i] in at;
    }
    if e in was && !Asked(e, name, version) {
      var j: nat :| j < |was| && was[j] == e;
      var i: nat :| i < |at| && at[i] == j;
      assert left[i] == e;
    }
  }

  /** No distribution offers a deleted version any more, and every other stanza
      that was read is read as before. */
  lemma DeletedNowhere(
    env: Env, st: State, name: string, version: string, now: int, d: string, c: string, a: string, s: Stanza)
    requires Consistent(RealLayout(env), st)
    requires var st' := RemoveState(RealLayout(env), st, IsVersion(name, version), now);
             && (d, c) in st'.index && a in ArchSet(CompsOf(st'.index, d)) && ShortPaths(st'.index[(d, c)], a)
    requires (d, c) in st.index && ShortPaths(st.index[(d, c)], a)
    ensures var st' := RemoveState(RealLayout(env), st, IsVersion(name, version), now);
            Read(st'.files, d, c, a, s) <==> Read(st.files, d, c, a, s) && !Offered(s, name, version)
  {
    var st' := RemoveState(RealLayout(env), st, IsVersion(name, version), now);
    RemoveStaysConsistent(env, st, IsVersion(name, version), now);
    ArchesLeft(env, st, name, version, now, d, a);
    RowsRead(env, st', d, c, a, s);
    RowsRead(env, st, d, c, a, s);
    RowsLeft(env, st, name, version, now, (d, c));
  }

  lemma RowsLeft(env: Env, st: State, name: string, version: string, now: int, k: (string, string))
    requires Consistent(RealLayout(env), st) && k in st.index
    requires k in RemoveState(RealLayout(env), st, IsVersion(name, version), now).index
    ensures var st' := RemoveState(RealLayout(env), st, IsVersion(name, version), now);
            forall e :: e in st'.index[k] <==> e in st.index[k] && !Offered(PackagesStanza(e), name, version)
  {
    var st' := RemoveState(RealLayout(env), st, IsVersion(name, version), now);
    forall e
      ensures e in st'.index[k] <==> e in st.index[k] && !Offered(PackagesStanza(e), name, version)
    {
      DeletedRow(env, st, name, version, now, k, e);
      if e in st.index[k] {
        RowOffered(env, st, k.0, k.1, e, name, version);
      }
    }
  }

  lemma ArchesLeft(env: Env, st: State, name: string, version: string, now: int, d: string, a: string)
    requires Consistent(RealLayout(env), st)
    requires a in ArchSet(CompsOf(RemoveState(RealLayout(env), st, IsVersion(name, version), now).index, d))
    ensures a in ArchSet(CompsOf(st.index, d))
  {
    var st' := RemoveState(RealLayout(env), st, IsVersion(name, version), now);
    var comps, comps' := CompsOf(st.index, d), CompsOf(st'.index, d);
    ArchSetExact(comps, a);
    ArchSetExact(comps', a);
    if c, e :| c in comps' && e in comps'[c] && Arch(e) == a {
      DeletedRow(env, st, name, version, now, (d, c), e);
      assert c in comps && e in comps[c];
    }
  }

  // ---- The heading of Release ----

  /** The values of the heading: the distribution twice, the time, the published
      architectures in order, and the components with rows in the order of their
      index files. */
  ghost predicate HeadingTrue(env: Env, index: Index, d: string, s: Stanza, t: int) {
    && Get(s, "Origin") == "kutu" && Get(s, "Label") == env.repo
    && Get(s, "Suite") == d && Get(s, "Codename") == d
    && Get(s, "Date") == env.date(t)
    && ArchesTrue(index, d, Split(Get(s, "Architectures"), ' '))
    && CompsTrue(index, d, Split(Get(s, "Components"), ' '))
  }

  ghost predicate ArchesTrue(index: Index, d: string, arches: seq<string>) {
    && (forall i, j | 0 <= i < j < |arches| :: arches[i] != arches[j] && StrLeq(arches[i], arches[j]))
    && forall a :: a in arches <==>
         || a == "amd64" || a == "arm64"
         || (a != "all" && exists k, e | k in index && k.0 == d && e in index[k] :: Arch(e) == a)
  }

  ghost predicate CompsTrue(index: Index, d: string, comps: seq<string>) {
    && (forall i, j | 0 <= i < j < |comps| :: StrLeq(comps[i] + ".json", comps[j] + ".json"))
    && forall c :: c in comps <==> (d, c) in index
  }

  lemma HeadingPublished(env: Env, st: State, d: string) returns (t: int)
    requires Consistent(RealLayout(env), st) && ReSegment(d) && CompsOf(st.index, d) != map[]
    requires GoodCrypto(env.crypto) && OneLine(env.repo) && forall t :: OneLine(env.date(t))
    requires forall t :: ReleaseFits(env, d, CompsOf(st.index, d), t)
    ensures At(st.files, "dists/" + d + "/Release").Some?
    ensures var stanzas := Parse(At(st.files, "dists/" + d + "/Release").value);
            |stanzas| == 1 && HeadingTrue(env, st.index, d, stanzas[0], t)
  {
    var comps := CompsOf(st.index, d);
    SomeRows(env, st, d);
    t := ReleaseTime(env, st, d);
    ConsistentNames(env, st, d);
    ReleaseHeads(env, d, comps, t);
    HeadingReads(env, st, d, Parse(ReleaseOf(env, d, comps, t))[0], t);
  }

  lemma ReleaseHeads(env: Env, d: string, comps: map<string, seq<Entry>>, t: int)
    requires GoodCrypto(env.crypto) && OneLine(env.repo) && OneLine(env.date(t))
    requires ReSegment(d) && PlainNames(comps) && UsedComps(comps) != [] && ReleaseFits(env, d, comps, t)
    ensures var stanzas := Parse(ReleaseOf(env, d, comps, t));
            |stanzas| == 1 && Headed(stanzas[0], HeadingOf(env, d, comps, t))
  {
    HeadingPlain(env, d, comps, t);
    IndexFilesWords(env.crypto, comps);
    DigestsAreWords(env.crypto);
    ReleaseHeader(env.crypto, HeadingOf(env, d, comps, t), TreeIndexFiles(env.crypto, comps));
  }

  lemma HeadingReads(env: Env, st: State, d: string, s: Stanza, t: int)
    requires PoolAgrees(RealLayout(env), st) && UsedComps(CompsOf(st.index, d)) != []
    requires Headed(s, HeadingOf(env, d, CompsOf(st.index, d), t))
    ensures HeadingTrue(env, st.index, d, s, t)
  {
    ArchesListed(env, st, d);
    CompsListed(env, st, d);
  }

  /** Release was generated from the rows at some time. */
  lemma ReleaseTime(env: Env, st: State, d: string) returns (t: int)
    requires Consistent(RealLayout(env), st) && ReSegment(d) && UsedComps(CompsOf(st.index, d)) != []
    ensures At(st.files, "dists/" + d + "/Release") == Some(ReleaseOf(env, d, CompsOf(st.index, d), t))
  {
    var l, comps := RealLayout(env), CompsOf(st.index, d);
    assert l.isName(d) && TreeCurrent(l, st, d);
    t :| TreeOf(l, st.files, d) == l.tree(d, comps, t);
    forall p | Under(d, p)
      ensures At(st.files, p) == At(Tree(env, d, comps, t), p)
    {
      assert p in TreeOf(l, st.files, d) <==> p in st.files;
    }
    TreeReleaseOn(env, st.files, d, comps, t);
    assert HeadingOf(env, d, comps, 0).(date := env.date(t)) == HeadingOf(env, d, comps, t);
  }

  lemma WordsSplit(words: seq<string>)
    requires words != [] && forall w | w in words :: Word(w)
    ensures Split(Join(words, ' '), ' ') == words
  {
    forall w | w in words
      ensures ' ' !in w
    {
      assert IsSpace(' ');
    }
    SplitJoin(words, ' ');
  }

  lemma ArchesListed(env: Env, st: State, d: string)
    requires PoolAgrees(RealLayout(env), st)
    ensures ArchesTrue(st.index, d, Split(Join(SortedKeys(ArchSet(CompsOf(st.index, d))), ' '), ' '))
  {
    var comps := CompsOf(st.index, d);
    var arches := SortedKeys(ArchSet(comps));
    ConsistentNames(env, st, d);
    ArchesPlain(comps);
    ArchSetExact(comps, "amd64");
    assert "amd64" in arches;
    WordsSplit(arches);
    forall a
      ensures a in arches <==>
                a == "amd64" || a == "arm64" ||
                (a != "all" && exists k, e | k in st.index && k.0 == d && e in st.index[k] :: Arch(e) == a)
    {
      ArchSetExact(comps, a);
      ArchOfIndex(st.index, d, a);
    }
  }

  lemma ArchOfIndex(index: Index, d: string, a: string)
    ensures (exists c, e | c in CompsOf(index, d) && e in CompsOf(index, d)[c] :: Arch(e) == a)
       <==> exists k, e | k in index && k.0 == d && e in index[k] :: Arch(e) == a
  {
    var comps := CompsOf(index, d);
    if c, e :| c in comps && e in comps[c] && Arch(e) == a {
      assert (d, c) in index && e in index[(d, c)];
    }
    if k, e :| k in index && k.0 == d && e in index[k] && Arch(e) == a {
      assert k == (d, k.1) && k.1 in comps && e in comps[k.1];
    }
  }

  lemma CompsListed(env: Env, st: State, d: string)
    requires PoolAgrees(RealLayout(env), st) && UsedComps(CompsOf(st.index, d)) != []
    ensures CompsTrue(st.index, d, Split(Join(UsedComps(CompsOf(st.index, d)), ' '), ' '))
  {
    var used := UsedComps(CompsOf(st.index, d));
    RowsUsed(env, st, d);
    UsedWords(env, st, d);
    WordsSplit(used);
    UsedOrder(CompsOf(st.index, d));
  }

  lemma UsedWords(env: Env, st: State, d: string)
    requires PoolAgrees(RealLayout(env), st)
    ensures forall c | c in UsedComps(CompsOf(st.index, d)) :: Word(c)
  {
    ConsistentNames(env, st, d);
    UsedExact(CompsOf(st.index, d));
  }

  lemma UsedOrder(comps: map<string, seq<Entry>>)
    ensures var used := UsedComps(comps);
            forall i, j | 0 <= i < j < |used| :: StrLeq(used[i] + ".json", used[j] + ".json")
  {
    var names := SortedKeys(set c | c in comps.Keys :: c + ".json");
    var used, listed := UsedComps(comps), Listed(comps.Keys);
    var at := FilterSelects(HasRows(comps), listed);
    forall i | 0 <= i < |listed|
      ensures listed[i] + ".json" == names[i]
    {
      assert names[i] in names;
      var c :| c in comps.Keys && c + ".json" == names[i];
      assert TrimJson(c + ".json") == c;
    }
  }

  // ---- The files of a distribution ----

  /** The path of a Packages file or its gzip, below the distribution. */
  ghost predicate IsPackages(index: Index, d: string, p: string) {
    exists c, a | (d, c) in index && a in ArchSet(CompsOf(index, d)) ::
      p == PackagesPath(c, a) || p == PackagesPath(c, a) + ".gz"
  }

  ghost predicate IsSigned(key: Option<Signer>, p: string) {
    p == "Release" || (key.Some? && (p == "Release.gpg" || p == "InRelease"))
  }

  /** What is below dists/{dist}/: nothing, if there are no rows, and else
      Release, its signatures if there is a key, and a Packages file and its gzip
      for every component and architecture. */
  lemma FilesPublished(env: Env, st: State, d: string, p: string)
    requires Consistent(RealLayout(env), st) && ReSegment(d)
    ensures "dists/" + d + "/" + p in st.files <==>
              (exists c :: (d, c) in st.index) && (IsSigned(env.key, p) || IsPackages(st.index, d, p))
  {
    var l, comps := RealLayout(env), CompsOf(st.index, d);
    assert l.isName(d) && TreeCurrent(l, st, d);
    var t: int :| TreeOf(l, st.files, d) == l.tree(d, comps, t);
    var path := Root(d) + "/" + p;
    assert Under(d, path);
    assert path in TreeOf(l, st.files, d) <==> path in st.files;
    RowsUsed(env, st, d);
    if UsedComps(comps) != [] {
      assert UsedComps(comps)[0] in UsedComps(comps);
      TreeHolds(env, d, comps, t, p);
      IndexFileNames(env, st, d, p);
    } else {
      assert Tree(env, d, comps, t) == map[];
      assert forall c | (d, c) in st.index :: c in UsedComps(comps);
    }
  }

  lemma TreeHolds(env: Env, d: string, comps: map<string, seq<Entry>>, t: int, p: string)
    requires UsedComps(comps) != []
    ensures Root(d) + "/" + p in Tree(env, d, comps, t) <==>
              IsSigned(env.key, p) || p in Contents(TreeIndexFiles(env.crypto, comps))
  {
    TreeParts(env, d, comps, t);
    PlacedUnder(d, TreeIndexFiles(env.crypto, comps));
    SignedNames(env.key, d, ReleaseOf(env, d, comps, t), p);
  }

  lemma RowsUsed(env: Env, st: State, d: string)
    requires PoolAgrees(RealLayout(env), st)
    ensures forall c :: c in UsedComps(CompsOf(st.index, d)) <==> (d, c) in st.index
  {
    var comps := CompsOf(st.index, d);
    UsedExact(comps);
    forall c | (d, c) in st.index
      ensures comps[c] != []
    {
      assert GoodRows(RealLayout(env), st.files, st.index[(d, c)]);
    }
  }

  lemma SignedNames(key: Option<Signer>, d: string, release: Bytes, p: string)
    ensures Root(d) + "/" + p in Signed(key, Root(d), release) <==> IsSigned(key, p)
  {
    BelowRoot(Root(d), p);
    BelowRoot(Root(d), "Release");
    BelowRoot(Root(d), "Release.gpg");
    BelowRoot(Root(d), "InRelease");
    SignedStamped(key, d, release);
    assert Root(d) + "/Release" == Root(d) + "/" + "Release";
    assert Root(d) + "/Release.gpg" == Root(d) + "/" + "Release.gpg";
    assert Root(d) + "/InRelease" == Root(d) + "/" + "InRelease";
  }

  lemma IndexFileNames(env: Env, st: State, d: string, p: string)
    requires PoolAgrees(RealLayout(env), st)
    ensures p in Contents(TreeIndexFiles(env.crypto, CompsOf(st.index, d))) <==> IsPackages(st.index, d, p)
  {
    RowsUsed(env, st, d);
    if IsPackages(st.index, d, p) {
      var c, a :| (d, c) in st.index && a in ArchSet(CompsOf(st.index, d)) &&
        (p == PackagesPath(c, a) || p == PackagesPath(c, a) + ".gz");
      PackagesPlaced(env, st, d, c, a);
    }
    if p in Contents(TreeIndexFiles(env.crypto, CompsOf(st.index, d))) {
      PlacedPackages(env, st, d, p);
    }
  }

  lemma PackagesPlaced(env: Env, st: State, d: string, c: string, a: string)
    requires PoolAgrees(RealLayout(env), st) && (d, c) in st.index && a in ArchSet(CompsOf(st.index, d))
    ensures var files := Contents(TreeIndexFiles(env.crypto, CompsOf(st.index, d)));
            PackagesPath(c, a) in files && PackagesPath(c, a) + ".gz" in files
  {
    ConsistentNames(env, st, d);
    assert GoodRows(RealLayout(env), st.files, st.index[(d, c)]);
    IndexPackages(env.crypto, CompsOf(st.index, d), c, a);
  }

  lemma PlacedPackages(env: Env, st: State, d: string, p: string)
    requires PoolAgrees(RealLayout(env), st) && p in Contents(TreeIndexFiles(env.crypto, CompsOf(st.index, d)))
    ensures IsPackages(st.index, d, p)
  {
    var comps := CompsOf(st.index, d);
    ContentsOf(TreeIndexFiles(env.crypto, comps));
    var f :| f in TreeIndexFiles(env.crypto, comps) && f.path == p;
    var c, a := IndexFileOf(env.crypto, comps, f);
    RowsUsed(env, st, d);
  }

  lemma IndexFileOf(cr: Crypto, comps: map<string, seq<Entry>>, f: IndexFile) returns (c: string, a: string)
    requires f in TreeIndexFiles(cr, comps)
    ensures c in UsedComps(comps) && a in ArchSet(comps)
    ensures f.path == PackagesPath(c, a) || f.path == PackagesPath(c, a) + ".gz"
  {
    UsedExact(comps);
    AllFilesAre(cr, comps, UsedComps(comps), SortedKeys(ArchSet(comps)));
    c, a := FileAmong(cr, comps, TreeIndexFiles(cr, comps), UsedComps(comps), SortedKeys(ArchSet(comps)), f);
  }

  lemma FileAmong(
    cr: Crypto, comps: map<string, seq<Entry>>, files: seq<IndexFile>, used: seq<string>, arches: seq<string>,
    f: IndexFile) returns (c: string, a: string)
    requires (forall x | x in used :: x in comps) && IndexFiles(cr, comps, files, used, arches) && f in files
    ensures c in used && a in arches && IsIndexFile(cr, comps[c], c, a, f)
  {
    c, a :| c in used && a in arches && IsIndexFile(cr, comps[c], c, a, f);
  }
}
