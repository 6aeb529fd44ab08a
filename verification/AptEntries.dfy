/** Index entries and the Packages files they are printed to
    (internal/registry/apt/apt.go). */
module AptEntries {
  import opened Strings
  import opened Sorting
  import opened Versions
  import opened Deb822
  import opened AptControl
  import opened AptRepo

  /** Hashes, compression and signatures, as uninterpreted functions. */
  datatype Crypto = Crypto(
    md5: Bytes -> string,
    sha1: Bytes -> string,
    sha256: Bytes -> string,
    gzip: Bytes -> Bytes)

  function Name(e: Entry): string {
    Get(e.control, "Package")
  }

  function Version(e: Entry): string {
    Get(e.control, "Version")
  }

  function Arch(e: Entry): string {
    Get(e.control, "Architecture")
  }

  function NewEntry(cr: Crypto, ctl: Stanza, comp: string, body: Bytes, published: int): Entry
    requires Get(ctl, "Package") != ""
  {
    Entry(ctl, PoolPath(comp, Get(ctl, "Package"), Get(ctl, "Version"), Get(ctl, "Architecture")),
          |body|, cr.md5(body), cr.sha1(body), cr.sha256(body), published)
  }

  /** The row is true of the bytes, and its file is a pool file. */
  predicate Describes(cr: Crypto, e: Entry, body: Bytes) {
    && "pool/" <= e.filename
    && e.size == |body| && e.md5 == cr.md5(body) && e.sha1 == cr.sha1(body) && e.sha256 == cr.sha256(body)
  }

  lemma NewEntryDescribes(cr: Crypto, ctl: Stanza, comp: string, body: Bytes, published: int)
    requires Get(ctl, "Package") != ""
    ensures Describes(cr, NewEntry(cr, ctl, comp, body, published), body)
    ensures var e := NewEntry(cr, ctl, comp, body, published); e.control == ctl && e.published == published
  {
    var e := NewEntry(cr, ctl, comp, body, published);
    assert e.filename[..5] == "pool/";
  }

  // ---- The order of an index ----

  /** By name, then version, then architecture, over any version order. */
  predicate LeqBy(cmp: (string, string) -> int, a: Entry, b: Entry) {
    if Name(a) != Name(b) then StrLeq(Name(a), Name(b))
    else
      var c := cmp(Version(a), Version(b));
      if c != 0 then c < 0 else StrLeq(Arch(a), Arch(b))
  }

  function EntryLeq(): (Entry, Entry) -> bool {
    (a: Entry, b: Entry) => LeqBy(CompareVersions, a, b)
  }

  ghost predicate Comparator(cmp: (string, string) -> int) {
    && (forall a, b :: cmp(a, b) == -cmp(b, a))
    && (forall a, b, c | cmp(a, b) <= 0 && cmp(b, c) <= 0 :: cmp(a, c) <= 0)
  }

  lemma LeqByTotal(cmp: (string, string) -> int, a: Entry, b: Entry)
    requires Comparator(cmp)
    ensures LeqBy(cmp, a, b) || LeqBy(cmp, b, a)
  {
    StrLeqTotal(Name(a), Name(b));
    StrLeqTotal(Arch(a), Arch(b));
    assert cmp(Version(a), Version(b)) == -cmp(Version(b), Version(a));
  }

  lemma LeqByTransitive(cmp: (string, string) -> int, a: Entry, b: Entry, c: Entry)
    requires Comparator(cmp) && LeqBy(cmp, a, b) && LeqBy(cmp, b, c)
    ensures LeqBy(cmp, a, c)
  {
    if Name(a) != Name(b) || Name(b) != Name(c) {
      NamesTransitive(Name(a), Name(b), Name(c));
    } else {
      var x, y, z := Version(a), Version(b), Version(c);
      assert cmp(x, y) == -cmp(y, x) && cmp(y, z) == -cmp(z, y) && cmp(x, z) == -cmp(z, x);
      assert cmp(x, y) <= 0 && cmp(y, z) <= 0 ==> cmp(x, z) <= 0;
      assert cmp(y, z) <= 0 && cmp(z, x) <= 0 ==> cmp(y, x) <= 0;
      assert cmp(z, x) <= 0 && cmp(x, y) <= 0 ==> cmp(z, y) <= 0;
      if cmp(x, y) == 0 && cmp(y, z) == 0 {
        StrLeqTransitive(Arch(a), Arch(b), Arch(c));
      }
    }
  }

  lemma NamesTransitive(a: string, b: string, c: string)
    requires a != b || b != c
    requires (a == b || StrLeq(a, b)) && (b == c || StrLeq(b, c))
    ensures a != c && StrLeq(a, c)
  {
    StrLeqTotal(a, b);
    if a != b && b != c {
      StrLeqTransitive(a, b, c);
    }
  }

  lemma EntryOrder()
    ensures TotalPreorder(EntryLeq())
  {
    var cmp: (string, string) -> int := CompareVersions;
    assert Comparator(cmp) by {
      forall a, b
        ensures cmp(a, b) == -cmp(b, a)
      {
        CompareAntisymmetric(a, b);
      }
      forall a, b, c | cmp(a, b) <= 0 && cmp(b, c) <= 0
        ensures cmp(a, c) <= 0
      {
        CompareTransitive(a, b, c);
      }
    }
    var le := EntryLeq();
    forall a, b
      ensures le(a, b) || le(b, a)
    {
      LeqByTotal(cmp, a, b);
    }
    forall a, b, c | le(a, b) && le(b, c)
      ensures le(a, c)
    {
      LeqByTransitive(cmp, a, b, c);
    }
  }

  /** By name; rows of one package by version, lower ones first; rows of one
      version by architecture. */
  lemma EntryOrderExact(a: Entry, b: Entry)
    ensures EntryLeq()(a, b) <==>
              || (Name(a) != Name(b) && StrLeq(Name(a), Name(b)))
              || (Name(a) == Name(b) && VersionLeq(Version(a), Version(b)) && !VersionLeq(Version(b), Version(a)))
              || (Name(a) == Name(b) && VersionLeq(Version(a), Version(b)) && VersionLeq(Version(b), Version(a)) &&
                  StrLeq(Arch(a), Arch(b)))
  {
    CompareAntisymmetric(Version(a), Version(b));
    assert CompareVersions(Version(a), Version(b)) == 0 <==>
             VersionLeq(Version(a), Version(b)) && VersionLeq(Version(b), Version(a));
  }

  // ---- Packages ----

  const INDEX_KEYS: seq<string> := ["Filename", "Size", "MD5sum", "SHA1", "SHA256"]

  function IndexFields(e: Entry): Stanza {
    [Field("Filename", e.filename), Field("Size", Itoa(e.size)), Field("MD5sum", e.md5),
     Field("SHA1", e.sha1), Field("SHA256", e.sha256)]
  }

  function PackagesStanza(e: Entry): Stanza {
    e.control + IndexFields(e)
  }

  /** The rows an architecture's Packages file lists. */
  function ForArch(arch: string): Entry -> bool {
    (e: Entry) => Arch(e) == arch || Arch(e) == "all"
  }

  /** `kept` are the rows of the architecture or of "all", and `at` where they
      stand in the index. */
  ghost predicate RowsFor(rows: seq<Entry>, arch: string, kept: seq<Entry>, at: seq<nat>) {
    Selects((e: Entry) => Arch(e) == arch || Arch(e) == "all", rows, kept, at)
  }

  lemma ForArchSelects(rows: seq<Entry>, arch: string) returns (at: seq<nat>)
    ensures RowsFor(rows, arch, Filter(ForArch(arch), rows), at)
  {
    at := FilterSelects(ForArch(arch), rows);
  }

  function StanzasOf(rows: seq<Entry>): (r: seq<Stanza>)
    ensures |r| == |rows| && forall i | 0 <= i < |rows| :: r[i] == PackagesStanza(rows[i])
  {
    seq(|rows|, i requires 0 <= i < |rows| => PackagesStanza(rows[i]))
  }

  function PackagesText(rows: seq<Entry>, arch: string): Bytes {
    RenderAll(StanzasOf(Filter(ForArch(arch), rows)))
  }

  /** The text prints the rows of the architecture or of "all", in their order. */
  ghost predicate Prints(rows: seq<Entry>, arch: string, text: Bytes) {
    exists kept, at :: RowsFor(rows, arch, kept, at) && text == RenderAll(StanzasOf(kept))
  }

  lemma {:induction false} RenderAllSnoc(stanzas: seq<Stanza>, s: Stanza)
    ensures RenderAll(stanzas + [s]) == RenderAll(stanzas) + Render(s) + "\n"
  {
    if stanzas == [] {
      assert [s][1..] == [] && stanzas + [s] == [s];
      assert RenderAll([s]) == Render(s) + "\n" + "";
    } else {
      RenderAllSnoc(stanzas[1..], s);
      assert (stanzas + [s])[1..] == stanzas[1..] + [s];
      Regroup(Render(stanzas[0]) + "\n", RenderAll(stanzas[1..]), Render(s), "\n");
    }
  }

  lemma Regroup(a: Bytes, b: Bytes, c: Bytes, d: Bytes)
    ensures a + (b + c + d) == a + b + c + d
  {
  }

  lemma PackagesSnoc(rows: seq<Entry>, e: Entry, arch: string)
    ensures PackagesText(rows + [e], arch) ==
              if ForArch(arch)(e) then PackagesText(rows, arch) + Render(PackagesStanza(e)) + "\n"
              else PackagesText(rows, arch)
  {
    assert (rows + [e])[..|rows|] == rows;
    if ForArch(arch)(e) {
      var kept := Filter(ForArch(arch), rows);
      assert StanzasOf(kept + [e]) == StanzasOf(kept) + [PackagesStanza(e)];
      RenderAllSnoc(StanzasOf(kept), PackagesStanza(e));
    }
  }

  method RenderPackages(rows: seq<Entry>, arch: string) returns (buf: Bytes)
    ensures buf == PackagesText(rows, arch) && Prints(rows, arch, buf)
  {
    buf := "";
    for i := 0 to |rows|
      invariant buf == PackagesText(rows[..i], arch)
    {
      var e := rows[i];
      PackagesSnoc(rows[..i], e, arch);
      TakeNext(rows, i);
      if Arch(e) != arch && Arch(e) != "all" {
        continue;
      }
      buf := RenderTo(buf, PackagesStanza(e));
      buf := buf + "\n";
    }
    assert rows[..|rows|] == rows;
    ghost var at := ForArchSelects(rows, arch);
  }

  /** The row prints to fields that read back, in lines the scanner takes. */
  ghost predicate Printable(e: Entry) {
    WfStanza(PackagesStanza(e)) && StanzaFits(PackagesStanza(e), LIMIT)
  }

  predicate ValidNames(e: Entry) {
    ReName(Name(e)) && ReVersion(Version(e)) && ReArch(Arch(e))
  }

  /** One Package field, and none of the fields an index adds. */
  ghost predicate Clean(control: Stanza) {
    Count(control, "Package") == 1 && forall k | k in INDEX_KEYS :: Count(control, k) == 0
  }

  /** The line of its file name is within the scanner's limit. */
  predicate ShortPath(e: Entry) {
    |e.filename| + 10 < LIMIT
  }

  /** What an upload leaves behind: a row that is true of the bytes, made from a
      validated control, whose fields read back - all of them, if the file name
      does. */
  ghost predicate Uploaded(cr: Crypto, e: Entry, body: Bytes) {
    && Describes(cr, e, body) && ValidNames(e) && Clean(e.control)
    && WfStanza(PackagesStanza(e)) && (Printable(e) <==> ShortPath(e))
  }

  /** The rows an architecture's file lists all print within the limit. */
  ghost predicate AllPrintable(rows: seq<Entry>, arch: string) {
    forall e | e in rows && (Arch(e) == arch || Arch(e) == "all") :: Printable(e)
  }

  /** A Packages file reads back as the rows of the architecture or of "all", in
      index order, each as its control and index fields, exactly when every one
      of them prints in lines the scanner takes. */
  lemma PackagesReadBack(rows: seq<Entry>, arch: string) returns (kept: seq<Entry>, at: seq<nat>)
    requires forall e | e in rows :: WfStanza(PackagesStanza(e))
    ensures RowsFor(rows, arch, kept, at)
    ensures Parse(PackagesText(rows, arch)) == StanzasOf(kept) <==> AllPrintable(rows, arch)
  {
    kept := Filter(ForArch(arch), rows);
    forall i | 0 <= i < |kept|
      ensures WfStanza(StanzasOf(kept)[i])
    {
      assert kept[i] in kept;
    }
    KeptFit(rows, arch);
    RoundTripExact(StanzasOf(kept));
    at := ForArchSelects(rows, arch);
  }

  lemma KeptRows(rows: seq<Entry>, arch: string, kept: seq<Entry>, at: seq<nat>)
    requires RowsFor(rows, arch, kept, at)
    ensures forall e :: e in kept <==> e in rows && (Arch(e) == arch || Arch(e) == "all")
  {
    forall e | e in rows && (Arch(e) == arch || Arch(e) == "all")
      ensures e in kept
    {
      var j: nat :| j < |rows| && rows[j] == e;
      var i: nat :| i < |at| && at[i] == j;
      assert kept[i] == e;
    }
    forall e | e in kept
      ensures e in rows && (Arch(e) == arch || Arch(e) == "all")
    {
      var i: nat :| i < |kept| && kept[i] == e;
      assert at[i] in at;
    }
  }

  lemma KeptFit(rows: seq<Entry>, arch: string)
    requires forall e | e in rows :: WfStanza(PackagesStanza(e))
    ensures AllFit(StanzasOf(Filter(ForArch(arch), rows)), LIMIT) <==> AllPrintable(rows, arch)
  {
    var kept := Filter(ForArch(arch), rows);
    if AllPrintable(rows, arch) {
      forall i | 0 <= i < |kept|
        ensures StanzaFits(StanzasOf(kept)[i], LIMIT)
      {
        assert kept[i] in kept && Printable(kept[i]);
      }
    }
    if AllFit(StanzasOf(kept), LIMIT) {
      forall e | e in rows && ForArch(arch)(e)
        ensures Printable(e)
      {
        assert e in kept;
        var i :| 0 <= i < |kept| && kept[i] == e;
        assert StanzasOf(kept)[i] == PackagesStanza(e);
      }
    }
  }

  /** A row made from a validated control prints each of Package, Filename,
      Size, MD5sum, SHA1 and SHA256 exactly once, in any letter case, with its
      own values. */
  lemma OneFieldEach(e: Entry, i: nat)
    requires Clean(e.control) && i < |INDEX_KEYS|
    ensures Count(PackagesStanza(e), "Package") == 1 && Get(PackagesStanza(e), "Package") == Name(e)
    ensures Count(PackagesStanza(e), INDEX_KEYS[i]) == 1
    ensures Get(PackagesStanza(e), INDEX_KEYS[i]) == IndexFields(e)[i].v
  {
    KeysDiffer();
    var k := INDEX_KEYS[i];
    assert k in INDEX_KEYS;
    IndexFieldsKeys(e);
    FilterConcat(HasKey("Package"), e.control, IndexFields(e));
    FilterNone(HasKey("Package"), IndexFields(e));
    FilterConcat(HasKey(k), e.control, IndexFields(e));
    CountDistinct(IndexFields(e), i);
    GetAfter(e.control, IndexFields(e), k);
    GetAfter(e.control, IndexFields(e), "Package");
  }

  lemma ValidControlClean(s: Stanza, control: Stanza)
    requires ValidControl(s) == Some(control)
    ensures Clean(control)
  {
    forall k | k in INDEX_KEYS
      ensures Count(control, k) == 0
    {
      var i :| 0 <= i < |INDEX_KEYS| && INDEX_KEYS[i] == k;
      ControlLacksIndexKeys(s, control, i);
    }
    PackageKept(s, control);
  }

  lemma ControlLacksIndexKeys(s: Stanza, control: Stanza, i: nat)
    requires ValidControl(s) == Some(control) && i < |INDEX_KEYS|
    ensures Count(control, INDEX_KEYS[i]) == 0
  {
    IndexKeyStripped(i);
    ValidControlShape(s, INDEX_KEYS[i]);
  }

  lemma PackageKept(s: Stanza, control: Stanza)
    requires ValidControl(s) == Some(control)
    ensures Count(control, "Package") == 1 && Get(control, "Package") == Get(s, "Package")
  {
    ValidControlShape(s, "Package");
  }

  lemma IndexKeyStripped(i: nat)
    requires i < |INDEX_KEYS|
    ensures OneOf(INDEX_KEYS[i], STRIPPED) && !SameKey(INDEX_KEYS[i], "Package")
  {
    KeysDiffer();
    assert INDEX_KEYS[i] in INDEX_KEYS;
    assert STRIPPED[i + 1] == INDEX_KEYS[i];
  }

  lemma IndexFieldsKeys(e: Entry)
    ensures forall i | 0 <= i < |INDEX_KEYS| :: IndexFields(e)[i].k == INDEX_KEYS[i]
    ensures forall f | f in IndexFields(e) :: f.k in INDEX_KEYS
  {
  }

  lemma NotSameKey(a: string, b: string, i: nat)
    requires i < |a| && i < |b| && LowerChar(a[i]) != LowerChar(b[i])
    ensures !SameKey(a, b) && !SameKey(b, a)
  {
    assert Lower(a)[i] != Lower(b)[i];
  }

  /** The keys of an index differ, in any letter case, from one another and from
      the package's. */
  lemma KeysDiffer()
    ensures forall k | k in INDEX_KEYS :: !SameKey(k, "Package")
    ensures forall i, j | 0 <= i < j < |INDEX_KEYS| :: !SameKey(INDEX_KEYS[i], INDEX_KEYS[j])
  {
    var keys := ["Filename", "Size", "MD5sum", "SHA1", "SHA256"];
    assert INDEX_KEYS == keys;
    forall k | k in keys {
      NotSameKey(k, "Package", 0);
    }
    forall i, j | 0 <= i < j < 5
      ensures !SameKey(keys[i], keys[j])
    {
      if i == 3 {
        assert |Lower("SHA1")| != |Lower("SHA256")|;
      } else if i == 1 {
        NotSameKey(keys[1], keys[j], if j == 2 then 0 else 1);
      } else {
        NotSameKey(keys[i], keys[j], 0);
      }
    }
  }

  lemma {:induction false} CountDistinct(s: Stanza, i: nat)
    requires i < |s| && forall p, q | 0 <= p < q < |s| :: !SameKey(s[p].k, s[q].k)
    ensures Count(s, s[i].k) == 1 && Get(s, s[i].k) == s[i].v
  {
    FilterStep(HasKey(s[i].k), s);
    if i == 0 {
      forall f | f in s[1..]
        ensures !SameKey(f.k, s[0].k)
      {
        var q :| 0 <= q < |s[1..]| && s[1..][q] == f;
        assert !SameKey(s[0].k, s[q + 1].k);
      }
      FilterNone(HasKey(s[0].k), s[1..]);
    } else {
      assert !SameKey(s[0].k, s[i].k);
      CountDistinct(s[1..], i - 1);
    }
  }

  lemma {:induction false} GetFront(a: Stanza, b: Stanza, k: string)
    ensures Get(a, k) != "" ==> Get(a + b, k) == Get(a, k)
    ensures Count(b, k) == 0 ==> Get(a + b, k) == Get(a, k)
  {
    if a == [] {
      assert a + b == b;
      if Count(b, k) == 0 {
        CountGet(b, k);
      }
    } else {
      assert (a + b)[1..] == a[1..] + b;
      GetFront(a[1..], b, k);
    }
  }

  lemma CountGet(s: Stanza, k: string)
    requires Count(s, k) == 0
    ensures Get(s, k) == ""
  {
    forall f | f in s
      ensures !SameKey(f.k, k)
    {
      assert HasKey(k)(f) ==> f in Filter(HasKey(k), s);
    }
    GetAbsent(s, k);
  }

  lemma {:induction false} GetAbsent(s: Stanza, k: string)
    requires forall f | f in s :: !SameKey(f.k, k)
    ensures Get(s, k) == ""
  {
    if s != [] {
      assert s[0] in s;
      GetAbsent(s[1..], k);
    }
  }

  /** A stanza starts with the control, and the index fields hide none of the
      control's values but those of their own keys. */
  lemma ControlPublished(e: Entry, k: string)
    ensures e.control <= PackagesStanza(e)
    ensures Get(e.control, k) != "" || Count(IndexFields(e), k) == 0 ==>
              Get(PackagesStanza(e), k) == Get(e.control, k)
  {
    GetFront(e.control, IndexFields(e), k);
  }

  lemma {:induction false} GetAfter(a: Stanza, b: Stanza, k: string)
    ensures Count(a, k) == 0 ==> Get(a + b, k) == Get(b, k)
    ensures Count(a, k) > 0 ==> Get(a + b, k) == Get(a, k)
  {
    if a == [] {
      assert a + b == b;
    } else {
      FilterStep(HasKey(k), a);
      assert (a + b)[0] == a[0] && (a + b)[1..] == a[1..] + b;
      if !SameKey(a[0].k, k) {
        GetAfter(a[1..], b, k);
      }
    }
  }
}
