/** The local Cargo registry: every crate's index file must agree with the
    stored crate files (internal/registry/cargo/cargo.go). */
module Cargo {
  import opened Strings
  import opened Sorting
  import opened Versions
  import opened CargoPaths

  // ---- Index rows ----

  /** One line of an index file; `rest` is what the store never looks at. */
  datatype Row = Row(name: string, version: string, cksum: string, yanked: bool, rest: string)

  predicate RowLeq(a: Row, b: Row) {
    VersionLeq(a.version, b.version)
  }

  lemma RowOrder()
    ensures TotalPreorder(RowLeq)
  {
    VersionOrder();
    forall a: Row, b: Row
      ensures RowLeq(a, b) || RowLeq(b, a)
    {
      assert VersionLeq(a.version, b.version) || VersionLeq(b.version, a.version);
    }
    forall a: Row, b: Row, c: Row | RowLeq(a, b) && RowLeq(b, c)
      ensures RowLeq(a, c)
    {
      assert VersionLeq(a.version, c.version);
    }
  }

  function VersionOf(r: Row): string {
    r.version
  }

  predicate HasVersion(rows: seq<Row>, version: string) {
    exists r | r in rows :: r.version == version
  }

  method FindEntry(rows: seq<Row>, version: string) returns (r: Option<Row>)
    ensures r.Some? <==> HasVersion(rows, version)
    ensures r.Some? ==> r.value in rows && r.value.version == version
  {
    for i := 0 to |rows|
      invariant forall x | x in rows[..i] :: x.version != version
    {
      if rows[i].version == version {
        return Some(rows[i]);
      }
      TakeNext(rows, i);
    }
    assert rows[..|rows|] == rows;
    return None;
  }

  /** The rows with `f` applied to those of the version. */
  function MapVersion(rows: seq<Row>, version: string, f: Row -> Row): (r: seq<Row>)
    ensures |r| == |rows|
    ensures forall i | 0 <= i < |rows| :: r[i] == if rows[i].version == version then f(rows[i]) else rows[i]
  {
    seq(|rows|, i requires 0 <= i < |rows| => if rows[i].version == version then f(rows[i]) else rows[i])
  }

  function Upsert(rows: seq<Row>, row: Row): seq<Row> {
    if HasVersion(rows, row.version) then MapVersion(rows, row.version, _ => row) else rows + [row]
  }

  // ---- The layout ----

  /** Where the files of a crate live, and how an index file is written. The
      proofs below use no more of it than `Good` says; `CargoLayout` is the
      source's. */
  datatype Layout = Layout(
    validName: string -> bool,
    validVersion: string -> bool,
    named: string -> bool,                // the name has an index path
    index: string -> string,              // files in the store, paths cleaned
    crate: (string, string) -> string,
    meta: (string, string) -> string,
    owners: string -> string,
    inIndex: string -> bool,              // the directories
    inCrates: string -> bool,
    rowLeq: (Row, Row) -> bool,
    codec: Codec)
  {
    /** A name or version that came through the publishing handler has an index
        file and a crate file of its own. Whatever the name, crate and metadata
        files are never a valid crate's index file, and metadata files never a
        crate file. */
    ghost predicate Good() {
      TotalPreorder(rowLeq) && codec.Good() && Places() && Distinct() && Apart()
    }

    ghost predicate Places() {
      && (forall n | validName(n) :: n != "" && named(n) && inIndex(index(n)))
      && (forall v | validVersion(v) :: v != "")
      && (forall p :: !(inIndex(p) && inCrates(p)))
      && (forall n, v | validName(n) && validVersion(v) ::
            inCrates(crate(n, v)) && !inIndex(meta(n, v)) && !inCrates(meta(n, v)))
    }

    ghost predicate Distinct() {
      forall n, m, v, w | validName(n) && validName(m) && validVersion(v) && validVersion(w) ::
        crate(n, v) == crate(m, w) <==> index(n) == index(m) && v == w
    }

    ghost predicate Apart() {
      CratesNotIndexes() && MetaNotIndexes() && OwnersNotIndexes() && MetaNotCrates() && OwnersNotCrates()
    }

    ghost predicate CratesNotIndexes() {
      forall n, v, m | validName(m) :: crate(n, v) != index(m)
    }

    ghost predicate MetaNotIndexes() {
      forall n, v, m | validName(m) :: meta(n, v) != index(m)
    }

    ghost predicate OwnersNotIndexes() {
      forall n, m | validName(m) :: owners(n) != index(m)
    }

    ghost predicate MetaNotCrates() {
      forall n, v, m, w | validName(m) && validVersion(w) :: meta(n, v) != crate(m, w)
    }

    ghost predicate OwnersNotCrates() {
      forall n, m, w | validName(m) && validVersion(w) :: owners(n) != crate(m, w)
    }
  }

  /** The text of an index file, one JSON line a row: reading skips what is no
      row, and what was written reads back. */
  datatype Codec = Codec(parse: Bytes -> seq<Row>, encode: seq<Row> -> Bytes)
  {
    ghost predicate Good() {
      && (forall b :: Named(parse(b)))
      && (forall rows | Named(rows) :: parse(encode(rows)) == rows)
    }
  }

  predicate Named(rows: seq<Row>) {
    forall i | 0 <= i < |rows| :: rows[i].name != "" && rows[i].version != ""
  }

  predicate InIndex(p: string) {
    "index/" <= p
  }

  predicate InCrates(p: string) {
    "crates/" <= p
  }

  function CargoLayout(codec: Codec): Layout {
    Layout(ValidName, ValidVersion, (n: string) => Norm(n) != "", StoredIndex, StoredCrate, StoredMeta, StoredOwners,
           InIndex, InCrates, RowLeq, codec)
  }

  lemma DirectoriesApart(p: string)
    ensures !(InIndex(p) && InCrates(p))
  {
    assert InIndex(p) ==> p != "" && p[0] == 'i';
    assert InCrates(p) ==> p != "" && p[0] == 'c';
  }

  lemma ValidNameFiles(n: string)
    requires ValidName(n)
    ensures n != "" && Norm(n) != "" && InIndex(StoredIndex(n))
  {
    ValidNamePlain(n);
    IndexFilePlain(Norm(n));
  }

  lemma ValidVersionFiles(n: string, v: string)
    requires ValidName(n) && ValidVersion(v)
    ensures InCrates(StoredCrate(n, v)) && !InIndex(StoredMeta(n, v)) && !InCrates(StoredMeta(n, v))
  {
    ValidNamePlain(n);
    PlainVersion(v);
    PlainCrateInCrates(Norm(n), v);
    PlainMetaApart(Norm(n), v);
  }

  lemma PlainCrateInCrates(n: string, v: string)
    requires PlainName(n) && PlainSegment(v)
    ensures InCrates(CrateFile(n, v))
  {
    CrateFilePlain(n, v);
  }

  lemma PlainMetaApart(n: string, v: string)
    requires PlainName(n) && PlainSegment(v)
    ensures !InIndex(Clean(MetaPath(n, v))) && !InCrates(Clean(MetaPath(n, v)))
  {
    MetaFilePlain(n, v);
    MetaApart(MetaPath(n, v));
  }

  lemma MetaApart(p: string)
    requires "meta/" <= p
    ensures !InIndex(p) && !InCrates(p)
  {
    assert p[0] == 'm';
  }

  lemma CargoPlaces(codec: Codec)
    ensures CargoLayout(codec).Places()
  {
    var l := CargoLayout(codec);
    forall n | l.validName(n)
      ensures n != "" && l.named(n) && l.inIndex(l.index(n))
    {
      ValidNameFiles(n);
    }
    forall v | l.validVersion(v)
      ensures v != ""
    {
      PlainVersion(v);
    }
    forall p
      ensures !(l.inIndex(p) && l.inCrates(p))
    {
      DirectoriesApart(p);
    }
    forall n, v | l.validName(n) && l.validVersion(v)
      ensures l.inCrates(l.crate(n, v)) && !l.inIndex(l.meta(n, v)) && !l.inCrates(l.meta(n, v))
    {
      ValidVersionFiles(n, v);
    }
  }

  lemma CargoDistinct(codec: Codec)
    ensures CargoLayout(codec).Distinct()
  {
    var l := CargoLayout(codec);
    forall n, m, v, w | l.validName(n) && l.validName(m) && l.validVersion(v) && l.validVersion(w)
      ensures l.crate(n, v) == l.crate(m, w) <==> l.index(n) == l.index(m) && v == w
    {
      StoredCrateInjective(n, v, m, w);
    }
  }

  lemma StoredIndexApart(n: string, v: string, m: string)
    requires ValidName(m)
    ensures StoredCrate(n, v) != StoredIndex(m) && StoredMeta(n, v) != StoredIndex(m)
  {
    ValidNamePlain(m);
    FilesApart(Norm(n), v, Norm(m), "");
  }

  lemma StoredOwnersApart(n: string, m: string, w: string)
    requires ValidName(m)
    ensures StoredOwners(n) != StoredIndex(m) && StoredOwners(n) != StoredCrate(m, w)
  {
    ValidNamePlain(m);
    FilesApart(Norm(n), "owners", Norm(m), w);
  }

  lemma StoredCrateApart(n: string, v: string, m: string, w: string)
    requires ValidName(m)
    ensures StoredMeta(n, v) != StoredCrate(m, w)
  {
    ValidNamePlain(m);
    FilesApart(Norm(n), v, Norm(m), w);
  }

  lemma CargoCratesNotIndexes(codec: Codec)
    ensures CargoLayout(codec).CratesNotIndexes()
  {
    var l := CargoLayout(codec);
    forall n, v, m | l.validName(m)
      ensures l.crate(n, v) != l.index(m)
    {
      StoredIndexApart(n, v, m);
    }
  }

  lemma CargoMetaNotIndexes(codec: Codec)
    ensures CargoLayout(codec).MetaNotIndexes()
  {
    var l := CargoLayout(codec);
    forall n, v, m | l.validName(m)
      ensures l.meta(n, v) != l.index(m)
    {
      StoredIndexApart(n, v, m);
    }
  }

  lemma CargoOwnersNotIndexes(codec: Codec)
    ensures CargoLayout(codec).OwnersNotIndexes()
  {
    var l := CargoLayout(codec);
    forall n, m | l.validName(m)
      ensures l.owners(n) != l.index(m)
    {
      StoredOwnersApart(n, m, "");
    }
  }

  lemma CargoMetaNotCrates(codec: Codec)
    ensures CargoLayout(codec).MetaNotCrates()
  {
    var l := CargoLayout(codec);
    forall n, v, m, w | l.validName(m) && l.validVersion(w)
      ensures l.meta(n, v) != l.crate(m, w)
    {
      StoredCrateApart(n, v, m, w);
    }
  }

  lemma CargoOwnersNotCrates(codec: Codec)
    ensures CargoLayout(codec).OwnersNotCrates()
  {
    var l := CargoLayout(codec);
    forall n, m, w | l.validName(m) && l.validVersion(w)
      ensures l.owners(n) != l.crate(m, w)
    {
      StoredOwnersApart(n, m, w);
    }
  }

  lemma CargoLayoutGood(codec: Codec)
    requires codec.Good()
    ensures CargoLayout(codec).Good()
  {
    RowOrder();
    CargoPlaces(codec);
    CargoDistinct(codec);
    CargoCratesNotIndexes(codec);
    CargoMetaNotIndexes(codec);
    CargoOwnersNotIndexes(codec);
    CargoMetaNotCrates(codec);
    CargoOwnersNotCrates(codec);
  }

  // ---- The store ----

  datatype Outcome = Done | PackageNotFound | InvalidPackageName

  /** Every file of the registry by its path in the store. */
  type Files = map<string, Bytes>

  function RowsAt(l: Layout, files: Files, p: string): seq<Row> {
    if p in files then l.codec.parse(files[p]) else []
  }

  function RowsOf(l: Layout, files: Files, name: string): seq<Row> {
    if l.named(name) then RowsAt(l, files, l.index(name)) else []
  }

  function WithRows(l: Layout, files: Files, p: string, rows: seq<Row>): Files {
    if rows == [] then files - {p} else files[p := l.codec.encode(StableSort(l.rowLeq, rows))]
  }

  /** The crate and the metadata are stored first. */
  function WithCrate(l: Layout, files: Files, row: Row, meta: Option<Bytes>, crate: Bytes): Files {
    var stored := files[l.crate(row.name, row.version) := crate];
    if meta.Some? then stored[l.meta(row.name, row.version) := meta.value] else stored
  }

  function PutFiles(l: Layout, files: Files, row: Row, meta: Option<Bytes>, crate: Bytes): Files {
    var stored := WithCrate(l, files, row, meta, crate);
    WithRows(l, stored, l.index(row.name), Upsert(RowsOf(l, stored, row.name), row))
  }

  function Yank(yanked: bool): Row -> Row {
    (r: Row) => r.(yanked := yanked)
  }

  function YankFiles(l: Layout, files: Files, name: string, version: string, yanked: bool): (Files, Outcome) {
    var rows := RowsOf(l, files, name);
    if !HasVersion(rows, version) then (files, PackageNotFound)
    else (WithRows(l, files, l.index(name), MapVersion(rows, version, Yank(yanked))), Done)
  }

  function Not(version: string): Row -> bool {
    (r: Row) => r.version != version
  }

  function IsVersion(version: string): Row -> bool {
    (r: Row) => r.version == version
  }

  /** The crate and its metadata, and the owners with the last version. */
  function Deleted(l: Layout, name: string, version: string, next: seq<Row>): set<string> {
    {l.crate(name, version), l.meta(name, version)} + (if next == [] then {l.owners(name)} else {})
  }

  /** Name and version as trimmed; nothing else is asked of them. */
  function DeleteFiles(l: Layout, files: Files, name: string, version: string): (Files, Outcome) {
    if !l.named(name) || version == "" then (files, InvalidPackageName)
    else
      var rows := RowsOf(l, files, name);
      if !HasVersion(rows, version) then (files, PackageNotFound)
      else
        var next := Filter(Not(version), rows);
        (WithRows(l, files - Deleted(l, name, version, next), l.index(name), next), Done)
  }

  class Store {
    const layout: Layout
    var files: Files

    constructor (codec: Codec)
      ensures layout == CargoLayout(codec) && files == map[]
    {
      layout := CargoLayout(codec);
      files := map[];
    }

    method ReadIndexByName(name: string) returns (rows: seq<Row>)
      ensures rows == RowsOf(layout, files, name)
    {
      if !layout.named(name) {
        return [];
      }
      var idx := layout.index(name);
      if idx !in files {
        return [];
      }
      return layout.codec.parse(files[idx]);
    }

    method WriteEntries(name: string, rows: seq<Row>)
      modifies this`files
      ensures files == WithRows(layout, old(files), layout.index(name), rows)
    {
      var rel := layout.index(name);
      if |rows| == 0 {
        files := files - {rel};
      } else {
        files := files[rel := layout.codec.encode(StableSort(layout.rowLeq, rows))];
      }
    }

    method Put(row: Row, vm: Option<Bytes>, crate: Bytes)
      modifies this`files
      ensures files == PutFiles(layout, old(files), row, vm, crate)
    {
      files := files[layout.crate(row.name, row.version) := crate];
      if vm.Some? {
        files := files[layout.meta(row.name, row.version) := vm.value];
      }
      var entries := ReadIndexByName(row.name);
      entries := UpsertEntry(entries, row);
      WriteEntries(row.name, entries);
    }

    method SetYanked(name: string, version: string, yanked: bool) returns (r: Outcome)
      modifies this`files
      ensures (files, r) == YankFiles(layout, old(files), name, version, yanked)
    {
      var entries := ReadIndexByName(name);
      var found;
      entries, found := YankEntry(entries, version, yanked);
      if !found {
        return PackageNotFound;
      }
      WriteEntries(name, entries);
      return Done;
    }

    method DeleteVersion(untrimmedName: string, untrimmedVersion: string) returns (r: Outcome)
      modifies this`files
      ensures (files, r) == DeleteFiles(layout, old(files), TrimSpace(untrimmedName), TrimSpace(untrimmedVersion))
    {
      r := DeleteTrimmed(TrimSpace(untrimmedName), TrimSpace(untrimmedVersion));
    }

    method DeleteTrimmed(name: string, version: string) returns (r: Outcome)
      modifies this`files
      ensures (files, r) == DeleteFiles(layout, old(files), name, version)
    {
      if !layout.named(name) || version == "" {
        return InvalidPackageName;
      }
      var rows := ReadIndexByName(name);
      var next, found := RemoveVersion(rows, version);
      if !found {
        return PackageNotFound;
      }
      files := files - {layout.crate(name, version)};
      files := files - {layout.meta(name, version)};
      if |next| == 0 {
        files := files - {layout.owners(name)};
      }
      assert files == old(files) - Deleted(layout, name, version, next);
      WriteEntries(name, next);
      return Done;
    }
  }

  /** The row overwrites those of its version where they are, or is appended. */
  method UpsertEntry(rows: seq<Row>, row: Row) returns (entries: seq<Row>)
    ensures entries == Upsert(rows, row)
  {
    entries := rows;
    var replaced := false;
    for i := 0 to |entries|
      invariant |entries| == |rows|
      invariant forall j | 0 <= j < i :: entries[j] == if rows[j].version == row.version then row else rows[j]
      invariant forall j | i <= j < |rows| :: entries[j] == rows[j]
      invariant replaced <==> HasVersion(rows[..i], row.version)
    {
      TakeNext(rows, i);
      if entries[i].version == row.version {
        entries := entries[i := row];
        replaced := true;
      }
    }
    assert rows[..|rows|] == rows;
    if !replaced {
      assert entries == rows;
      entries := entries + [row];
    } else {
      assert entries == MapVersion(rows, row.version, _ => row);
    }
  }

  /** The flag is set in the rows of the version, where they are. */
  method YankEntry(rows: seq<Row>, version: string, yanked: bool) returns (entries: seq<Row>, found: bool)
    ensures entries == MapVersion(rows, version, Yank(yanked))
    ensures found == HasVersion(rows, version)
  {
    entries, found := rows, false;
    for i := 0 to |entries|
      invariant |entries| == |rows|
      invariant forall j | 0 <= j < i ::
                  entries[j] == if rows[j].version == version then rows[j].(yanked := yanked) else rows[j]
      invariant forall j | i <= j < |rows| :: entries[j] == rows[j]
      invariant found <==> HasVersion(rows[..i], version)
    {
      TakeNext(rows, i);
      if entries[i].version == version {
        entries := entries[i := entries[i].(yanked := yanked)];
        found := true;
      }
    }
    assert rows[..|rows|] == rows;
  }

  /** The rows of an index just read, filtered in their own array. */
  method RemoveVersion(rows: seq<Row>, version: string) returns (next: seq<Row>, found: bool)
    ensures next == Filter(Not(version), rows)
    ensures found == HasVersion(rows, version)
  {
    var entries := new Row[|rows|](i requires 0 <= i < |rows| => rows[i]);
    assert entries[..] == rows;
    var n, removed, kept := KeepInPlace(entries, IsVersion(version), Not(version), VersionOf);
    next, found := entries[..n], removed != [];
    SomeRemoved(rows, version, removed);
  }

  lemma SomeRemoved(rows: seq<Row>, version: string, removed: seq<Row>)
    requires removed == Filter(IsVersion(version), rows)
    ensures removed != [] <==> HasVersion(rows, version)
  {
    if removed != [] {
      assert removed[0] in removed;
    }
  }

  // ---- Agreement of the index with the crates ----

  /** What agreement is about: the crate files, and the rows of the index files. */
  datatype State = State(crates: map<string, Bytes>, index: map<string, seq<Row>>)

  ghost function View(l: Layout, files: Files): State {
    State(map p | p in files && l.inCrates(p) :: files[p],
          map p | p in files && l.inIndex(p) :: l.codec.parse(files[p]))
  }

  /** The row describes the crate file stored for it. */
  ghost predicate Describes(l: Layout, sha: Bytes -> string, st: State, p: string, r: Row) {
    && l.validName(r.name) && l.validVersion(r.version)
    && l.index(r.name) == p
    && l.crate(r.name, r.version) in st.crates
    && sha(st.crates[l.crate(r.name, r.version)]) == r.cksum
  }

  ghost predicate GoodIndex(l: Layout, sha: Bytes -> string, st: State, p: string, rows: seq<Row>) {
    && rows != []
    && SortedBy(l.rowLeq, rows)
    && Injective(VersionOf, rows)
    && forall r | r in rows :: Describes(l, sha, st, p, r)
  }

  ghost predicate Listed(l: Layout, st: State, c: string) {
    exists p, r | p in st.index && r in st.index[p] :: l.crate(r.name, r.version) == c
  }

  ghost predicate StateAgrees(l: Layout, sha: Bytes -> string, st: State) {
    && (forall p | p in st.index :: GoodIndex(l, sha, st, p, st.index[p]))
    && (forall c | c in st.crates :: Listed(l, st, c))
  }

  /** Every index file is sorted, with one row a version and a matching checksum
      each, and a crate file exists exactly for the rows. */
  ghost predicate Agreement(l: Layout, sha: Bytes -> string, files: Files) {
    StateAgrees(l, sha, View(l, files))
  }

  lemma SortedRows(l: Layout, rows: seq<Row>)
    requires l.Good()
    ensures SortedBy(l.rowLeq, StableSort(l.rowLeq, rows))
    ensures forall r :: r in StableSort(l.rowLeq, rows) <==> r in rows
    ensures Injective(VersionOf, rows) ==> Injective(VersionOf, StableSort(l.rowLeq, rows))
  {
    SortSorts(l.rowLeq, rows);
    SameElements(StableSort(l.rowLeq, rows), rows);
    if Injective(VersionOf, rows) {
      SortKeepsInjective(l.rowLeq, VersionOf, rows);
    }
  }

  lemma UpsertMembers(rows: seq<Row>, row: Row)
    ensures forall r :: r in Upsert(rows, row) <==> r == row || (r in rows && r.version != row.version)
  {
    var rows' := Upsert(rows, row);
    if HasVersion(rows, row.version) {
      forall r | r in rows && r.version != row.version
        ensures r in rows'
      {
        var i :| 0 <= i < |rows| && rows[i] == r;
        assert rows'[i] == r;
      }
      var i :| 0 <= i < |rows| && rows[i].version == row.version;
      assert rows'[i] == row;
    }
  }

  lemma UpsertRows(rows: seq<Row>, row: Row)
    requires Injective(VersionOf, rows)
    ensures Injective(VersionOf, Upsert(rows, row))
    ensures forall r :: r in Upsert(rows, row) <==> r == row || (r in rows && r.version != row.version)
  {
    UpsertMembers(rows, row);
    if HasVersion(rows, row.version) {
      assert forall i | 0 <= i < |rows| :: VersionOf(Upsert(rows, row)[i]) == VersionOf(rows[i]);
    }
  }

  /** Sorting and writing rows makes just these the rows of the file. */
  lemma WrittenRows(l: Layout, rows: seq<Row>)
    requires l.Good() && Named(rows)
    ensures l.codec.parse(l.codec.encode(StableSort(l.rowLeq, rows))) == StableSort(l.rowLeq, rows)
  {
    var sorted := StableSort(l.rowLeq, rows);
    SameElements(sorted, rows);
    forall i | 0 <= i < |sorted|
      ensures sorted[i].name != "" && sorted[i].version != ""
    {
      assert sorted[i] in rows;
    }
  }

  lemma RowsNamed(l: Layout, files: Files, p: string)
    requires l.Good()
    ensures Named(RowsAt(l, files, p))
  {
  }

  // ---- Replacing one version ----

  /** The rows of every other crate, and of other versions, still describe their
      files when only the file of one crate version is written or deleted. */
  lemma OthersDescribed(
    l: Layout, sha: Bytes -> string, st: State, st': State, name: string, version: string, p: string, r: Row)
    requires l.Good() && l.validName(name) && l.validVersion(version)
    requires Describes(l, sha, st, p, r) && (p != l.index(name) || r.version != version)
    requires forall c | c != l.crate(name, version) && c in st.crates ::
               c in st'.crates && st'.crates[c] == st.crates[c]
    ensures Describes(l, sha, st', p, r)
  {
    assert l.crate(r.name, r.version) != l.crate(name, version);
  }

  /** One crate version of `st` is another in `st'`: its file, and its rows in the
      crate's index, which `rows` now holds. */
  datatype Change = Change(l: Layout, sha: Bytes -> string, name: string, version: string, rows: seq<Row>)
  {
    ghost predicate Valid() {
      l.Good() && l.validName(name) && l.validVersion(version)
    }

    ghost predicate Leads(st: State, st': State) {
      var path, c := l.index(name), l.crate(name, version);
      && st'.index == (if rows == [] then st.index - {path} else st.index[path := rows])
      && (forall x | x != c ::
            (x in st.crates <==> x in st'.crates) && (x in st.crates ==> st'.crates[x] == st.crates[x]))
      && (c in st'.crates <==> HasVersion(rows, version))
      && SortedBy(l.rowLeq, rows) && Injective(VersionOf, rows)
      && (forall r: Row | r.version != version ::
            r in rows <==> path in st.index && r in st.index[path])
      && (forall r | r in rows && r.version == version :: Describes(l, sha, st', path, r))
    }
  }

  lemma ChangedRowDescribed(ch: Change, st: State, st': State, r: Row)
    requires ch.Valid() && StateAgrees(ch.l, ch.sha, st) && ch.Leads(st, st') && r in ch.rows
    ensures Describes(ch.l, ch.sha, st', ch.l.index(ch.name), r)
  {
    if r.version != ch.version {
      var p := ch.l.index(ch.name);
      assert GoodIndex(ch.l, ch.sha, st, p, st.index[p]);
      OthersDescribed(ch.l, ch.sha, st, st', ch.name, ch.version, p, r);
    }
  }

  lemma ChangedIndexGood(ch: Change, st: State, st': State, p: string)
    requires ch.Valid() && StateAgrees(ch.l, ch.sha, st) && ch.Leads(st, st') && p in st'.index
    ensures GoodIndex(ch.l, ch.sha, st', p, st'.index[p])
  {
    if p == ch.l.index(ch.name) {
      forall r | r in ch.rows {
        ChangedRowDescribed(ch, st, st', r);
      }
    } else {
      assert GoodIndex(ch.l, ch.sha, st, p, st.index[p]);
      forall r | r in st.index[p] {
        OthersDescribed(ch.l, ch.sha, st, st', ch.name, ch.version, p, r);
      }
    }
  }

  /** A row's crate file is the one of `name` and `version` only if the row is. */
  lemma CrateOfRow(l: Layout, sha: Bytes -> string, st: State, name: string, version: string, p: string, r: Row)
    requires l.Good() && l.validName(name) && l.validVersion(version) && Describes(l, sha, st, p, r)
    ensures l.crate(r.name, r.version) == l.crate(name, version) <==> p == l.index(name) && r.version == version
  {
  }

  lemma KeptRowLists(ch: Change, st: State, st': State, p: string, r: Row)
    requires ch.Leads(st, st') && p in st.index && r in st.index[p]
    requires p != ch.l.index(ch.name) || r.version != ch.version
    ensures Listed(ch.l, st', ch.l.crate(r.name, r.version))
  {
    if p == ch.l.index(ch.name) {
      assert r in ch.rows;
    }
    assert p in st'.index && r in st'.index[p];
  }

  lemma ChangedCrateListed(ch: Change, st: State, st': State, c: string)
    requires ch.Valid() && StateAgrees(ch.l, ch.sha, st) && ch.Leads(st, st') && c in st'.crates
    ensures Listed(ch.l, st', c)
  {
    var path := ch.l.index(ch.name);
    if c == ch.l.crate(ch.name, ch.version) {
      var r :| r in ch.rows && r.version == ch.version;
      assert Describes(ch.l, ch.sha, st', path, r);
      CrateOfRow(ch.l, ch.sha, st', ch.name, ch.version, path, r);
      assert path in st'.index && r in st'.index[path];
    } else {
      assert Listed(ch.l, st, c);
      var p, r :| p in st.index && r in st.index[p] && ch.l.crate(r.name, r.version) == c;
      assert GoodIndex(ch.l, ch.sha, st, p, st.index[p]);
      CrateOfRow(ch.l, ch.sha, st, ch.name, ch.version, p, r);
      KeptRowLists(ch, st, st', p, r);
    }
  }

  lemma ChangeKeepsAgreement(ch: Change, st: State, st': State)
    requires ch.Valid() && StateAgrees(ch.l, ch.sha, st) && ch.Leads(st, st')
    ensures StateAgrees(ch.l, ch.sha, st')
  {
    forall p | p in st'.index {
      ChangedIndexGood(ch, st, st', p);
    }
    forall c | c in st'.crates {
      ChangedCrateListed(ch, st, st', c);
    }
  }

  // ---- put ----

  lemma UpsertedRows(l: Layout, rows: seq<Row>, row: Row)
    requires l.Good() && Injective(VersionOf, rows)
    ensures var sorted := StableSort(l.rowLeq, Upsert(rows, row));
            && SortedBy(l.rowLeq, sorted) && Injective(VersionOf, sorted) && sorted != [] &&
                HasVersion(sorted, row.version)
            && forall r :: r in sorted <==> r == row || (r in rows && r.version != row.version)
  {
    UpsertRows(rows, row);
    SortedRows(l, Upsert(rows, row));
    assert row in StableSort(l.rowLeq, Upsert(rows, row));
  }

  lemma UpsertNamed(rows: seq<Row>, row: Row)
    requires Named(rows) && row.name != "" && row.version != ""
    ensures Named(Upsert(rows, row)) && Upsert(rows, row) != []
  {
  }

  lemma CrateFileView(l: Layout, files: Files, c: string, crate: Bytes)
    requires l.inCrates(c) && !l.inIndex(c)
    ensures var st, st' := View(l, files), View(l, files[c := crate]);
            st'.index == st.index && st'.crates == st.crates[c := crate]
  {
  }

  lemma OtherFileView(l: Layout, files: Files, p: string, data: Bytes)
    requires !l.inCrates(p) && !l.inIndex(p)
    ensures View(l, files[p := data]) == View(l, files)
  {
  }

  lemma StoredCrateView(l: Layout, files: Files, row: Row, meta: Option<Bytes>, crate: Bytes)
    requires l.Good() && l.validName(row.name) && l.validVersion(row.version)
    ensures var st, st' := View(l, files), View(l, WithCrate(l, files, row, meta, crate));
            st'.index == st.index && st'.crates == st.crates[l.crate(row.name, row.version) := crate]
    ensures RowsOf(l, WithCrate(l, files, row, meta, crate), row.name) == RowsAt(l, files, l.index(row.name))
  {
    var c := l.crate(row.name, row.version);
    assert !l.inIndex(c);
    CrateFileView(l, files, c, crate);
    if meta.Some? {
      OtherFileView(l, files[c := crate], l.meta(row.name, row.version), meta.value);
    }
  }

  lemma WithRowsView(l: Layout, files: Files, p: string, rows: seq<Row>)
    requires l.Good() && l.inIndex(p) && Named(rows)
    ensures var st, st' := View(l, files), View(l, WithRows(l, files, p, rows));
            && st'.crates == st.crates
            && st'.index == if rows == [] then st.index - {p} else st.index[p := StableSort(l.rowLeq, rows)]
  {
    WrittenRows(l, rows);
    assert !l.inCrates(p);
    var files' := WithRows(l, files, p, rows);
    assert forall q | q != p :: (q in files' <==> q in files) && (q in files ==> files'[q] == files[q]);
    CratesKept(l, files, files', p);
    IndexesKept(l, files, files', p);
  }

  lemma CratesKept(l: Layout, files: Files, files': Files, p: string)
    requires !l.inCrates(p)
    requires forall q | q != p :: (q in files' <==> q in files) && (q in files ==> files'[q] == files[q])
    ensures View(l, files').crates == View(l, files).crates
  {
  }

  lemma IndexesKept(l: Layout, files: Files, files': Files, p: string)
    requires l.inIndex(p)
    requires forall q | q != p :: (q in files' <==> q in files) && (q in files ==> files'[q] == files[q])
    ensures View(l, files').index == if p in files' then View(l, files).index[p := l.codec.parse(files'[p])]
                                     else View(l, files).index - {p}
  {
  }

  lemma PutView(l: Layout, files: Files, row: Row, meta: Option<Bytes>, crate: Bytes)
    requires l.Good() && l.validName(row.name) && l.validVersion(row.version)
    ensures var st, st' := View(l, files), View(l, PutFiles(l, files, row, meta, crate));
            var p := l.index(row.name);
            && st'.crates == st.crates[l.crate(row.name, row.version) := crate]
            && st'.index == st.index[p := StableSort(l.rowLeq, Upsert(RowsAt(l, files, p), row))]
  {
    var p := l.index(row.name);
    StoredCrateView(l, files, row, meta, crate);
    RowsNamed(l, files, p);
    UpsertNamed(RowsAt(l, files, p), row);
    WithRowsView(l, WithCrate(l, files, row, meta, crate), p, Upsert(RowsAt(l, files, p), row));
  }

  lemma ViewRows(l: Layout, files: Files, p: string)
    requires l.inIndex(p)
    ensures p in View(l, files).index <==> p in files
    ensures p in files ==> View(l, files).index[p] == RowsAt(l, files, p)
  {
  }

  lemma WrittenLeads(ch: Change, st: State, st': State, row: Row, crate: Bytes, before: seq<Row>)
    requires ch.Valid() && ch.name == row.name && ch.version == row.version && row.cksum == ch.sha(crate)
    requires st'.crates == st.crates[ch.l.crate(row.name, row.version) := crate]
    requires st'.index == st.index[ch.l.index(row.name) := ch.rows]
    requires before == if ch.l.index(row.name) in st.index then st.index[ch.l.index(row.name)] else []
    requires SortedBy(ch.l.rowLeq, ch.rows) && Injective(VersionOf, ch.rows)
    requires ch.rows != [] && HasVersion(ch.rows, row.version)
    requires forall r :: r in ch.rows <==> r == row || (r in before && r.version != row.version)
    ensures ch.Leads(st, st')
  {
    assert Describes(ch.l, ch.sha, st', ch.l.index(row.name), row);
  }

  /** Publishing keeps the agreement. */
  lemma PutKeepsAgreement(l: Layout, sha: Bytes -> string, files: Files, row: Row, meta: Option<Bytes>, crate: Bytes)
    requires l.Good() && Agreement(l, sha, files)
    requires l.validName(row.name) && l.validVersion(row.version) && row.cksum == sha(crate)
    ensures Agreement(l, sha, PutFiles(l, files, row, meta, crate))
  {
    var p, st := l.index(row.name), View(l, files);
    var rows := RowsAt(l, files, p);
    ViewRows(l, files, p);
    assert p in st.index ==> GoodIndex(l, sha, st, p, rows);
    UpsertedRows(l, rows, row);
    PutView(l, files, row, meta, crate);
    var ch := Change(l, sha, row.name, row.version, StableSort(l.rowLeq, Upsert(rows, row)));
    WrittenLeads(ch, st, View(l, PutFiles(l, files, row, meta, crate)), row, crate, rows);
    ChangeKeepsAgreement(ch, st, View(l, PutFiles(l, files, row, meta, crate)));
  }

  /** What publishing changes: the crate and the metadata, if there is any, are
      stored; the index has the row, in the place of any of its version, and the
      rows of other versions, sorted; every other file stays. */
  lemma PutExact(l: Layout, files: Files, row: Row, meta: Option<Bytes>, crate: Bytes)
    requires l.Good() && l.validName(row.name) && l.validVersion(row.version)
    ensures var files' := PutFiles(l, files, row, meta, crate);
            var p, c, m := l.index(row.name), l.crate(row.name, row.version), l.meta(row.name, row.version);
            && c in files' && files'[c] == crate
            && (meta.Some? ==> m in files' && files'[m] == meta.value)
            && p in files' && SortedBy(l.rowLeq, RowsAt(l, files', p))
            && (forall r :: r in RowsAt(l, files', p) <==>
                  r == row || (r in RowsAt(l, files, p) && r.version != row.version))
            && forall q | q != p && q != c && (meta.Some? ==> q != m) ::
                 (q in files' <==> q in files) && (q in files' ==> files'[q] == files[q])
  {
    var p, c, m := l.index(row.name), l.crate(row.name, row.version), l.meta(row.name, row.version);
    assert c != p && m != p && c != m;
    var rows := RowsAt(l, files, p);
    var stored := WithCrate(l, files, row, meta, crate);
    assert RowsOf(l, stored, row.name) == rows;
    RowsNamed(l, files, p);
    UpsertNamed(rows, row);
    WrittenRows(l, Upsert(rows, row));
    UpsertMembers(rows, row);
    SortSorts(l.rowLeq, Upsert(rows, row));
    SameElements(StableSort(l.rowLeq, Upsert(rows, row)), Upsert(rows, row));
  }

  /** In the real index lower versions stand first. */
  lemma PublishedInOrder(codec: Codec, files: Files, row: Row, meta: Option<Bytes>, crate: Bytes)
    requires codec.Good() && ValidName(row.name) && ValidVersion(row.version)
    ensures var l := CargoLayout(codec);
            var rows := RowsAt(l, PutFiles(l, files, row, meta, crate), l.index(row.name));
            forall i, j | 0 <= i < j < |rows| :: CompareVersions(rows[i].version, rows[j].version) <= 0
  {
    var l := CargoLayout(codec);
    CargoLayoutGood(codec);
    PutExact(l, files, row, meta, crate);
    var rows := RowsAt(l, PutFiles(l, files, row, meta, crate), l.index(row.name));
    assert forall i, j | 0 <= i < j < |rows| :: l.rowLeq(rows[i], rows[j]);
  }

  // ---- setYanked ----

  /** Rewriting rows of one version leaves a sorted index sorted, if the order
      only looks at the versions. */
  ghost predicate OrdersByVersion(l: Layout) {
    forall a, b, a', b' | VersionOf(a) == VersionOf(a') && VersionOf(b) == VersionOf(b') ::
      l.rowLeq(a, b) == l.rowLeq(a', b')
  }

  lemma YankedSorted(l: Layout, rows: seq<Row>, version: string, yanked: bool)
    requires OrdersByVersion(l) && SortedBy(l.rowLeq, rows)
    ensures SortedBy(l.rowLeq, MapVersion(rows, version, Yank(yanked)))
    ensures Injective(VersionOf, rows) ==> Injective(VersionOf, MapVersion(rows, version, Yank(yanked)))
  {
    var rows' := MapVersion(rows, version, Yank(yanked));
    assert forall i | 0 <= i < |rows| :: VersionOf(rows'[i]) == VersionOf(rows[i]);
  }

  /** The same rows in the same order, the flag of the version set and nothing
      else touched. */
  predicate Flagged(rows: seq<Row>, rows': seq<Row>, version: string, yanked: bool) {
    && |rows'| == |rows|
    && forall i | 0 <= i < |rows| ::
         && rows'[i].name == rows[i].name && rows'[i].version == rows[i].version
         && rows'[i].cksum == rows[i].cksum && rows'[i].rest == rows[i].rest
         && rows'[i].yanked == if rows[i].version == version then yanked else rows[i].yanked
  }

  lemma YankFlags(rows: seq<Row>, version: string, yanked: bool)
    ensures Flagged(rows, MapVersion(rows, version, Yank(yanked)), version, yanked)
  {
  }

  /** setYanked touches one flag: the rows, their order and every other field
      stay, and so do all other files. */
  lemma SetYankedExact(
    l: Layout, sha: Bytes -> string, files: Files, name: string, version: string, yanked: bool)
    requires l.Good() && OrdersByVersion(l) && Agreement(l, sha, files) && l.validName(name)
    ensures var (files', r) := YankFiles(l, files, name, version, yanked);
            var p := l.index(name);
            && (r == Done || r == PackageNotFound)
            && (r == Done <==> exists x | x in RowsAt(l, files, p) :: x.version == version)
            && (r != Done ==> files' == files)
            && files'.Keys == files.Keys && (forall q | q in files && q != p :: files'[q] == files[q])
            && (r == Done ==> Flagged(RowsAt(l, files, p), RowsAt(l, files', p), version, yanked))
  {
    var p := l.index(name);
    var rows := RowsAt(l, files, p);
    if HasVersion(rows, version) {
      YankedAreSorted(l, sha, files, p, version, yanked);
      RowsNamed(l, files, p);
      WrittenRows(l, MapVersion(rows, version, Yank(yanked)));
      YankFlags(rows, version, yanked);
    }
  }

  lemma YankedAreSorted(l: Layout, sha: Bytes -> string, files: Files, p: string, version: string, yanked: bool)
    requires OrdersByVersion(l) && Agreement(l, sha, files) && l.inIndex(p) && p in files
    ensures var rows' := MapVersion(RowsAt(l, files, p), version, Yank(yanked));
            StableSort(l.rowLeq, rows') == rows'
  {
    ViewRows(l, files, p);
    var rows := RowsAt(l, files, p);
    assert GoodIndex(l, sha, View(l, files), p, View(l, files).index[p]);
    YankedSorted(l, rows, version, yanked);
    SortOfSorted(l.rowLeq, MapVersion(rows, version, Yank(yanked)));
  }

  lemma YankedIndexGood(
    l: Layout, sha: Bytes -> string, st: State, st': State, path: string, rows: seq<Row>, version: string, yanked: bool)
    requires OrdersByVersion(l) && GoodIndex(l, sha, st, path, rows) && st'.crates == st.crates
    ensures GoodIndex(l, sha, st', path, MapVersion(rows, version, Yank(yanked)))
  {
    var rows' := MapVersion(rows, version, Yank(yanked));
    YankedSorted(l, rows, version, yanked);
    forall x | x in rows'
      ensures Describes(l, sha, st', path, x)
    {
      var i :| 0 <= i < |rows'| && rows'[i] == x;
      assert Describes(l, sha, st, path, rows[i]);
    }
  }

  lemma OtherIndexGood(l: Layout, sha: Bytes -> string, st: State, st': State, p: string, rows: seq<Row>)
    requires GoodIndex(l, sha, st, p, rows) && st'.crates == st.crates
    ensures GoodIndex(l, sha, st', p, rows)
  {
    assert forall x | x in rows :: Describes(l, sha, st, p, x) ==> Describes(l, sha, st', p, x);
  }

  lemma YankedListed(
    l: Layout, st: State, st': State, path: string, rows: seq<Row>, version: string, yanked: bool, c: string)
    requires path in st.index && st.index[path] == rows && Listed(l, st, c)
    requires st'.index == st.index[path := MapVersion(rows, version, Yank(yanked))]
    ensures Listed(l, st', c)
  {
    var rows' := MapVersion(rows, version, Yank(yanked));
    var p, q :| p in st.index && q in st.index[p] && l.crate(q.name, q.version) == c;
    if p == path {
      var i :| 0 <= i < |rows| && rows[i] == q;
      assert rows'[i] in st'.index[p] && l.crate(rows'[i].name, rows'[i].version) == c;
    } else {
      assert q in st'.index[p];
    }
  }

  lemma YankedStateAgrees(
    l: Layout, sha: Bytes -> string, st: State, st': State, path: string, version: string, yanked: bool)
    requires OrdersByVersion(l) && StateAgrees(l, sha, st) && path in st.index && st'.crates == st.crates
    requires st'.index == st.index[path := MapVersion(st.index[path], version, Yank(yanked))]
    ensures StateAgrees(l, sha, st')
  {
    forall p | p in st'.index
      ensures GoodIndex(l, sha, st', p, st'.index[p])
    {
      if p == path {
        YankedIndexGood(l, sha, st, st', path, st.index[path], version, yanked);
      } else {
        OtherIndexGood(l, sha, st, st', p, st.index[p]);
      }
    }
    forall c | c in st'.crates
      ensures Listed(l, st', c)
    {
      YankedListed(l, st, st', path, st.index[path], version, yanked, c);
    }
  }

  lemma SetYankedKeepsAgreement(
    l: Layout, sha: Bytes -> string, files: Files, name: string, version: string, yanked: bool)
    requires l.Good() && OrdersByVersion(l) && Agreement(l, sha, files) && l.validName(name)
    ensures Agreement(l, sha, YankFiles(l, files, name, version, yanked).0)
  {
    var p := l.index(name);
    var rows := RowsAt(l, files, p);
    if HasVersion(rows, version) {
      YankView(l, sha, files, p, version, yanked);
      ViewRows(l, files, p);
      YankedStateAgrees(l, sha, View(l, files), View(l, YankFiles(l, files, name, version, yanked).0), p, version,
          yanked);
    }
  }

  lemma YankView(l: Layout, sha: Bytes -> string, files: Files, p: string, version: string, yanked: bool)
    requires l.Good() && OrdersByVersion(l) && Agreement(l, sha, files) && l.inIndex(p)
    requires p in files && RowsAt(l, files, p) != []
    ensures var rows' := MapVersion(RowsAt(l, files, p), version, Yank(yanked));
            var st, st' := View(l, files), View(l, WithRows(l, files, p, rows'));
            st'.crates == st.crates && st'.index == st.index[p := rows']
  {
    YankedAreSorted(l, sha, files, p, version, yanked);
    RowsNamed(l, files, p);
    WithRowsView(l, files, p, MapVersion(RowsAt(l, files, p), version, Yank(yanked)));
  }

  // ---- DeleteVersion ----

  /** What the deletion leaves when its name leads to an index file. */
  ghost function WithoutRow(l: Layout, st: State, p: string, version: string, c: string): State
    requires p in st.index
  {
    var next := Filter(Not(version), st.index[p]);
    State(st.crates - {c}, if next == [] then st.index - {p} else st.index[p := next])
  }

  lemma RemainingRows(l: Layout, rows: seq<Row>, version: string)
    requires SortedBy(l.rowLeq, rows) && Injective(VersionOf, rows)
    ensures var next := Filter(Not(version), rows);
            && SortedBy(l.rowLeq, next) && Injective(VersionOf, next) && !HasVersion(next, version)
            && forall r: Row | r.version != version :: r in next <==> r in rows
  {
    FilterSorted(l.rowLeq, Not(version), rows);
    FilterKeepsInjective(VersionOf, Not(version), rows);
  }

  /** Dropping a row with its own crate keeps the agreement. */
  lemma OwnCrateDropped(l: Layout, sha: Bytes -> string, st: State, p: string, r: Row)
    requires l.Good() && StateAgrees(l, sha, st) && p in st.index && r in st.index[p]
    ensures StateAgrees(l, sha, WithoutRow(l, st, p, r.version, l.crate(r.name, r.version)))
  {
    assert GoodIndex(l, sha, st, p, st.index[p]) && Describes(l, sha, st, p, r);
    var ch := Change(l, sha, r.name, r.version, Filter(Not(r.version), st.index[p]));
    DropLeads(ch, st, p);
    ChangeKeepsAgreement(ch, st, WithoutRow(l, st, p, r.version, l.crate(r.name, r.version)));
  }

  lemma DropLeads(ch: Change, st: State, p: string)
    requires p in st.index && p == ch.l.index(ch.name) && ch.rows == Filter(Not(ch.version), st.index[p])
    requires SortedBy(ch.l.rowLeq, st.index[p]) && Injective(VersionOf, st.index[p])
    ensures ch.Leads(st, WithoutRow(ch.l, st, p, ch.version, ch.l.crate(ch.name, ch.version)))
  {
    RemainingRows(ch.l, st.index[p], ch.version);
  }

  lemma WithoutRowRows(l: Layout, st: State, p: string, version: string, c: string, q: string, s: Row)
    requires p in st.index
    requires q in WithoutRow(l, st, p, version, c).index && s in WithoutRow(l, st, p, version, c).index[q]
    ensures q in st.index && s in st.index[q] && (q == p ==> s.version != version)
  {
  }

  lemma OtherRowsCrate(l: Layout, sha: Bytes -> string, st: State, p: string, r: Row, q: string, s: Row)
    requires l.Good() && StateAgrees(l, sha, st) && p in st.index && r in st.index[p]
    requires q in st.index && s in st.index[q] && (q == p ==> s.version != r.version)
    ensures l.crate(s.name, s.version) != l.crate(r.name, r.version)
  {
    assert GoodIndex(l, sha, st, p, st.index[p]) && Describes(l, sha, st, p, r);
    assert GoodIndex(l, sha, st, q, st.index[q]) && Describes(l, sha, st, q, s);
    CrateOfRow(l, sha, st, r.name, r.version, q, s);
  }

  lemma OwnCrateThere(l: Layout, sha: Bytes -> string, st: State, p: string, r: Row, c: string)
    requires StateAgrees(l, sha, st) && p in st.index && r in st.index[p] && c != l.crate(r.name, r.version)
    ensures l.crate(r.name, r.version) in WithoutRow(l, st, p, r.version, c).crates
  {
    assert GoodIndex(l, sha, st, p, st.index[p]) && Describes(l, sha, st, p, r);
  }

  /** Dropping it with another crate file leaves its own without a row. */
  lemma OtherCrateDropped(l: Layout, sha: Bytes -> string, st: State, p: string, r: Row, c: string)
    requires l.Good() && StateAgrees(l, sha, st) && p in st.index && r in st.index[p]
    requires c != l.crate(r.name, r.version)
    ensures !StateAgrees(l, sha, WithoutRow(l, st, p, r.version, c))
  {
    OwnCrateThere(l, sha, st, p, r, c);
    OwnCrateUnlisted(l, sha, st, p, r, c);
    Disagrees(l, sha, WithoutRow(l, st, p, r.version, c), l.crate(r.name, r.version));
  }

  lemma Disagrees(l: Layout, sha: Bytes -> string, st: State, c: string)
    requires c in st.crates && !Listed(l, st, c)
    ensures !StateAgrees(l, sha, st)
  {
  }

  lemma OwnCrateUnlisted(l: Layout, sha: Bytes -> string, st: State, p: string, r: Row, c: string)
    requires l.Good() && StateAgrees(l, sha, st) && p in st.index && r in st.index[p]
    ensures !Listed(l, WithoutRow(l, st, p, r.version, c), l.crate(r.name, r.version))
  {
    var st' := WithoutRow(l, st, p, r.version, c);
    forall q, s | q in st'.index && s in st'.index[q]
      ensures l.crate(s.name, s.version) != l.crate(r.name, r.version)
    {
      WithoutRowRows(l, st, p, r.version, c, q, s);
      OtherRowsCrate(l, sha, st, p, r, q, s);
    }
  }

  /** No crate file is lost, and none gets another checksum. */
  ghost predicate SameSums(sha: Bytes -> string, st: State, st': State) {
    forall x | x in st.crates :: x in st'.crates && sha(st'.crates[x]) == sha(st.crates[x])
  }

  /** When only crate files change, that is what agreement asks. */
  lemma CratesChanged(l: Layout, sha: Bytes -> string, st: State, st': State)
    requires l.Good() && StateAgrees(l, sha, st) && st'.index == st.index && st'.crates.Keys <= st.crates.Keys
    ensures StateAgrees(l, sha, st') <==> SameSums(sha, st, st')
  {
    if StateAgrees(l, sha, st') {
      forall x | x in st.crates
        ensures x in st'.crates && sha(st'.crates[x]) == sha(st.crates[x])
      {
        CrateStays(l, sha, st, st', x);
      }
    }
    if SameSums(sha, st, st') {
      SameSumsAgree(l, sha, st, st');
    }
  }

  lemma CrateStays(l: Layout, sha: Bytes -> string, st: State, st': State, x: string)
    requires StateAgrees(l, sha, st) && StateAgrees(l, sha, st') && st'.index == st.index && x in st.crates
    ensures x in st'.crates && sha(st'.crates[x]) == sha(st.crates[x])
  {
    assert Listed(l, st, x);
    var p, r :| p in st.index && r in st.index[p] && l.crate(r.name, r.version) == x;
    assert GoodIndex(l, sha, st, p, st.index[p]) && Describes(l, sha, st, p, r);
    assert GoodIndex(l, sha, st', p, st'.index[p]) && Describes(l, sha, st', p, r);
  }

  lemma SameSumsAgree(l: Layout, sha: Bytes -> string, st: State, st': State)
    requires StateAgrees(l, sha, st) && st'.index == st.index && st'.crates.Keys <= st.crates.Keys
    requires SameSums(sha, st, st')
    ensures StateAgrees(l, sha, st')
  {
    forall p | p in st'.index
      ensures GoodIndex(l, sha, st', p, st'.index[p])
    {
      assert GoodIndex(l, sha, st, p, st.index[p]);
      assert forall r | r in st.index[p] :: Describes(l, sha, st, p, r) ==> Describes(l, sha, st', p, r);
    }
    forall c | c in st'.crates
      ensures Listed(l, st', c)
    {
      assert Listed(l, st, c);
    }
  }

  /** The deletion, by the file its name leads to. Of an index file it must drop
      the crate of the row it drops. Elsewhere - a name with ".." in it can lead
      to any file, and some may read as rows - it must not take a stored crate,
      nor change one's checksum. */
  predicate Spares(l: Layout, sha: Bytes -> string, files: Files, name: string, version: string) {
    var p, c := l.index(name), l.crate(name, version);
    var rows := RowsAt(l, files, p);
    var next := Filter(Not(version), rows);
    if l.inIndex(p) then exists i | 0 <= i < |rows| :: rows[i].version == version && l.crate(rows[i].name, version) == c
    else
      && (c != p ==> !(l.inCrates(c) && c in files))
      && (l.inCrates(p) && p in files ==>
            next != [] && sha(l.codec.encode(StableSort(l.rowLeq, next))) == sha(files[p]))
  }

  lemma KeptSorted(l: Layout, sha: Bytes -> string, files: Files, p: string, version: string)
    requires Agreement(l, sha, files) && l.inIndex(p) && p in files
    ensures var next := Filter(Not(version), RowsAt(l, files, p)); StableSort(l.rowLeq, next) == next
  {
    ViewRows(l, files, p);
    assert GoodIndex(l, sha, View(l, files), p, View(l, files).index[p]);
    FilterSorted(l.rowLeq, Not(version), RowsAt(l, files, p));
    SortOfSorted(l.rowLeq, Filter(Not(version), RowsAt(l, files, p)));
  }

  lemma KeptNamed(rows: seq<Row>, version: string)
    requires Named(rows)
    ensures Named(Filter(Not(version), rows))
  {
    var next := Filter(Not(version), rows);
    forall i | 0 <= i < |next|
      ensures next[i].name != "" && next[i].version != ""
    {
      assert next[i] in rows;
    }
  }

  /** No deleted file is an index file, and no metadata file a stored crate. */
  lemma DeletedView(l: Layout, sha: Bytes -> string, files: Files, name: string, version: string, next: seq<Row>)
    requires l.Good() && Agreement(l, sha, files)
    ensures var st, st' := View(l, files), View(l, files - Deleted(l, name, version, next));
            st'.index == st.index && st'.crates == st.crates - {l.crate(name, version)}
  {
    var st := View(l, files);
    var gone := Deleted(l, name, version, next);
    forall p | p in st.index
      ensures p !in gone
    {
      IndexFileKept(l, sha, st, name, version, next, p);
    }
    forall c | c in st.crates && c != l.crate(name, version)
      ensures c !in gone
    {
      CrateFileKept(l, sha, st, name, version, next, c);
    }
    WithoutFiles(l, files, gone, l.crate(name, version));
  }

  lemma WithoutFiles(l: Layout, files: Files, gone: set<string>, c: string)
    requires c in gone && (forall p | p in View(l, files).index :: p !in gone)
    requires forall x | x in View(l, files).crates && x != c :: x !in gone
    ensures View(l, files - gone).index == View(l, files).index
    ensures View(l, files - gone).crates == View(l, files).crates - {c}
  {
  }

  lemma NameOfIndex(l: Layout, sha: Bytes -> string, st: State, p: string) returns (n: string)
    requires StateAgrees(l, sha, st) && p in st.index
    ensures l.validName(n) && l.index(n) == p
  {
    assert GoodIndex(l, sha, st, p, st.index[p]);
    var r := st.index[p][0];
    assert Describes(l, sha, st, p, r);
    n := r.name;
  }

  lemma NamesOfCrate(l: Layout, sha: Bytes -> string, st: State, c: string) returns (n: string, v: string)
    requires StateAgrees(l, sha, st) && c in st.crates
    ensures l.validName(n) && l.validVersion(v) && l.crate(n, v) == c
  {
    assert Listed(l, st, c);
    var p, r :| p in st.index && r in st.index[p] && l.crate(r.name, r.version) == c;
    assert GoodIndex(l, sha, st, p, st.index[p]) && Describes(l, sha, st, p, r);
    n, v := r.name, r.version;
  }

  lemma IndexFileKept(
    l: Layout, sha: Bytes -> string, st: State, name: string, version: string, next: seq<Row>, p: string)
    requires l.Apart() && StateAgrees(l, sha, st) && p in st.index
    ensures p !in Deleted(l, name, version, next)
  {
    var n := NameOfIndex(l, sha, st, p);
  }

  lemma CrateFileKept(
    l: Layout, sha: Bytes -> string, st: State, name: string, version: string, next: seq<Row>, c: string)
    requires l.Apart() && StateAgrees(l, sha, st) && c in st.crates && c != l.crate(name, version)
    ensures c !in Deleted(l, name, version, next)
  {
    var n, v := NamesOfCrate(l, sha, st, c);
  }

  /** A name that leads to an index file. */
  lemma DeleteFromIndex(l: Layout, sha: Bytes -> string, files: Files, name: string, version: string)
    requires l.Good() && Agreement(l, sha, files) && l.named(name) && version != ""
    requires var p := l.index(name); l.inIndex(p) && p in files && HasVersion(RowsAt(l, files, p), version)
    ensures View(l, DeleteFiles(l, files, name, version).0)
         == WithoutRow(l, View(l, files), l.index(name), version, l.crate(name, version))
  {
    var p := l.index(name);
    var next := Filter(Not(version), RowsAt(l, files, p));
    DeletedView(l, sha, files, name, version, next);
    KeptSorted(l, sha, files, p, version);
    RowsNamed(l, files, p);
    KeptNamed(RowsAt(l, files, p), version);
    WithRowsView(l, files - Deleted(l, name, version, next), p, next);
    ViewRows(l, files, p);
  }

  /** A name that leads elsewhere: the indexes stay as they are. */
  lemma DeleteElsewhere(l: Layout, sha: Bytes -> string, files: Files, name: string, version: string)
    requires l.Good() && Agreement(l, sha, files) && l.named(name) && version != ""
    requires var p := l.index(name); !l.inIndex(p) && p in files && HasVersion(RowsAt(l, files, p), version)
    ensures var st, st' := View(l, files), View(l, DeleteFiles(l, files, name, version).0);
            && st'.index == st.index && st'.crates.Keys <= st.crates.Keys
            && (SameSums(sha, st, st') <==> Spares(l, sha, files, name, version))
  {
    var p := l.index(name);
    var next := Filter(Not(version), RowsAt(l, files, p));
    var left := files - Deleted(l, name, version, next);
    DeletedView(l, sha, files, name, version, next);
    WriteElsewhere(l, left, p, next);
    ElsewhereSums(l, sha, files, name, version);
  }

  lemma IndexesUntouched(l: Layout, files: Files, files': Files, p: string)
    requires !l.inIndex(p)
    requires forall q | q != p :: (q in files' <==> q in files) && (q in files ==> files'[q] == files[q])
    ensures View(l, files').index == View(l, files).index
  {
  }

  lemma CrateWritten(l: Layout, files: Files, files': Files, p: string)
    requires l.inCrates(p)
    requires forall q | q != p :: (q in files' <==> q in files) && (q in files ==> files'[q] == files[q])
    ensures View(l, files').crates
         == if p in files' then View(l, files).crates[p := files'[p]] else View(l, files).crates - {p}
  {
  }

  /** What becomes of the crates when the rows of another file are written. */
  function CratesAfter(l: Layout, crates: map<string, Bytes>, p: string, next: seq<Row>): map<string, Bytes> {
    if !l.inCrates(p) then crates
    else if next == [] then crates - {p}
    else crates[p := l.codec.encode(StableSort(l.rowLeq, next))]
  }

  lemma WriteElsewhere(l: Layout, left: Files, p: string, next: seq<Row>)
    requires !l.inIndex(p)
    ensures var st' := View(l, WithRows(l, left, p, next));
            st'.index == View(l, left).index && st'.crates == CratesAfter(l, View(l, left).crates, p, next)
  {
    var files' := WithRows(l, left, p, next);
    assert forall q | q != p :: (q in files' <==> q in left) && (q in left ==> files'[q] == left[q]);
    IndexesUntouched(l, left, files', p);
    if l.inCrates(p) {
      CrateWritten(l, left, files', p);
    } else {
      CratesKept(l, left, files', p);
    }
  }

  lemma ElsewhereSums(l: Layout, sha: Bytes -> string, files: Files, name: string, version: string)
    requires var p := l.index(name); !l.inIndex(p) && p in files
    ensures var p, st := l.index(name), View(l, files);
            var next := Filter(Not(version), RowsAt(l, files, p));
            var after := CratesAfter(l, st.crates - {l.crate(name, version)}, p, next);
            && after.Keys <= st.crates.Keys
            && (SameSums(sha, st, State(after, st.index)) <==> Spares(l, sha, files, name, version))
  {
    var p, c, st := l.index(name), l.crate(name, version), View(l, files);
    var next := Filter(Not(version), RowsAt(l, files, p));
    assert c in st.crates <==> l.inCrates(c) && c in files;
    assert p in st.crates <==> l.inCrates(p);
    assert p in st.crates ==> st.crates[p] == files[p];
    SumsExact(l, sha, st, p, c, next);
  }

  lemma SumsExact(l: Layout, sha: Bytes -> string, st: State, p: string, c: string, next: seq<Row>)
    requires p in st.crates <==> l.inCrates(p)
    ensures var after := CratesAfter(l, st.crates - {c}, p, next);
            var written := l.codec.encode(StableSort(l.rowLeq, next));
            && after.Keys <= st.crates.Keys
            && (SameSums(sha, st, State(after, st.index)) <==>
                 && (c != p ==> c !in st.crates)
                 && (p in st.crates ==> next != [] && sha(written) == sha(st.crates[p])))
  {
    var after := CratesAfter(l, st.crates - {c}, p, next);
    if c != p && c in st.crates {
      assert c !in after;
    }
  }

  /** For every name and version there is: a deletion keeps the agreement if and
      only if it deletes nothing or spares the other crates. */
  lemma DeletionExact(l: Layout, sha: Bytes -> string, files: Files, name: string, version: string)
    requires l.Good() && Agreement(l, sha, files)
    ensures var (files', r) := DeleteFiles(l, files, name, version);
            Agreement(l, sha, files') <==> r != Done || Spares(l, sha, files, name, version)
  {
    var p := l.index(name);
    if DeleteFiles(l, files, name, version).1 == Done {
      if l.inIndex(p) {
        DeleteFromIndex(l, sha, files, name, version);
        IndexDeletionExact(l, sha, files, name, version);
      } else {
        DeleteElsewhere(l, sha, files, name, version);
        CratesChanged(l, sha, View(l, files), View(l, DeleteFiles(l, files, name, version).0));
      }
    }
  }

  lemma IndexDeletionExact(l: Layout, sha: Bytes -> string, files: Files, name: string, version: string)
    requires l.Good() && Agreement(l, sha, files)
    requires var p := l.index(name); l.inIndex(p) && p in files && HasVersion(RowsAt(l, files, p), version)
    ensures StateAgrees(l, sha, WithoutRow(l, View(l, files), l.index(name), version, l.crate(name, version)))
       <==> Spares(l, sha, files, name, version)
  {
    var p, c, st := l.index(name), l.crate(name, version), View(l, files);
    ViewRows(l, files, p);
    var r :| r in st.index[p] && r.version == version;
    OneRow(l, sha, st, p, r);
    DropsOwn(l, st.index[p], r, c);
    if l.crate(r.name, version) == c {
      OwnCrateDropped(l, sha, st, p, r);
    } else {
      OtherCrateDropped(l, sha, st, p, r, c);
    }
  }

  lemma DropsOwn(l: Layout, rows: seq<Row>, r: Row, c: string)
    requires r in rows && forall s | s in rows && s.version == r.version :: s == r
    ensures (exists i | 0 <= i < |rows| :: rows[i].version == r.version && l.crate(rows[i].name, r.version) == c)
       <==> l.crate(r.name, r.version) == c
  {
    var i :| 0 <= i < |rows| && rows[i] == r;
  }

  lemma OneRow(l: Layout, sha: Bytes -> string, st: State, p: string, r: Row)
    requires StateAgrees(l, sha, st) && p in st.index && r in st.index[p]
    ensures forall s | s in st.index[p] && s.version == r.version :: s == r
  {
    assert GoodIndex(l, sha, st, p, st.index[p]);
    forall s | s in st.index[p] && s.version == r.version
      ensures s == r
    {
      var i :| 0 <= i < |st.index[p]| && st.index[p][i] == r;
      var j :| 0 <= j < |st.index[p]| && st.index[p][j] == s;
      assert i != j ==> VersionOf(st.index[p][i]) != VersionOf(st.index[p][j]);
    }
  }

  /** The rows left are those of other versions, in order. */
  ghost predicate OthersLeft(rows: seq<Row>, left: seq<Row>, version: string) {
    exists at :: OthersLeftAt(rows, left, version, at)
  }

  ghost predicate OthersLeftAt(rows: seq<Row>, left: seq<Row>, version: string, at: seq<nat>) {
    Selects((r: Row) => r.version != version, rows, left, at)
  }

  lemma NotSelects(rows: seq<Row>, version: string)
    ensures OthersLeft(rows, Filter(Not(version), rows), version)
  {
    var at := FilterSelects(Not(version), rows);
    assert OthersLeftAt(rows, Filter(Not(version), rows), version, at);
  }

  /** Besides the index file p only these files are gone, the others as they were. */
  ghost predicate OnlyGone(files: Files, files': Files, p: string, gone: set<string>) {
    forall q | q != p :: (q in files' <==> q in files && q !in gone) && (q in files' ==> files'[q] == files[q])
  }

  lemma WithRowsElsewhere(l: Layout, files: Files, gone: set<string>, p: string, rows: seq<Row>)
    ensures OnlyGone(files, WithRows(l, files - gone, p, rows), p, gone)
    ensures p in WithRows(l, files - gone, p, rows) <==> rows != []
  {
  }

  /** What a deletion changes: of the index file its row of the version, in the
      store the crate and its metadata, with the last row the owners and the
      index file, and no others. */
  lemma DeleteExact(l: Layout, sha: Bytes -> string, files: Files, name: string, version: string)
    requires l.Good() && Agreement(l, sha, files) && l.validName(name)
    ensures var (files', r) := DeleteFiles(l, files, name, version);
            var p := l.index(name);
            && (version == "" <==> r == InvalidPackageName)
            && (r == Done <==> exists x | x in RowsAt(l, files, p) :: x.version == version)
            && (r != Done ==> files' == files)
            && (r == Done ==>
                  var left := RowsAt(l, files', p);
                  && OthersLeft(RowsAt(l, files, p), left, version)
                  && (p in files' <==> left != [])
                  && OnlyGone(files, files', p, if left == [] then
                        {l.crate(name, version), l.meta(name, version), l.owners(name)}
                      else {l.crate(name, version), l.meta(name, version)}))
  {
    var p := l.index(name);
    RowsNamed(l, files, p);
    if HasVersion(RowsAt(l, files, p), version) {
      DoneExact(l, sha, files, name, version);
    }
  }

  lemma DoneExact(l: Layout, sha: Bytes -> string, files: Files, name: string, version: string)
    requires l.Good() && Agreement(l, sha, files) && l.validName(name)
    requires DeleteFiles(l, files, name, version).1 == Done
    ensures var files' := DeleteFiles(l, files, name, version).0;
            var p := l.index(name);
            var left := RowsAt(l, files', p);
            && OthersLeft(RowsAt(l, files, p), left, version)
            && (p in files' <==> left != [])
            && OnlyGone(files, files', p, {l.crate(name, version), l.meta(name, version)} +
                  (if left == [] then {l.owners(name)} else {}))
  {
    var p := l.index(name);
    var next := Filter(Not(version), RowsAt(l, files, p));
    KeptSorted(l, sha, files, p, version);
    KeptNamed(RowsAt(l, files, p), version);
    WrittenRows(l, next);
    NotSelects(RowsAt(l, files, p), version);
    WithRowsElsewhere(l, files, Deleted(l, name, version, next), p, next);
  }

  /** The layout tells names apart: an index file determines the crate files. */
  ghost predicate NamesTold(l: Layout, name: string) {
    l.inIndex(l.index(name)) && forall n, v | l.validName(n) && l.index(n) == l.index(name) ::
        l.crate(n, v) == l.crate(name, v)
  }

  /** Then every deletion by the name is in order, whatever the version. */
  lemma ToldNameSpares(l: Layout, sha: Bytes -> string, files: Files, name: string, version: string)
    requires l.Good() && Agreement(l, sha, files) && NamesTold(l, name)
    ensures DeleteFiles(l, files, name, version).1 == Done ==> Spares(l, sha, files, name, version)
    ensures Agreement(l, sha, DeleteFiles(l, files, name, version).0)
  {
    DeletionExact(l, sha, files, name, version);
    if DeleteFiles(l, files, name, version).1 == Done {
      var p := l.index(name);
      var rows := RowsAt(l, files, p);
      ViewRows(l, files, p);
      var i :| 0 <= i < |rows| && rows[i].version == version;
      assert rows[i] in rows;
      assert GoodIndex(l, sha, View(l, files), p, rows) && Describes(l, sha, View(l, files), p, rows[i]);
    }
  }

  /** It does for every valid name, and for every name without "/" and ".". */
  lemma PlainNamesTold(codec: Codec, name: string)
    requires '/' !in name && '.' !in name && Norm(name) != ""
    ensures NamesTold(CargoLayout(codec), name)
  {
    var l := CargoLayout(codec);
    PlainNameNorm(name);
    PlainInIndex(Norm(name));
    forall n, v | l.validName(n) && l.index(n) == l.index(name)
      ensures l.crate(n, v) == l.crate(name, v)
    {
      ValidNamePlain(n);
      SameIndexFile(Norm(n), Norm(name));
    }
  }

  lemma PlainInIndex(n: string)
    requires PlainName(n)
    ensures InIndex(IndexFile(n))
  {
    IndexFilePlain(n);
  }

  lemma SameIndexFile(n: string, m: string)
    requires PlainName(n) && PlainName(m) && IndexFile(n) == IndexFile(m)
    ensures n == m
  {
    IndexFilePlain(n);
    IndexFilePlain(m);
  }

  // ---- A name with a trailing slash ----

  lemma TrailingSlashNorm(n: string)
    requires ValidName(n) && Lower(n) == n
    ensures Norm(n) == n && Norm(n + "/") == n + "/"
  {
    ValidNameNorm(n);
    assert Trimmed(n + "/");
    TrimSpaceOfTrimmed(n + "/");
    LowerConcat(n, "/");
    assert Lower("/") == "/";
  }

  lemma SlashIndexOf(n: string, m: string)
    requires |n| >= 4 && Norm(n) == n && Norm(m) == m == n + "/"
    ensures StoredIndex(m) == StoredIndex(n)
  {
    TrailingSlashIndex(n);
  }

  lemma SlashStoredIndex(n: string)
    requires ValidName(n) && Lower(n) == n && |n| >= 4
    ensures Norm(n + "/") != "" && StoredIndex(n + "/") == StoredIndex(n)
  {
    TrailingSlashNorm(n);
    SlashIndexOf(n, n + "/");
  }

  lemma SlashStoredCrate(n: string, version: string)
    requires ValidName(n) && Lower(n) == n && ValidVersion(version)
    ensures StoredCrate(n + "/", version) != StoredCrate(n, version)
  {
    TrailingSlashNorm(n);
    ValidIsPlain(n);
    PlainVersion(version);
    TrailingSlashCrate(n, version);
  }

  /** What a layout must do for a name to be mistaken for another. */
  ghost predicate MistakenFor(l: Layout, name: string, n: string) {
    && l.named(name) && l.index(name) == l.index(n)
    && (forall v | l.validVersion(v) :: l.crate(name, v) != l.crate(n, v))
  }

  lemma SlashStoredCrates(n: string)
    requires ValidName(n) && Lower(n) == n
    ensures forall v | ValidVersion(v) :: StoredCrate(n + "/", v) != StoredCrate(n, v)
  {
    forall v | ValidVersion(v)
      ensures StoredCrate(n + "/", v) != StoredCrate(n, v)
    {
      SlashStoredCrate(n, v);
    }
  }

  lemma StoredMistaken(codec: Codec, name: string, n: string)
    requires Norm(name) != "" && StoredIndex(name) == StoredIndex(n)
    requires forall v | ValidVersion(v) :: StoredCrate(name, v) != StoredCrate(n, v)
    ensures MistakenFor(CargoLayout(codec), name, n)
  {
    var l := CargoLayout(codec);
    assert l.named(name) && l.index(name) == l.index(n);
    forall v | l.validVersion(v)
      ensures l.crate(name, v) != l.crate(n, v)
    {
      assert ValidVersion(v) && StoredCrate(name, v) != StoredCrate(n, v);
    }
  }

  lemma TrailingSlashMistaken(codec: Codec, n: string)
    requires ValidName(n) && Lower(n) == n && |n| >= 4
    ensures MistakenFor(CargoLayout(codec), n + "/", n)
  {
    SlashStoredIndex(n);
    SlashStoredCrates(n);
    StoredMistaken(codec, n + "/", n);
  }

  /** A deletion by the mistaken name finds the crate's row, drops it, and leaves
      its crate file behind. */
  lemma MistakenDeletion(
    l: Layout, sha: Bytes -> string, files: Files, name: string, n: string, version: string)
    requires l.Good() && Agreement(l, sha, files) && l.validName(n) && MistakenFor(l, name, n) && version != ""
    requires HasVersion(RowsAt(l, files, l.index(n)), version)
    ensures var (files', r) := DeleteFiles(l, files, name, version);
            r == Done && !Agreement(l, sha, files')
  {
    var r :| r in RowsAt(l, files, l.index(n)) && r.version == version;
    RowOfName(l, sha, files, n, r);
    DropsOther(l, sha, files, name, r);
    DeletionExact(l, sha, files, name, version);
  }

  /** A valid name in lower case, of four letters or more, with "/" behind it is
      such a name. */
  lemma TrailingSlashDeletion(codec: Codec, sha: Bytes -> string, files: Files, n: string, version: string)
    requires codec.Good() && Agreement(CargoLayout(codec), sha, files)
    requires ValidName(n) && Lower(n) == n && |n| >= 4 && version != ""
    requires HasVersion(RowsAt(CargoLayout(codec), files, CargoLayout(codec).index(n)), version)
    ensures var (files', r) := DeleteFiles(CargoLayout(codec), files, n + "/", version);
            r == Done && !Agreement(CargoLayout(codec), sha, files')
  {
    CargoLayoutGood(codec);
    TrailingSlashMistaken(codec, n);
    MistakenDeletion(CargoLayout(codec), sha, files, n + "/", n, version);
  }

  lemma RowOfName(l: Layout, sha: Bytes -> string, files: Files, n: string, r: Row)
    requires l.Good() && Agreement(l, sha, files) && l.validName(n) && r in RowsAt(l, files, l.index(n))
    ensures l.validVersion(r.version) && l.crate(r.name, r.version) == l.crate(n, r.version)
  {
    var p := l.index(n);
    ViewRows(l, files, p);
    assert GoodIndex(l, sha, View(l, files), p, RowsAt(l, files, p)) && Describes(l, sha, View(l, files), p, r);
  }

  lemma DropsOther(l: Layout, sha: Bytes -> string, files: Files, name: string, r: Row)
    requires Agreement(l, sha, files) && l.inIndex(l.index(name)) && r in RowsAt(l, files, l.index(name))
    requires l.crate(r.name, r.version) != l.crate(name, r.version)
    ensures !Spares(l, sha, files, name, r.version)
  {
    ViewRows(l, files, l.index(name));
    var rows := RowsAt(l, files, l.index(name));
    OneRow(l, sha, View(l, files), l.index(name), r);
    DropsOwn(l, rows, r, l.crate(name, r.version));
  }

  /** Publish serde 1.0.0 to an empty registry, and delete "serde/" 1.0.0: the row
      is gone, the crate is not. */
  lemma SerdeSlash(codec: Codec, sha: Bytes -> string, n: string, v: string, crate: Bytes)
    requires codec.Good() && n == "serde" && v == "1.0.0"
    ensures var l := CargoLayout(codec);
            var files := PutFiles(l, map[], Row(n, v, sha(crate), false, ""), None, crate);
            var (files', r) := DeleteFiles(l, files, n + "/", v);
            Agreement(l, sha, files) && r == Done && !Agreement(l, sha, files')
  {
    SerdeName(n);
    OneVersion(v);
    FirstPutThenSlash(codec, sha, Row(n, v, sha(crate), false, ""), crate);
  }

  lemma FirstPutThenSlash(codec: Codec, sha: Bytes -> string, row: Row, crate: Bytes)
    requires codec.Good() && row.cksum == sha(crate)
    requires ValidName(row.name) && Lower(row.name) == row.name && |row.name| >= 4 && ValidVersion(row.version)
    ensures var l := CargoLayout(codec);
            var files := PutFiles(l, map[], row, None, crate);
            var (files', r) := DeleteFiles(l, files, row.name + "/", row.version);
            Agreement(l, sha, files) && r == Done && !Agreement(l, sha, files')
  {
    var l := CargoLayout(codec);
    CargoLayoutGood(codec);
    EmptyAgrees(l, sha);
    PlainVersion(row.version);
    PutKeepsAgreement(l, sha, map[], row, None, crate);
    PutRow(l, sha, map[], row, None, crate);
    TrailingSlashDeletion(codec, sha, PutFiles(l, map[], row, None, crate), row.name, row.version);
  }

  lemma SerdeName(n: string)
    requires n == "serde"
    ensures ValidName(n) && Lower(n) == n
  {
    LowerKept(n);
  }

  lemma LowerKept(s: string)
    requires forall i | 0 <= i < |s| :: !IsUpper(s[i])
    ensures Lower(s) == s
  {
  }

  /** Three numbers are a version. */
  lemma ThreeNumbers(a: string, b: string, c: string)
    requires a != "" && b != "" && c != "" && AllDigits(a) && AllDigits(b) && AllDigits(c)
    ensures ValidVersion(a + ("." + (b + ("." + c))))
  {
    NumberAndDot(a, b + ("." + c));
    NumberAndDot(b, c);
    SkipAllDigits(c, "");
    assert c + "" == c;
  }

  lemma OneVersion(v: string)
    requires v == "1.0.0"
    ensures ValidVersion(v)
  {
    assert |v| == 5 && IsDigit(v[0]) && v[1] == '.' && IsDigit(v[2]) && v[3] == '.' && IsDigit(v[4]);
    FiveCharacters(v);
  }

  lemma FiveCharacters(v: string)
    requires |v| == 5 && IsDigit(v[0]) && v[1] == '.' && IsDigit(v[2]) && v[3] == '.' && IsDigit(v[4])
    ensures ValidVersion(v)
  {
    FiveParts(v);
    ThreeNumbers(v[..1], v[2..3], v[4..]);
  }

  lemma FiveParts(v: string)
    requires |v| == 5 && v[1] == '.' && v[3] == '.'
    ensures v == v[..1] + ("." + (v[2..3] + ("." + v[4..])))
  {
  }

  lemma EmptyAgrees(l: Layout, sha: Bytes -> string)
    ensures Agreement(l, sha, map[])
  {
  }

  lemma PutRow(l: Layout, sha: Bytes -> string, files: Files, row: Row, meta: Option<Bytes>, crate: Bytes)
    requires l.Good() && Agreement(l, sha, files) && l.validName(row.name) && l.validVersion(row.version)
    ensures row in RowsAt(l, PutFiles(l, files, row, meta, crate), l.index(row.name))
  {
    var p := l.index(row.name);
    ViewRows(l, files, p);
    assert p in View(l, files).index ==> GoodIndex(l, sha, View(l, files), p, RowsAt(l, files, p));
    UpsertedRows(l, RowsAt(l, files, p), row);
    PutView(l, files, row, meta, crate);
    ViewRows(l, PutFiles(l, files, row, meta, crate), p);
  }

  // ---- Runs ----

  datatype Op =
    | PutOp(row: Row, meta: Option<Bytes>, crate: Bytes)
    | YankOp(name: string, version: string, yanked: bool)
    | DeleteOp(name: string, version: string)

  /** What the publishing and yanking routes check before they call the store, and
      that a published row carries its crate's checksum. Deletions are not checked. */
  ghost predicate Admitted(l: Layout, sha: Bytes -> string, op: Op) {
    match op
    case PutOp(row, _, crate) => l.validName(row.name) && l.validVersion(row.version) && row.cksum == sha(crate)
    case YankOp(name, _, _) => l.validName(name)
    case DeleteOp(_, _) => true
  }

  function Apply(l: Layout, files: Files, op: Op): Files {
    match op
    case PutOp(row, meta, crate) => PutFiles(l, files, row, meta, crate)
    case YankOp(name, version, yanked) => YankFiles(l, files, name, version, yanked).0
    case DeleteOp(name, version) => DeleteFiles(l, files, name, version).0
  }

  function Run(l: Layout, files: Files, ops: seq<Op>): Files
    decreases |ops|
  {
    if ops == [] then files else Run(l, Apply(l, files, ops[0]), ops[1..])
  }

  /** The agreement holds before and after every operation of the run. */
  ghost predicate AgreesThroughout(l: Layout, sha: Bytes -> string, files: Files, ops: seq<Op>)
    decreases |ops|
  {
    Agreement(l, sha, files) && (ops == [] || AgreesThroughout(l, sha, Apply(l, files, ops[0]), ops[1..]))
  }

  predicate InOrder(l: Layout, sha: Bytes -> string, files: Files, op: Op) {
    op.DeleteOp? ==> DeleteFiles(l, files, op.name, op.version).1 != Done || Spares(l, sha, files, op.name, op.version)
  }

  /** Every deletion of the run is in order where it is called. */
  predicate AllInOrder(l: Layout, sha: Bytes -> string, files: Files, ops: seq<Op>)
    decreases |ops|
  {
    ops == [] || (InOrder(l, sha, files, ops[0]) && AllInOrder(l, sha, Apply(l, files, ops[0]), ops[1..]))
  }

  lemma StepExact(l: Layout, sha: Bytes -> string, files: Files, op: Op)
    requires l.Good() && OrdersByVersion(l) && Agreement(l, sha, files) && Admitted(l, sha, op)
    ensures Agreement(l, sha, Apply(l, files, op)) <==> InOrder(l, sha, files, op)
  {
    match op {
      case PutOp(row, meta, crate) => PutKeepsAgreement(l, sha, files, row, meta, crate);
      case YankOp(name, version, yanked) => SetYankedKeepsAgreement(l, sha, files, name, version, yanked);
      case DeleteOp(name, version) => DeletionExact(l, sha, files, name, version);
    }
  }

  lemma {:induction false} RunExact(l: Layout, sha: Bytes -> string, files: Files, ops: seq<Op>)
    requires l.Good() && OrdersByVersion(l) && Agreement(l, sha, files)
    requires forall op | op in ops :: Admitted(l, sha, op)
    ensures AgreesThroughout(l, sha, files, ops) <==> AllInOrder(l, sha, files, ops)
    decreases |ops|
  {
    if ops != [] {
      StepExact(l, sha, files, ops[0]);
      assert forall op | op in ops[1..] :: op in ops;
      if InOrder(l, sha, files, ops[0]) {
        RunExact(l, sha, Apply(l, files, ops[0]), ops[1..]);
      }
    }
  }

  lemma CargoOrders(codec: Codec)
    ensures OrdersByVersion(CargoLayout(codec))
  {
  }

  /** For every run from the empty registry: index and crates agree all the way
      exactly when every deletion in it finds nothing or spares the other crates. */
  lemma AgreementOverRuns(codec: Codec, sha: Bytes -> string, ops: seq<Op>)
    requires codec.Good() && forall op | op in ops :: Admitted(CargoLayout(codec), sha, op)
    ensures AgreesThroughout(CargoLayout(codec), sha, map[], ops) <==> AllInOrder(CargoLayout(codec), sha, map[], ops)
  {
    CargoLayoutGood(codec);
    CargoOrders(codec);
    EmptyAgrees(CargoLayout(codec), sha);
    RunExact(CargoLayout(codec), sha, map[], ops);
  }

  predicate PlainDeletion(op: Op) {
    op.DeleteOp? ==> '/' !in op.name && '.' !in op.name
  }

  lemma PlainDeletionInOrder(codec: Codec, sha: Bytes -> string, files: Files, op: Op)
    requires codec.Good() && Agreement(CargoLayout(codec), sha, files) && PlainDeletion(op)
    ensures InOrder(CargoLayout(codec), sha, files, op)
  {
    if op.DeleteOp? && Norm(op.name) != "" {
      CargoLayoutGood(codec);
      PlainNamesTold(codec, op.name);
      ToldNameSpares(CargoLayout(codec), sha, files, op.name, op.version);
    }
  }

  /** In particular when every deletion is by a name without "/" and ".", as valid
      names are. */
  lemma {:induction false} PlainRunsAgree(codec: Codec, sha: Bytes -> string, files: Files, ops: seq<Op>)
    requires codec.Good() && Agreement(CargoLayout(codec), sha, files)
    requires forall op | op in ops :: Admitted(CargoLayout(codec), sha, op) && PlainDeletion(op)
    ensures Agreement(CargoLayout(codec), sha, Run(CargoLayout(codec), files, ops))
    decreases |ops|
  {
    if ops != [] {
      CargoLayoutGood(codec);
      CargoOrders(codec);
      PlainDeletionInOrder(codec, sha, files, ops[0]);
      StepExact(CargoLayout(codec), sha, files, ops[0]);
      assert forall op | op in ops[1..] :: op in ops;
      PlainRunsAgree(codec, sha, Apply(CargoLayout(codec), files, ops[0]), ops[1..]);
    }
  }

  /** Valid names are such names. */
  lemma ValidNamePlainDeletion(name: string, version: string)
    requires ValidName(name)
    ensures PlainDeletion(DeleteOp(name, version))
  {
  }

  /** So a caller that checks the name before deleting, as publishing and yanking
      do, never breaks the agreement. */
  lemma CheckedRunsAgree(codec: Codec, sha: Bytes -> string, ops: seq<Op>)
    requires codec.Good()
    requires forall op | op in ops ::
               Admitted(CargoLayout(codec), sha, op) && (op.DeleteOp? ==> ValidName(op.name))
    ensures Agreement(CargoLayout(codec), sha, Run(CargoLayout(codec), map[], ops))
  {
    EmptyAgrees(CargoLayout(codec), sha);
    forall op | op in ops && op.DeleteOp?
      ensures PlainDeletion(op)
    {
      ValidNamePlainDeletion(op.name, op.version);
    }
    PlainRunsAgree(codec, sha, map[], ops);
  }
}
