/** The three layers of a local APT repository - pool files, one index a
    distribution and component, generated trees - and the two operations that
    change them (internal/registry/apt/apt.go). The proofs here use of paths,
    orders and generated trees only what `Layout.Good` says; AptTree supplies
    the real ones. */
module AptRepo {
  import opened Strings
  import opened Sorting
  import opened Deb822

  /** One published package in one index. */
  datatype Entry = Entry(
    control: Stanza, filename: string, size: nat, md5: string, sha1: string, sha256: string, published: int)

  /** The rows of every distribution and component that has any. */
  type Index = map<(string, string), seq<Entry>>

  datatype State = State(files: map<string, Bytes>, index: Index)

  datatype Layout = Layout(
    leq: (Entry, Entry) -> bool,                                          // the order of an index
    describes: (Entry, Bytes) -> bool,                                    // size and digests are those of the bytes
    isName: string -> bool,                                               // the name of a distribution or a component
    under: (string, string) -> bool,                                      // the path is below dists/{dist}/
    tree: (string, map<string, seq<Entry>>, int) -> map<string, Bytes>)   // what is generated there
  {
    ghost predicate Good() {
      && TotalPreorder(leq)
      && (forall d, e, p | isName(d) && isName(e) && under(d, p) && under(e, p) :: d == e)
      && (forall d, comps, now, p | isName(d) && p in tree(d, comps, now) :: under(d, p))
      && (forall e, body, d | describes(e, body) && isName(d) :: !under(d, e.filename))
      && (forall e: Entry, t, body :: describes(e.(published := t), body) <==> describes(e, body))
    }
  }

  function RowsOf(index: Index, dist: string, comp: string): seq<Entry> {
    if (dist, comp) in index then index[(dist, comp)] else []
  }

  /** The rows of a distribution by component. */
  ghost function CompsOf(index: Index, dist: string): map<string, seq<Entry>> {
    map k | k in index && k.0 == dist :: k.1 := index[k]
  }

  function Filename(e: Entry): string {
    e.filename
  }

  predicate Contains(rows: seq<Entry>, filename: string) {
    exists i | 0 <= i < |rows| :: rows[i].filename == filename
  }

  ghost predicate Referenced(index: Index, filename: string) {
    exists k | k in index :: Contains(index[k], filename)
  }

  // ---- Consistency of the layers ----

  ghost predicate GoodRows(l: Layout, files: map<string, Bytes>, rows: seq<Entry>) {
    && rows != []
    && SortedBy(l.leq, rows)
    && Injective(Filename, rows)
    && forall e | e in rows :: e.filename in files && l.describes(e, files[e.filename])
  }

  ghost predicate InPool(l: Layout, p: string) {
    forall d | l.isName(d) :: !l.under(d, p)
  }

  /** What is below dists/{dist}/. */
  ghost function TreeOf(l: Layout, files: map<string, Bytes>, dist: string): map<string, Bytes> {
    map p | p in files && l.under(dist, p) :: files[p]
  }

  /** The distribution's tree is the one generated from its index, at some time. */
  ghost predicate TreeCurrent(l: Layout, st: State, dist: string) {
    exists t: int :: TreeOf(l, st.files, dist) == l.tree(dist, CompsOf(st.index, dist), t)
  }

  /** The index and the pool agree: every index is sorted, with one row a file
      and size and digests of the file's bytes, and the pool holds exactly the
      files some index lists. */
  ghost predicate PoolAgrees(l: Layout, st: State) {
    && (forall k | k in st.index :: l.isName(k.0) && l.isName(k.1) && GoodRows(l, st.files, st.index[k]))
    && (forall p | InPool(l, p) :: p in st.files <==> Referenced(st.index, p))
  }

  ghost predicate Consistent(l: Layout, st: State) {
    PoolAgrees(l, st) && forall d | l.isName(d) :: TreeCurrent(l, st, d)
  }

  // ---- Regenerating ----

  /** The distribution's tree replaced, everything else as it was. */
  ghost function WithTree(
    l: Layout, files: map<string, Bytes>, dist: string, tree: map<string, Bytes>): map<string, Bytes>
  {
    (map p | p in files && !l.under(dist, p) :: files[p]) + tree
  }

  ghost function Regenerated(l: Layout, st: State, dists: seq<string>, now: int): State {
    if dists == [] then st
    else
      var st' := Regenerated(l, st, dists[..|dists| - 1], now);
      var d := dists[|dists| - 1];
      State(WithTree(l, st'.files, d, l.tree(d, CompsOf(st.index, d), now)), st.index)
  }

  /** Regenerating gives the listed distributions their generated trees and
      leaves every other file alone. */
  lemma {:induction false} RegeneratedExact(l: Layout, st: State, dists: seq<string>, now: int)
    requires l.Good() && forall d | d in dists :: l.isName(d)
    ensures Regenerated(l, st, dists, now).index == st.index
    ensures forall d | d in dists :: TreeOf(l, Regenerated(l, st, dists, now).files, d) ==
                l.tree(d, CompsOf(st.index, d), now)
    ensures forall p | (forall d | d in dists :: !l.under(d, p)) ::
              && (p in Regenerated(l, st, dists, now).files <==> p in st.files)
              && (p in st.files ==> Regenerated(l, st, dists, now).files[p] == st.files[p])
  {
    if dists != [] {
      var front, d := dists[..|dists| - 1], dists[|dists| - 1];
      assert dists == front + [d];
      RegeneratedExact(l, st, front, now);
      RegeneratedStep(l, st, Regenerated(l, st, front, now).files, front, d, now);
    }
  }

  lemma RegeneratedStep(l: Layout, st: State, before: map<string, Bytes>, front: seq<string>, d: string, now: int)
    requires l.Good() && l.isName(d) && forall e | e in front :: l.isName(e)
    requires forall e | e in front :: TreeOf(l, before, e) == l.tree(e, CompsOf(st.index, e), now)
    ensures var after := WithTree(l, before, d, l.tree(d, CompsOf(st.index, d), now));
            && (forall e | e in front + [d] :: TreeOf(l, after, e) == l.tree(e, CompsOf(st.index, e), now))
            && (forall p | !l.under(d, p) :: (p in after <==> p in before) && (p in before ==> after[p] == before[p]))
  {
    var tree := l.tree(d, CompsOf(st.index, d), now);
    WithTreeExact(l, before, d, tree);
    forall e | e in front && e != d {
      OtherTreeKept(l, before, d, tree, e);
    }
  }

  lemma OtherTreeKept(l: Layout, files: map<string, Bytes>, d: string, tree: map<string, Bytes>, e: string)
    requires l.Good() && l.isName(d) && l.isName(e) && d != e && forall p | p in tree :: l.under(d, p)
    ensures TreeOf(l, WithTree(l, files, d, tree), e) == TreeOf(l, files, e)
  {
  }

  lemma WithTreeExact(l: Layout, files: map<string, Bytes>, dist: string, tree: map<string, Bytes>)
    requires forall p | p in tree :: l.under(dist, p)
    ensures TreeOf(l, WithTree(l, files, dist, tree), dist) == tree
    ensures forall p | !l.under(dist, p) ::
              && (p in WithTree(l, files, dist, tree) <==> p in files)
              && (p in files ==> WithTree(l, files, dist, tree)[p] == files[p])
  {
  }

  /** A regeneration of the changed distributions restores consistency. */
  lemma RegenerationRestores(l: Layout, st: State, st': State, dists: set<string>, now: int)
    requires l.Good() && (forall d | d in dists :: l.isName(d))
    requires PoolAgrees(l, st')
    requires forall d | l.isName(d) && d !in dists ::
                CompsOf(st'.index, d) == CompsOf(st.index, d) && TreeCurrent(l, st, d)
    requires forall p | !InPool(l, p) :: (p in st'.files <==> p in st.files) &&
                (p in st.files ==> st'.files[p] == st.files[p])
    ensures Consistent(l, Regenerated(l, st', SortedKeys(dists), now))
  {
    var ds := SortedKeys(dists);
    var r := Regenerated(l, st', ds, now);
    RegeneratedExact(l, st', ds, now);
    RegenerationKeepsPool(l, st', ds, now);
    forall d | l.isName(d)
      ensures TreeCurrent(l, r, d)
    {
      if d in dists {
        assert TreeOf(l, r.files, d) == l.tree(d, CompsOf(r.index, d), now);
      } else {
        forall p | l.under(d, p)
          ensures (p in r.files <==> p in st.files) && (p in st.files ==> r.files[p] == st.files[p])
        {
          assert forall e | e in ds :: !l.under(e, p);
        }
        SameTreeCurrent(l, st, r, d);
      }
    }
  }

  lemma SameTreeCurrent(l: Layout, st: State, r: State, d: string)
    requires TreeCurrent(l, st, d) && CompsOf(r.index, d) == CompsOf(st.index, d)
    requires forall p | l.under(d, p) :: (p in r.files <==> p in st.files) &&
                (p in st.files ==> r.files[p] == st.files[p])
    ensures TreeCurrent(l, r, d)
  {
    var t: int :| TreeOf(l, st.files, d) == l.tree(d, CompsOf(st.index, d), t);
    assert TreeOf(l, r.files, d) == TreeOf(l, st.files, d);
  }

  lemma RegenerationKeepsPool(l: Layout, st: State, dists: seq<string>, now: int)
    requires l.Good() && (forall d | d in dists :: l.isName(d)) && PoolAgrees(l, st)
    ensures PoolAgrees(l, Regenerated(l, st, dists, now))
  {
    var r := Regenerated(l, st, dists, now);
    RegeneratedExact(l, st, dists, now);
    forall k | k in st.index
      ensures GoodRows(l, r.files, st.index[k])
    {
      assert GoodRows(l, st.files, st.index[k]);
      assert forall e | e in st.index[k] :: l.describes(e, st.files[e.filename]);
    }
  }

  // ---- addDeb ----

  function Overwritten(e: Entry, target: bool): Entry -> Entry {
    (earlier: Entry) => if target then e else e.(published := earlier.published)
  }

  /** Rows of the new entry's file are replaced by it; the publishing time
      stays in every index but the target. */
  function ReplaceRows(rows: seq<Entry>, e: Entry, target: bool): (r: seq<Entry>)
    ensures |r| == |rows|
    ensures forall i | 0 <= i < |rows| ::
              r[i] == if rows[i].filename == e.filename then Overwritten(e, target)(rows[i]) else rows[i]
  {
    seq(|rows|, i requires 0 <= i < |rows| =>
      if rows[i].filename == e.filename then Overwritten(e, target)(rows[i]) else rows[i])
  }

  function AddRow(l: Layout, rows: seq<Entry>, e: Entry, target: bool): seq<Entry> {
    if Contains(rows, e.filename) then StableSort(l.leq, ReplaceRows(rows, e, target))
    else if target then StableSort(l.leq, rows + [e])
    else rows
  }

  ghost function AddedIndex(l: Layout, index: Index, dist: string, comp: string, e: Entry): Index {
    map k | k in index.Keys + {(dist, comp)} :: AddRow(l, RowsOf(index, k.0, k.1), e, k == (dist, comp))
  }

  /** The distributions an upload changes. */
  ghost function AddAffected(index: Index, dist: string, filename: string): set<string> {
    {dist} + set k | k in index && Contains(index[k], filename) :: k.0
  }

  ghost function AddState(l: Layout, st: State, dist: string, comp: string, e: Entry, body: Bytes, now: int): State {
    Regenerated(l, State(st.files[e.filename := body], AddedIndex(l, st.index, dist, comp, e)),
                SortedKeys(AddAffected(st.index, dist, e.filename)), now)
  }

  /** The rows of an index after an upload: one row of the new file, with its
      size and digests, where there was one or the upload was meant to go; every
      other row as it was. */
  lemma AddRowExact(l: Layout, rows: seq<Entry>, e: Entry, target: bool)
    requires l.Good() && Injective(Filename, rows) && SortedBy(l.leq, rows)
    ensures var r := AddRow(l, rows, e, target);
            && SortedBy(l.leq, r) && Injective(Filename, r)
            && (forall x: Entry | x.filename != e.filename :: x in r <==> x in rows)
            && (forall x | x in r && x.filename == e.filename :: x == e.(published := x.published))
            && (Contains(r, e.filename) <==> target || Contains(rows, e.filename))
            && (target ==> e in r)
            && (rows != [] || target ==> r != [])
  {
    if Contains(rows, e.filename) {
      ReplaceRowsExact(rows, e, target);
      SavedRows(l, ReplaceRows(rows, e, target), e.filename);
    } else if target {
      assert forall i | 0 <= i < |rows| :: Filename((rows + [e])[i]) != e.filename;
      SavedRows(l, rows + [e], e.filename);
      assert (rows + [e])[|rows|] == e;
    }
  }

  lemma ReplaceRowsExact(rows: seq<Entry>, e: Entry, target: bool)
    requires Injective(Filename, rows)
    ensures var r := ReplaceRows(rows, e, target);
            && Injective(Filename, r)
            && (forall x: Entry | x.filename != e.filename :: x in r <==> x in rows)
            && (forall x | x in r && x.filename == e.filename :: x == e.(published := x.published))
            && (Contains(r, e.filename) <==> Contains(rows, e.filename))
            && (target && Contains(rows, e.filename) ==> e in r)
  {
    var r := ReplaceRows(rows, e, target);
    assert forall i | 0 <= i < |rows| :: Filename(r[i]) == Filename(rows[i]);
    forall x: Entry | x.filename != e.filename
      ensures x in r <==> x in rows
    {
      if x in rows {
        var i :| 0 <= i < |rows| && rows[i] == x;
        assert r[i] == x;
      }
    }
    if target && Contains(rows, e.filename) {
      var i :| 0 <= i < |rows| && rows[i].filename == e.filename;
      assert r[i] == e;
    }
  }

  lemma OneRowAFile(rows: seq<Entry>, i: nat, j: nat)
    requires Injective(Filename, rows) && i < |rows| && j < |rows| && rows[i].filename == rows[j].filename
    ensures i == j
  {
    assert Filename(rows[i]) == Filename(rows[j]);
  }

  /** In an index the upload was not meant for, a replaced row keeps its
      publishing time. */
  lemma AddKeepsTimes(l: Layout, rows: seq<Entry>, e: Entry, x: Entry, y: Entry)
    requires Injective(Filename, rows)
    requires x in AddRow(l, rows, e, false) && y in rows && x.filename == y.filename
    ensures x.published == y.published
  {
    var j :| 0 <= j < |rows| && rows[j] == y;
    if Contains(rows, e.filename) {
      SameElements(StableSort(l.leq, ReplaceRows(rows, e, false)), ReplaceRows(rows, e, false));
      ReplacedTime(rows, e, x, j);
    } else {
      var i :| 0 <= i < |rows| && rows[i] == x;
      OneRowAFile(rows, i, j);
    }
  }

  lemma ReplacedTime(rows: seq<Entry>, e: Entry, x: Entry, j: nat)
    requires Injective(Filename, rows) && x in ReplaceRows(rows, e, false)
    requires j < |rows| && x.filename == rows[j].filename
    ensures x.published == rows[j].published
  {
    var i :| 0 <= i < |rows| && ReplaceRows(rows, e, false)[i] == x;
    assert x.filename == rows[i].filename && x.published == rows[i].published;
    OneRowAFile(rows, i, j);
  }

  lemma SavedRows(l: Layout, rows: seq<Entry>, filename: string)
    requires l.Good() && Injective(Filename, rows)
    ensures var r := StableSort(l.leq, rows);
            && SortedBy(l.leq, r) && Injective(Filename, r)
            && (forall x :: x in r <==> x in rows)
            && (Contains(r, filename) <==> Contains(rows, filename))
  {
    var r := StableSort(l.leq, rows);
    SortSorts(l.leq, rows);
    SameElements(r, rows);
    SortKeepsInjective(l.leq, Filename, rows);
    ContainsMember(r, filename);
    ContainsMember(rows, filename);
  }

  lemma ContainsMember(rows: seq<Entry>, filename: string)
    ensures Contains(rows, filename) <==> exists x | x in rows :: x.filename == filename
  {
  }

  /** After the upload, before regenerating: the pool agrees with the indexes. */
  lemma AddKeepsPool(l: Layout, st: State, dist: string, comp: string, e: Entry, body: Bytes)
    requires l.Good() && PoolAgrees(l, st) && l.isName(dist) && l.isName(comp) && l.describes(e, body)
    ensures PoolAgrees(l, State(st.files[e.filename := body], AddedIndex(l, st.index, dist, comp, e)))
  {
    var index' := AddedIndex(l, st.index, dist, comp, e);
    var files' := st.files[e.filename := body];
    AddKeepsIndexes(l, st, dist, comp, e, body);
    forall p | InPool(l, p)
      ensures p in files' <==> Referenced(index', p)
    {
      AddReferenced(l, st, dist, comp, e, p);
    }
  }

  lemma AddKeepsIndexes(l: Layout, st: State, dist: string, comp: string, e: Entry, body: Bytes)
    requires l.Good() && PoolAgrees(l, st) && l.isName(dist) && l.isName(comp) && l.describes(e, body)
    ensures var index' := AddedIndex(l, st.index, dist, comp, e);
            forall k | k in index' ::
              l.isName(k.0) && l.isName(k.1) && GoodRows(l, st.files[e.filename := body], index'[k])
  {
    var index' := AddedIndex(l, st.index, dist, comp, e);
    forall k | k in index'
      ensures GoodRows(l, st.files[e.filename := body], index'[k])
    {
      AddKeepsRows(l, st, e, body, RowsOf(st.index, k.0, k.1), k == (dist, comp));
    }
  }

  lemma AddKeepsRows(l: Layout, st: State, e: Entry, body: Bytes, rows: seq<Entry>, target: bool)
    requires l.Good() && l.describes(e, body) && (GoodRows(l, st.files, rows) || (rows == [] && target))
    ensures GoodRows(l, st.files[e.filename := body], AddRow(l, rows, e, target))
  {
    AddRowExact(l, rows, e, target);
    var r := AddRow(l, rows, e, target);
    forall x | x in r
      ensures x.filename in st.files[e.filename := body] && l.describes(x, st.files[e.filename := body][x.filename])
    {
      if x.filename == e.filename {
        assert l.describes(e.(published := x.published), body);
      } else {
        assert x in rows;
      }
    }
  }

  lemma AddReferenced(l: Layout, st: State, dist: string, comp: string, e: Entry, p: string)
    requires l.Good() && PoolAgrees(l, st)
    ensures Referenced(AddedIndex(l, st.index, dist, comp, e), p) <==> p == e.filename || Referenced(st.index, p)
  {
    var index' := AddedIndex(l, st.index, dist, comp, e);
    forall k | k in index'
      ensures Contains(index'[k], p) <==>
                Contains(RowsOf(st.index, k.0, k.1), p) || (k == (dist, comp) && p == e.filename)
    {
      var rows := RowsOf(st.index, k.0, k.1);
      assert k in st.index ==> GoodRows(l, st.files, rows);
      AddRowExact(l, rows, e, k == (dist, comp));
      ContainsMember(index'[k], p);
      ContainsMember(rows, p);
    }
    if Referenced(st.index, p) {
      var k :| k in st.index && Contains(st.index[k], p);
      assert k in index' && Contains(index'[k], p);
    }
    if p == e.filename {
      assert Contains(index'[(dist, comp)], p);
    }
  }

  lemma AddUnaffected(l: Layout, index: Index, dist: string, comp: string, e: Entry, d: string)
    requires d !in AddAffected(index, dist, e.filename)
    ensures CompsOf(AddedIndex(l, index, dist, comp, e), d) == CompsOf(index, d)
  {
    var index' := AddedIndex(l, index, dist, comp, e);
    forall k: (string, string) | k.0 == d
      ensures k in index' <==> k in index
      ensures k in index ==> index'[k] == index[k]
    {
      assert k in index && Contains(index[k], e.filename) ==> k.0 in AddAffected(index, dist, e.filename);
    }
  }

  lemma AddOthers(l: Layout, st: State, dist: string, comp: string, e: Entry)
    requires Consistent(l, st)
    ensures forall d | l.isName(d) && d !in AddAffected(st.index, dist, e.filename) ::
              CompsOf(AddedIndex(l, st.index, dist, comp, e), d) == CompsOf(st.index, d) && TreeCurrent(l, st, d)
  {
    forall d | l.isName(d) && d !in AddAffected(st.index, dist, e.filename)
      ensures CompsOf(AddedIndex(l, st.index, dist, comp, e), d) == CompsOf(st.index, d) && TreeCurrent(l, st, d)
    {
      AddUnaffected(l, st.index, dist, comp, e, d);
    }
  }

  lemma AffectedNames(l: Layout, st: State, dist: string, filename: string)
    requires PoolAgrees(l, st) && l.isName(dist)
    ensures forall d | d in AddAffected(st.index, dist, filename) :: l.isName(d)
  {
  }

  /** An upload keeps the three layers consistent: regenerating only the
      affected distributions leaves every tree, affected or not, current. */
  lemma AddKeepsConsistent(l: Layout, st: State, dist: string, comp: string, e: Entry, body: Bytes, now: int)
    requires l.Good() && Consistent(l, st) && l.isName(dist) && l.isName(comp) && l.describes(e, body)
    ensures Consistent(l, AddState(l, st, dist, comp, e, body, now))
  {
    var st' := State(st.files[e.filename := body], AddedIndex(l, st.index, dist, comp, e));
    AddKeepsPool(l, st, dist, comp, e, body);
    AddOthers(l, st, dist, comp, e);
    AffectedNames(l, st, dist, e.filename);
    assert InPool(l, e.filename);
    RegenerationRestores(l, st, st', AddAffected(st.index, dist, e.filename), now);
  }

  /** The pool after an upload: its file holds the body, every other one is as
      it was. */
  lemma AddedPool(l: Layout, st: State, dist: string, comp: string, e: Entry, body: Bytes, now: int, p: string)
    requires l.Good() && PoolAgrees(l, st) && l.isName(dist) && l.describes(e, body) && InPool(l, p)
    ensures var st' := AddState(l, st, dist, comp, e, body, now);
            && (p in st'.files <==> p == e.filename || p in st.files)
            && (p in st'.files ==> st'.files[p] == if p == e.filename then body else st.files[p])
  {
    AffectedNames(l, st, dist, e.filename);
    PoolKept(l, State(st.files[e.filename := body], AddedIndex(l, st.index, dist, comp, e)),
             SortedKeys(AddAffected(st.index, dist, e.filename)), now, p);
  }

  /** Regenerating touches no pool file. */
  lemma PoolKept(l: Layout, st: State, dists: seq<string>, now: int, p: string)
    requires l.Good() && InPool(l, p) && forall d | d in dists :: l.isName(d)
    ensures var st' := Regenerated(l, st, dists, now);
            && st'.index == st.index
            && (p in st'.files <==> p in st.files) && (p in st.files ==> st'.files[p] == st.files[p])
  {
    RegeneratedExact(l, st, dists, now);
    assert forall d | d in dists :: !l.under(d, p);
  }

  // ---- removeWhere ----

  function Unmatched(matching: Entry -> bool): Entry -> bool {
    (e: Entry) => !matching(e)
  }

  /** What the code stores: an index that lost rows is sorted again, or deleted
      when none are left. */
  ghost function RemovedIndex(l: Layout, index: Index, matching: Entry -> bool): Index {
    map k | k in index && Filter(Unmatched(matching), index[k]) != [] ::
      var kept := Filter(Unmatched(matching), index[k]);
      if |kept| != |index[k]| then StableSort(l.leq, kept) else index[k]
  }

  /** A pool file loses its last reference. */
  ghost predicate Orphaned(index: Index, matching: Entry -> bool, p: string) {
    && (exists k, e | k in index && e in index[k] :: matching(e) && e.filename == p)
    && (forall k, e | k in index && e in index[k] && !matching(e) :: e.filename != p)
  }

  ghost function RemoveAffected(index: Index, matching: Entry -> bool): set<string> {
    set k | k in index && |Filter(Unmatched(matching), index[k])| != |index[k]| :: k.0
  }

  ghost function RemainingFiles(st: State, matching: Entry -> bool): map<string, Bytes> {
    map p | p in st.files && !Orphaned(st.index, matching, p) :: st.files[p]
  }

  ghost function RemoveState(l: Layout, st: State, matching: Entry -> bool, now: int): State {
    Regenerated(l, State(RemainingFiles(st, matching), RemovedIndex(l, st.index, matching)),
                SortedKeys(RemoveAffected(st.index, matching)), now)
  }

  /** removeWhere drops exactly the matching rows of every index, and keeps the
      others in order. */
  lemma RemovedRowsExact(l: Layout, st: State, matching: Entry -> bool, d: string, c: string)
    requires PoolAgrees(l, st)
    ensures RowsOf(RemovedIndex(l, st.index, matching), d, c) == Filter(Unmatched(matching), RowsOf(st.index, d, c))
  {
    var k := (d, c);
    if k in st.index {
      var kept := Filter(Unmatched(matching), st.index[k]);
      assert GoodRows(l, st.files, st.index[k]);
      FilterSorted(l.leq, Unmatched(matching), st.index[k]);
      SortOfSorted(l.leq, kept);
      FilterKeepsAll(Unmatched(matching), st.index[k]);
    }
  }

  /** A pool file goes if and only if it lost its last reference across all
      distributions, and no file of a tree is touched. */
  lemma RemovedFilesExact(l: Layout, st: State, matching: Entry -> bool, p: string)
    requires l.Good() && PoolAgrees(l, st) && p in st.files
    ensures p !in RemainingFiles(st, matching) <==> InPool(l, p) && !Referenced(RemovedIndex(l, st.index, matching), p)
  {
    var index' := RemovedIndex(l, st.index, matching);
    forall k: (string, string)
      ensures RowsOf(index', k.0, k.1) == Filter(Unmatched(matching), RowsOf(st.index, k.0, k.1))
    {
      RemovedRowsExact(l, st, matching, k.0, k.1);
    }
    ReferencedAfterRemoval(l, st, matching, p);
    if Orphaned(st.index, matching, p) {
      var k, e :| k in st.index && e in st.index[k] && matching(e) && e.filename == p;
      assert GoodRows(l, st.files, st.index[k]);
      assert l.describes(e, st.files[p]);
      assert InPool(l, p);
    }
    if InPool(l, p) && !Orphaned(st.index, matching, p) {
      assert Referenced(st.index, p);
      var k :| k in st.index && Contains(st.index[k], p);
      var i :| 0 <= i < |st.index[k]| && st.index[k][i].filename == p;
      assert st.index[k][i] in st.index[k];
    }
  }

  lemma ReferencedAfterRemoval(l: Layout, st: State, matching: Entry -> bool, p: string)
    requires PoolAgrees(l, st)
    ensures Referenced(RemovedIndex(l, st.index, matching), p)
       <==> exists k, e | k in st.index && e in st.index[k] :: !matching(e) && e.filename == p
  {
    var index' := RemovedIndex(l, st.index, matching);
    if Referenced(index', p) {
      var k :| k in index' && Contains(index'[k], p);
      RemovedRowsExact(l, st, matching, k.0, k.1);
      var i :| 0 <= i < |index'[k]| && index'[k][i].filename == p;
      assert index'[k][i] in Filter(Unmatched(matching), st.index[k]);
    }
    if k, e :| k in st.index && e in st.index[k] && !matching(e) && e.filename == p {
      RemovedRowsExact(l, st, matching, k.0, k.1);
      var kept := Filter(Unmatched(matching), st.index[k]);
      assert e in kept;
      assert k in index' && index'[k] == kept;
      ContainsMember(kept, p);
    }
  }

  lemma RemoveKeepsPool(l: Layout, st: State, matching: Entry -> bool)
    requires l.Good() && PoolAgrees(l, st)
    ensures PoolAgrees(l, State(RemainingFiles(st, matching), RemovedIndex(l, st.index, matching)))
  {
    var index', files' := RemovedIndex(l, st.index, matching), RemainingFiles(st, matching);
    forall k | k in index'
      ensures GoodRows(l, files', index'[k])
    {
      RemovedRowsExact(l, st, matching, k.0, k.1);
      assert GoodRows(l, st.files, st.index[k]);
      FilterSorted(l.leq, Unmatched(matching), st.index[k]);
      FilterKeepsInjective(Filename, Unmatched(matching), st.index[k]);
      forall e: Entry | e in index'[k]
        ensures e.filename in files'
      {
        assert e in st.index[k] && !matching(e);
      }
    }
    forall p | InPool(l, p)
      ensures p in files' <==> Referenced(index', p)
    {
      if p in st.files {
        RemovedFilesExact(l, st, matching, p);
      } else {
        ReferencedAfterRemoval(l, st, matching, p);
        assert !Referenced(st.index, p);
        forall k | k in st.index {
          ContainsMember(st.index[k], p);
        }
      }
    }
  }

  lemma RemoveUnaffected(l: Layout, st: State, matching: Entry -> bool, d: string)
    requires PoolAgrees(l, st) && d !in RemoveAffected(st.index, matching)
    ensures CompsOf(RemovedIndex(l, st.index, matching), d) == CompsOf(st.index, d)
  {
    var index' := RemovedIndex(l, st.index, matching);
    forall k: (string, string) | k.0 == d
      ensures k in index' <==> k in st.index
      ensures k in st.index ==> index'[k] == st.index[k]
    {
      if k in st.index {
        assert GoodRows(l, st.files, st.index[k]);
        FilterKeepsAll(Unmatched(matching), st.index[k]);
        assert |Filter(Unmatched(matching), st.index[k])| != |st.index[k]| ==>
            k.0 in RemoveAffected(st.index, matching);
      }
    }
  }

  /** A removal keeps the three layers consistent. */
  lemma RemoveKeepsConsistent(l: Layout, st: State, matching: Entry -> bool, now: int)
    requires l.Good() && Consistent(l, st)
    ensures Consistent(l, RemoveState(l, st, matching, now))
  {
    var st' := State(RemainingFiles(st, matching), RemovedIndex(l, st.index, matching));
    RemoveKeepsPool(l, st, matching);
    forall d | l.isName(d) && d !in RemoveAffected(st.index, matching)
      ensures CompsOf(st'.index, d) == CompsOf(st.index, d)
    {
      RemoveUnaffected(l, st, matching, d);
    }
    forall p | !InPool(l, p)
      ensures p in st'.files <==> p in st.files
    {
      if p in st.files {
        RemovedFilesExact(l, st, matching, p);
      }
    }
    RegenerationRestores(l, st, st', RemoveAffected(st.index, matching), now);
  }

  /** The pool after a removal: the files some row is left for, as they were. */
  lemma RemovedPool(l: Layout, st: State, matching: Entry -> bool, now: int, p: string)
    requires l.Good() && PoolAgrees(l, st) && InPool(l, p)
    ensures var st' := RemoveState(l, st, matching, now);
            && (p in st'.files <==> Referenced(st'.index, p))
            && (p in st'.files ==> p in st.files && st'.files[p] == st.files[p])
  {
    RemoveKeepsPool(l, st, matching);
    PoolKept(l, State(RemainingFiles(st, matching), RemovedIndex(l, st.index, matching)),
             SortedKeys(RemoveAffected(st.index, matching)), now, p);
  }

  // ---- Runs ----

  datatype Op =
    | Add(dist: string, comp: string, e: Entry, body: Bytes, now: int)
    | Remove(matching: Entry -> bool, now: int)

  /** The upload's distribution and component are names, and its entry was made for its bytes. */
  ghost predicate Admitted(l: Layout, op: Op) {
    op.Add? ==> l.isName(op.dist) && l.isName(op.comp) && l.describes(op.e, op.body)
  }

  ghost function Apply(l: Layout, st: State, op: Op): State {
    match op
    case Add(dist, comp, e, body, now) => AddState(l, st, dist, comp, e, body, now)
    case Remove(matching, now) => RemoveState(l, st, matching, now)
  }

  ghost function Run(l: Layout, st: State, ops: seq<Op>): State
    decreases |ops|
  {
    if ops == [] then st else Run(l, Apply(l, st, ops[0]), ops[1..])
  }

  /** In every state a run reaches the three layers agree. */
  lemma {:induction false} RunsStayConsistent(l: Layout, st: State, ops: seq<Op>)
    requires l.Good() && Consistent(l, st) && forall i | 0 <= i < |ops| :: Admitted(l, ops[i])
    ensures Consistent(l, Run(l, st, ops))
    decreases |ops|
  {
    if ops != [] {
      StepKeepsConsistent(l, st, ops[0]);
      assert forall i | 0 <= i < |ops[1..]| :: ops[1..][i] == ops[i + 1];
      RunsStayConsistent(l, Apply(l, st, ops[0]), ops[1..]);
    }
  }

  lemma StepKeepsConsistent(l: Layout, st: State, op: Op)
    requires l.Good() && Consistent(l, st) && Admitted(l, op)
    ensures Consistent(l, Apply(l, st, op))
  {
    match op {
      case Add(dist, comp, e, body, now) => AddKeepsConsistent(l, st, dist, comp, e, body, now);
      case Remove(matching, now) => RemoveKeepsConsistent(l, st, matching, now);
    }
  }

  /** Incremental equals full: after any run, regenerating every distribution
      from scratch gives each the tree it has, but for the time of generation. */
  lemma IncrementalIsFullRebuild(l: Layout, st: State, all: seq<string>, now: int, d: string)
    requires l.Good() && Consistent(l, st) && l.isName(d)
    requires (forall x | x in all :: l.isName(x)) && d in all
    ensures TreeOf(l, Regenerated(l, st, all, now).files, d) == l.tree(d, CompsOf(st.index, d), now)
    ensures exists t: int :: TreeOf(l, st.files, d) == l.tree(d, CompsOf(st.index, d), t)
  {
    RegeneratedExact(l, st, all, now);
    assert TreeCurrent(l, st, d);
  }
}
