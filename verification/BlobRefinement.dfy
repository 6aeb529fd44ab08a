/** The local blob store behaves like the memory one, and what that gives for
    uploads, failed commits and pruning. */
module BlobRefinement {
  import opened Strings
  import opened Digests
  import opened BlobModel

  // ---- The relation ----

  /** Same blobs, under the two stores' names for them. */
  ghost predicate SameBlobs(env: Env, l: LocalState, m: MemState) {
    forall d: Digest | d.Canonical() ::
      && (env.path(d) in l.blobs <==> env.key(d) in m.blobs)
      && (env.path(d) in l.blobs ==> l.blobs[env.path(d)] == m.blobs[env.key(d)])
  }

  /** An open session's temporary file holds the buffer, its seek pointer is at
      the end and its byte count is the length. */
  ghost predicate SameSession(l: LocalState, lh: LocalHandle, mh: MemHandle) {
    && lh.id == mh.id && lh.closed == mh.closed
    && (mh.buf.Some? ==> lh.n == |mh.buf.value|)
    && (!mh.closed ==>
          && mh.buf.Some? && lh.fileOpen && lh.id in l.uploads
          && l.uploads[lh.id].data == mh.buf.value
          && lh.pos == |mh.buf.value|)
  }

  ghost predicate Related(env: Env, l: LocalState, m: MemState) {
    && l.Inv()
    && l.table == m.table
    && |l.handles| == |m.handles|
    && (forall h | 0 <= h < |l.handles| :: SameSession(l, l.handles[h], m.handles[h]))
    && SameBlobs(env, l, m)
  }

  /** What the comparison leaves out: a random id that is taken, an unknown
      algorithm, digests ParseDigest does not return, the offset of a cancelled
      session, and a rename that fails although the same content is not there
      already. */
  ghost predicate Comparable(env: Env, l: LocalState, m: MemState, op: Op) {
    match op
    case Start(id, _) => id !in l.uploads
    case Offset(h) => h < |m.handles| && m.handles[h].buf.Some?
    case Commit(h, expected, renameFails) =>
      && Supported(Algorithm(expected))
      && (renameFails && h < |m.handles| && m.handles[h].buf.Some? ==>
            var data := m.handles[h].buf.value;
            var target := env.path(env.DigestOf(Algorithm(expected), data));
            target in l.blobs && l.blobs[target] == data)
    case Get(d) => d.Canonical()
    case Stat(d) => d.Canonical()
    case Delete(d) => d.Canonical()
    case _ => true
  }

  // ---- One step ----

  lemma UpdatedBlob(env: Env, l: LocalState, m: MemState, d: Digest, data: Bytes)
    requires env.Good() && d.Canonical() && SameBlobs(env, l, m)
    ensures SameBlobs(env, l.(blobs := l.blobs[env.path(d) := data]), m.(blobs := m.blobs[env.key(d) := data]))
  {
  }

  lemma RemovedBlob(env: Env, l: LocalState, m: MemState, d: Digest)
    requires env.Good() && d.Canonical() && SameBlobs(env, l, m)
    ensures SameBlobs(env, l.(blobs := l.blobs - {env.path(d)}), m.(blobs := m.blobs - {env.key(d)}))
  {
  }

  /** Closing a session on both sides. */
  lemma ClosedRelated(env: Env, l: LocalState, m: MemState, h: nat, mh: MemHandle)
    requires Related(env, l, m) && h < |l.handles| && !l.handles[h].closed
    requires mh.id == m.handles[h].id && mh.closed && (mh.buf.Some? ==> mh.buf == m.handles[h].buf)
    ensures Related(env, l.Closed(h, l.handles[h].pos), m.(table := m.table - {mh.id}, handles := m.handles[h := mh]))
  {
    ClosingKeepsInv(l, h, l.handles[h].pos);
    var l', m' := l.Closed(h, l.handles[h].pos), m.(table := m.table - {mh.id}, handles := m.handles[h := mh]);
    forall k | 0 <= k < |l.handles|
      ensures SameSession(l', l'.handles[k], m'.handles[k])
    {
      assert SameSession(l, l.handles[k], m.handles[k]);
    }
  }

  lemma WriteRelated(env: Env, l: LocalState, m: MemState, h: nat, p: Bytes, now: int)
    requires Related(env, l, m) && h < |l.handles|
    ensures LocalStep(env, l, Write(h, p, now)).1 == MemStep(env, m, Write(h, p, now)).1
    ensures Related(env, LocalStep(env, l, Write(h, p, now)).0, MemStep(env, m, Write(h, p, now)).0)
  {
    assert SameSession(l, l.handles[h], m.handles[h]);
    if !l.handles[h].closed {
      var data := m.handles[h].buf.value;
      assert WriteAt(data, |data|, p) == data + p;
      StepKeepsInv(env, l, Write(h, p, now));
      var l', m' := LocalStep(env, l, Write(h, p, now)).0, MemStep(env, m, Write(h, p, now)).0;
      forall k | 0 <= k < |l.handles|
        ensures SameSession(l', l'.handles[k], m'.handles[k])
      {
        assert SameSession(l, l.handles[k], m.handles[k]);
      }
    }
  }

  lemma StartRelated(env: Env, l: LocalState, m: MemState, id: string, now: int)
    requires Related(env, l, m) && id !in l.uploads
    ensures LocalStep(env, l, Start(id, now)).1 == MemStep(env, m, Start(id, now)).1
    ensures Related(env, LocalStep(env, l, Start(id, now)).0, MemStep(env, m, Start(id, now)).0)
  {
    StepKeepsInv(env, l, Start(id, now));
    var l', m' := LocalStep(env, l, Start(id, now)).0, MemStep(env, m, Start(id, now)).0;
    forall k | 0 <= k < |l.handles|
      ensures SameSession(l', l'.handles[k], m'.handles[k])
    {
      assert SameSession(l, l.handles[k], m.handles[k]);
    }
  }

  lemma CommitRelated(env: Env, l: LocalState, m: MemState, h: nat, expected: Digest, renameFails: bool)
    requires env.Good() && Related(env, l, m) && h < |l.handles|
    requires Comparable(env, l, m, Commit(h, expected, renameFails))
    ensures LocalCommit(env, l, h, expected, renameFails).1 == MemStep(env, m, Commit(h, expected, renameFails)).1
    ensures Related(env, LocalCommit(env, l, h, expected, renameFails).0,
                MemStep(env, m, Commit(h, expected, renameFails)).0)
  {
    assert SameSession(l, l.handles[h], m.handles[h]);
    if !l.handles[h].closed {
      var mh := m.handles[h];
      var data := mh.buf.value;
      var got := env.DigestOf(Algorithm(expected), data);
      if Refuses(expected, got) {
        assert l.WithHandle(h, l.handles[h]) == l && m.(handles := m.handles[h := mh]) == m;
      } else {
        ClosedRelated(env, l, m, h, mh.(closed := true));
        UpdatedBlob(env, l.Closed(h, |data|),
            m.(table := m.table - {mh.id}, handles := m.handles[h := mh.(closed := true)]), got, data);
        assert renameFails ==> l.blobs[env.path(got) := data] == l.blobs;
      }
    }
  }

  lemma CancelRelated(env: Env, l: LocalState, m: MemState, h: nat)
    requires Related(env, l, m) && h < |l.handles|
    ensures Related(env, LocalStep(env, l, Cancel(h)).0, MemStep(env, m, Cancel(h)).0)
  {
    assert SameSession(l, l.handles[h], m.handles[h]);
    if !l.handles[h].closed {
      ClosedRelated(env, l, m, h, m.handles[h].(buf := None, closed := true));
    }
  }

  /** Pruning is invisible to the sessions and the blobs. */
  lemma PruneRelated(env: Env, l: LocalState, m: MemState, threshold: int)
    requires Related(env, l, m)
    ensures Related(env, l.(uploads := l.uploads - l.Garbage(threshold)), m)
  {
    var l' := l.(uploads := l.uploads - l.Garbage(threshold));
    forall h | 0 <= h < |l.handles|
      ensures SameSession(l', l'.handles[h], m.handles[h])
    {
      assert SameSession(l, l.handles[h], m.handles[h]);
    }
  }

  /** Every operation gives the same answer on both stores and keeps them
      related; a pruning pass the memory store does not even notice. */
  lemma StepRelated(env: Env, l: LocalState, m: MemState, op: Op)
    requires env.Good() && Related(env, l, m) && op.OnHandle(|l.handles|) && Comparable(env, l, m, op)
    ensures !op.Prune? ==> LocalStep(env, l, op).1 == MemStep(env, m, op).1
    ensures Related(env, LocalStep(env, l, op).0, MemStep(env, m, op).0)
  {
    match op {
      case Start(id, now) => StartRelated(env, l, m, id, now);
      case Write(h, p, now) => WriteRelated(env, l, m, h, p, now);
      case Offset(h) => assert SameSession(l, l.handles[h], m.handles[h]);
      case Commit(h, expected, renameFails) => CommitRelated(env, l, m, h, expected, renameFails);
      case Cancel(h) =>
        assert SameSession(l, l.handles[h], m.handles[h]);
        CancelRelated(env, l, m, h);
      case Delete(d) => RemovedBlob(env, l, m, d);
      case Prune(threshold, dryRun) => PruneRelated(env, l, m, threshold);
      case Resume(id) =>
        assert id in l.table ==> SameSession(l, l.handles[l.table[id]], m.handles[l.table[id]]);
      case _ =>
    }
  }

  // ---- Runs ----

  ghost function LocalAfter(env: Env, s: LocalState, ops: seq<Op>): (s': LocalState)
    requires LocalRunnable(env, s, ops)
    decreases |ops|
  {
    if ops == [] then s else LocalAfter(env, LocalStep(env, s, ops[0]).0, ops[1..])
  }

  /** Every operation of the run is called on a session that exists. */
  ghost predicate LocalRunnable(env: Env, s: LocalState, ops: seq<Op>)
    decreases |ops|
  {
    ops == [] || (ops[0].OnHandle(|s.handles|) && LocalRunnable(env, LocalStep(env, s, ops[0]).0, ops[1..]))
  }

  /** The run on both stores at once, every operation comparable where it is
      called. */
  ghost predicate BothRunnable(env: Env, l: LocalState, m: MemState, ops: seq<Op>)
    decreases |ops|
  {
    ops == [] ||
    (&& ops[0].OnHandle(|l.handles|) && ops[0].OnHandle(|m.handles|)
     && Comparable(env, l, m, ops[0])
     && BothRunnable(env, LocalStep(env, l, ops[0]).0, MemStep(env, m, ops[0]).0, ops[1..]))
  }

  ghost predicate SameAnswers(env: Env, l: LocalState, m: MemState, ops: seq<Op>)
    requires BothRunnable(env, l, m, ops)
    decreases |ops|
  {
    ops == [] ||
    (&& (!ops[0].Prune? ==> LocalStep(env, l, ops[0]).1 == MemStep(env, m, ops[0]).1)
     && SameAnswers(env, LocalStep(env, l, ops[0]).0, MemStep(env, m, ops[0]).0, ops[1..]))
  }

  ghost function BothAfter(env: Env, l: LocalState, m: MemState, ops: seq<Op>): (LocalState, MemState)
    requires BothRunnable(env, l, m, ops)
    decreases |ops|
  {
    if ops == [] then (l, m)
    else BothAfter(env, LocalStep(env, l, ops[0]).0, MemStep(env, m, ops[0]).0, ops[1..])
  }

  /** The local store refines the memory store: on every run from the empty
      stores both give the same answers, and end with the same blobs and open
      sessions - in both tables exactly the open ones. */
  lemma LocalRefinesMemory(env: Env, ops: seq<Op>)
    requires env.Good() && BothRunnable(env, LOCAL_EMPTY, MEM_EMPTY, ops)
    ensures SameAnswers(env, LOCAL_EMPTY, MEM_EMPTY, ops)
    ensures var (l, m) := BothAfter(env, LOCAL_EMPTY, MEM_EMPTY, ops); Related(env, l, m) && l.Inv() && m.Inv()
  {
    RefinesFrom(env, LOCAL_EMPTY, MEM_EMPTY, ops);
    var (l, m) := BothAfter(env, LOCAL_EMPTY, MEM_EMPTY, ops);
    RelatedTables(env, l, m);
  }

  lemma RelatedTables(env: Env, l: LocalState, m: MemState)
    requires Related(env, l, m)
    ensures m.Inv()
  {
    forall h | 0 <= h < |m.handles|
      ensures m.handles[h].id == l.handles[h].id && m.handles[h].closed == l.handles[h].closed
      ensures !m.handles[h].closed ==> m.handles[h].buf.Some?
    {
      assert SameSession(l, l.handles[h], m.handles[h]);
    }
  }

  ghost predicate MemRunnable(env: Env, s: MemState, ops: seq<Op>)
    decreases |ops|
  {
    ops == [] ||
    (ops[0].OnHandle(|s.handles|) && s.FreshId(ops[0]) && MemRunnable(env, MemStep(env, s, ops[0]).0, ops[1..]))
  }

  ghost function MemAfter(env: Env, s: MemState, ops: seq<Op>): MemState
    requires MemRunnable(env, s, ops)
    decreases |ops|
  {
    if ops == [] then s else MemAfter(env, MemStep(env, s, ops[0]).0, ops[1..])
  }

  /** The memory store's table on its own, over all its runs, unknown algorithms
      included. */
  lemma {:induction false} MemTableOverRuns(env: Env, s: MemState, ops: seq<Op>)
    requires s.Inv() && MemRunnable(env, s, ops)
    ensures MemAfter(env, s, ops).Inv()
    decreases |ops|
  {
    if ops != [] {
      MemStepKeepsInv(env, s, ops[0]);
      MemTableOverRuns(env, MemStep(env, s, ops[0]).0, ops[1..]);
    }
  }

  lemma {:induction false} RefinesFrom(env: Env, l: LocalState, m: MemState, ops: seq<Op>)
    requires env.Good() && Related(env, l, m) && BothRunnable(env, l, m, ops)
    ensures SameAnswers(env, l, m, ops)
    ensures var (l', m') := BothAfter(env, l, m, ops); Related(env, l', m')
    decreases |ops|
  {
    if ops != [] {
      StepRelated(env, l, m, ops[0]);
      RefinesFrom(env, LocalStep(env, l, ops[0]).0, MemStep(env, m, ops[0]).0, ops[1..]);
    }
  }

  /** Over all runs of the local store, faults and unknown algorithms included:
      every blob file hashes to its own key, and the session table holds exactly
      the open sessions. */
  lemma {:induction false} ContentAddressedOverRuns(env: Env, s: LocalState, ops: seq<Op>)
    requires env.Good() && s.Inv() && ContentAddressed(env, s) && LocalRunnable(env, s, ops)
    ensures LocalAfter(env, s, ops).Inv() && ContentAddressed(env, LocalAfter(env, s, ops))
    decreases |ops|
  {
    if ops != [] {
      StepKeepsInv(env, s, ops[0]);
      StepKeepsContentAddressed(env, s, ops[0]);
      ContentAddressedOverRuns(env, LocalStep(env, s, ops[0]).0, ops[1..]);
    }
  }

  // ---- Uploads keep their content ----

  /** What a run writes to a session, in order. */
  function Written(ops: seq<Op>, h: nat): Bytes {
    if ops == [] then []
    else (if ops[0].Write? && ops[0].h == h then ops[0].p else []) + Written(ops[1..], h)
  }

  /** The session is never closed on the way: no cancel, and every commit of it
      is refused. */
  ghost predicate StaysOpen(env: Env, l: LocalState, ops: seq<Op>, h: nat)
    requires LocalRunnable(env, l, ops)
    decreases |ops|
  {
    ops == [] ||
    (&& !(ops[0].Cancel? && ops[0].h == h)
     && (ops[0].Commit? && ops[0].h == h ==>
           Supported(Algorithm(ops[0].expected)) && LocalStep(env, l, ops[0]).1.DigestMismatch?)
     && StaysOpen(env, LocalStep(env, l, ops[0]).0, ops[1..], h))
  }

  /** The session is open, its file holds `data`, and the next write goes to the
      end of it. */
  ghost predicate Holds(s: LocalState, h: nat, data: Bytes) {
    && s.Inv() && h < |s.handles|
    && var hd := s.handles[h];
       && !hd.closed && hd.fileOpen && s.uploads[hd.id].data == data && hd.pos == hd.n == |data|
  }

  lemma StepHolds(env: Env, s: LocalState, op: Op, h: nat, data: Bytes)
    requires Holds(s, h, data) && op.OnHandle(|s.handles|)
    requires !(op.Cancel? && op.h == h)
    requires op.Commit? && op.h == h ==> Supported(Algorithm(op.expected)) && LocalStep(env, s, op).1.DigestMismatch?
    ensures Holds(LocalStep(env, s, op).0, h, data + if op.Write? && op.h == h then op.p else [])
  {
    StepKeepsInv(env, s, op);
    var hd := s.handles[h];
    assert data + [] == data;
    if op.Write? && op.h == h {
      assert WriteAt(data, |data|, op.p) == data + op.p;
    }
  }

  /** After any number of writes, digest mismatches and operations on other
      sessions, the temporary file is the concatenation of what was written, and
      the seek pointer and the byte count are at its end. */
  lemma {:induction false} UploadHoldsWrites(env: Env, s: LocalState, ops: seq<Op>, h: nat, data: Bytes)
    requires Holds(s, h, data) && LocalRunnable(env, s, ops) && StaysOpen(env, s, ops, h)
    ensures Holds(LocalAfter(env, s, ops), h, data + Written(ops, h))
    decreases |ops|
  {
    if ops == [] {
      assert data + [] == data;
    } else {
      var p := if ops[0].Write? && ops[0].h == h then ops[0].p else [];
      StepHolds(env, s, ops[0], h, data);
      UploadHoldsWrites(env, LocalStep(env, s, ops[0]).0, ops[1..], h, data + p);
      assert data + (p + Written(ops[1..], h)) == (data + p) + Written(ops[1..], h);
    }
  }

  lemma StartHolds(env: Env, s: LocalState, id: string, now: int)
    requires s.Inv() && id !in s.uploads
    ensures Holds(LocalStep(env, s, Start(id, now)).0, |s.handles|, [])
    ensures LocalStep(env, s, Start(id, now)).1 == Session(|s.handles|)
    ensures LocalStep(env, s, Start(id, now)).0.uploads == s.uploads[id := Tmp([], now)]
  {
    StepKeepsInv(env, s, Start(id, now));
  }

  /** A commit of some bytes is accepted: nothing is expected of them, or a hash
      that is theirs but for letter case. An expected hash without an algorithm
      is never theirs. */
  ghost predicate Accepted(env: Env, expected: Digest, data: Bytes) {
    || expected == Digest("", "")
    || (expected.alg != "" && Lower(expected.hex) == Lower(env.hash(expected.alg, data)))
  }

  /** The digest a commit computes. */
  ghost predicate Hashed(env: Env, expected: Digest, data: Bytes, d: Digest) {
    d.hex == env.hash(d.alg, data) && d.alg == if expected.alg == "" then "sha256" else expected.alg
  }

  lemma RefusesExact(env: Env, expected: Digest, data: Bytes, d: Digest)
    requires Hashed(env, expected, data, d)
    ensures Refuses(expected, d) <==> !Accepted(env, expected, data)
    ensures d == env.DigestOf(Algorithm(expected), data)
  {
  }

  /** Of a digest as ParseDigest returns it, a commit is accepted exactly when it
      is the digest of the bytes. */
  lemma CanonicalAccepted(env: Env, expected: Digest, data: Bytes)
    requires env.Good() && expected.Canonical()
    ensures Accepted(env, expected, data) <==> expected.hex == env.hash(expected.alg, data)
  {
    assert env.DigestOf(expected.alg, data).Canonical();
    CanonicalIsLower(expected);
    CanonicalIsLower(env.DigestOf(expected.alg, data));
  }

  lemma CanonicalIsLower(d: Digest)
    requires d.Canonical()
    ensures Lower(d.hex) == d.hex
  {
  }

  /** A commit succeeds exactly when it is accepted, and then publishes just what
      the session holds, under its digest, and closes the session. Refused, it
      leaves session and blobs as they are. */
  lemma CommitPublishes(env: Env, s: LocalState, h: nat, data: Bytes, expected: Digest, d: Digest)
    requires Holds(s, h, data) && Supported(d.alg) && Hashed(env, expected, data, d)
    ensures var (s', r) := LocalCommit(env, s, h, expected, false);
            && r == (if Accepted(env, expected, data) then Committed(d) else DigestMismatch(d))
            && (r == Committed(d) ==>
                  && s'.blobs == s.blobs[env.path(d) := data]
                  && LocalStep(env, s', Get(d)).1 == Content(data)
                  && s'.handles[h].closed && s.handles[h].id !in s'.table && s.handles[h].id !in s'.uploads)
            && (r != Committed(d) ==> s' == s)
  {
    RefusesExact(env, expected, data, d);
    assert s.handles[h].(pos := |data|) == s.handles[h];
    assert s.WithHandle(h, s.handles[h]) == s;
  }

  /** A rename that fails publishes nothing. If the blob is there already the
      commit succeeds all the same; else the session stays, its file closed, and
      takes no more writes. */
  lemma RenameFails(env: Env, s: LocalState, h: nat, data: Bytes, expected: Digest, d: Digest, p: Bytes, now: int)
    requires Holds(s, h, data) && Supported(d.alg) && Hashed(env, expected, data, d) && Accepted(env, expected, data)
    ensures var (s', r) := LocalCommit(env, s, h, expected, true);
            && s'.blobs == s.blobs
            && r == (if env.path(d) in s.blobs then Committed(d) else IoError)
            && (s'.handles[h].closed <==> r == Committed(d))
            && (r == IoError ==>
                  && s'.table == s.table && s'.uploads == s.uploads
                  && LocalStep(env, s', Write(h, p, now)) == (s', IoError))
  {
    RefusesExact(env, expected, data, d);
  }

  /** An upload under an id that is taken is refused, and changes nothing. */
  lemma StartRefused(env: Env, s: LocalState, id: string, now: int)
    requires id in s.uploads
    ensures LocalStep(env, s, Start(id, now)) == (s, IoError)
  {
  }

  /** The memory store takes an unknown algorithm without harm. */
  lemma MemUnknownAlgorithm(env: Env, s: MemState, h: nat, data: Bytes, expected: Digest)
    requires MemHolds(s, h, data) && expected.alg != "" && !Supported(expected.alg)
    ensures MemStep(env, s, Commit(h, expected, false)) == (s, UnsupportedAlgorithm)
  {
  }

  /** The session of the memory store is open and holds `data`. */
  ghost predicate MemHolds(s: MemState, h: nat, data: Bytes) {
    h < |s.handles| && !s.handles[h].closed && s.handles[h].buf == Some(data)
  }

  /** So it is in the memory store. */
  lemma MemCommitPublishes(env: Env, s: MemState, h: nat, data: Bytes, expected: Digest, d: Digest)
    requires MemHolds(s, h, data) && Supported(d.alg) && Hashed(env, expected, data, d)
    ensures var (s', r) := MemStep(env, s, Commit(h, expected, false));
            && r == (if Accepted(env, expected, data) then Committed(d) else DigestMismatch(d))
            && (r == Committed(d) ==>
                  && s'.blobs == s.blobs[env.key(d) := data]
                  && MemStep(env, s', Get(d)).1 == Content(data)
                  && s'.handles[h].closed && s.handles[h].id !in s'.table)
            && (r != Committed(d) ==> s' == s)
  {
    RefusesExact(env, expected, data, d);
  }

  /** A write appends, and the offset is the length of what was written. */
  lemma MemWrites(env: Env, s: MemState, h: nat, data: Bytes, p: Bytes, now: int)
    requires MemHolds(s, h, data)
    ensures MemHolds(MemStep(env, s, Write(h, p, now)).0, h, data + p)
    ensures MemStep(env, s, Write(h, p, now)).1 == Wrote(|p|)
    ensures MemStep(env, s, Offset(h)) == (s, AtOffset(|data|))
  {
  }

  lemma LocalOffset(env: Env, s: LocalState, h: nat, data: Bytes, p: Bytes, now: int)
    requires Holds(s, h, data)
    ensures LocalStep(env, s, Write(h, p, now)).1 == Wrote(|p|)
    ensures LocalStep(env, s, Offset(h)) == (s, AtOffset(|data|))
    ensures p != [] ==>
              forall id | id in s.uploads :: LocalStep(env, s, Write(h, p, now)).0.uploads[id].modTime ==
                if id == s.handles[h].id then now else s.uploads[id].modTime
  {
  }

  // ---- Looking up and deleting ----

  /** Stat gives the length of what Get reads; Delete takes just that blob. */
  lemma LocalLookups(env: Env, s: LocalState, d: Digest, e: Digest)
    requires env.Good() && d.Canonical() && e.Canonical()
    ensures var got, (s', r) := LocalStep(env, s, Get(d)).1, LocalStep(env, s, Delete(d));
            && (got.Content? || got == NotFound)
            && LocalStep(env, s, Stat(d)).1 == (if got.Content? then Size(|got.data|) else NotFound)
            && r == (if got.Content? then Ok else NotFound)
            && LocalStep(env, s', Get(e)).1 == (if e == d then NotFound else LocalStep(env, s, Get(e)).1)
            && s' == s.(blobs := s'.blobs)
  {
  }

  lemma MemLookups(env: Env, s: MemState, d: Digest, e: Digest)
    requires env.Good() && d.Canonical() && e.Canonical()
    ensures var got, (s', r) := MemStep(env, s, Get(d)).1, MemStep(env, s, Delete(d));
            && (got.Content? || got == NotFound)
            && MemStep(env, s, Stat(d)).1 == (if got.Content? then Size(|got.data|) else NotFound)
            && r == (if got.Content? then Ok else NotFound)
            && MemStep(env, s', Get(e)).1 == (if e == d then NotFound else MemStep(env, s, Get(e)).1)
            && s' == s.(blobs := s'.blobs)
  {
  }

  /** Resuming finds a session exactly when one with the id is open. */
  lemma LocalResumes(env: Env, s: LocalState, id: string, h: nat)
    requires s.Inv()
    ensures LocalStep(env, s, Resume(id)) == (s, Session(h)) <==>
              h < |s.handles| && s.handles[h].id == id && !s.handles[h].closed
    ensures (forall i | 0 <= i < |s.handles| :: s.handles[i].id == id ==> s.handles[i].closed) ==>
              LocalStep(env, s, Resume(id)) == (s, SessionNotFound)
  {
  }

  lemma MemResumes(env: Env, s: MemState, id: string, h: nat)
    requires s.Inv()
    ensures MemStep(env, s, Resume(id)) == (s, Session(h)) <==>
              h < |s.handles| && s.handles[h].id == id && !s.handles[h].closed
    ensures (forall i | 0 <= i < |s.handles| :: s.handles[i].id == id ==> s.handles[i].closed) ==>
              MemStep(env, s, Resume(id)) == (s, SessionNotFound)
  {
  }

  /** Cancelling publishes nothing and closes the session for good: its file is
      gone, it cannot be resumed, and it takes no write and no commit. */
  lemma LocalCancels(env: Env, s: LocalState, h: nat, data: Bytes, p: Bytes, now: int, expected: Digest)
    requires Holds(s, h, data)
    ensures var (s', r) := LocalStep(env, s, Cancel(h));
            && r == Ok && s'.blobs == s.blobs
            && s.handles[h].id !in s'.uploads
            && LocalStep(env, s', Resume(s.handles[h].id)).1 == SessionNotFound
            && LocalStep(env, s', Write(h, p, now)) == (s', SessionClosed)
            && LocalStep(env, s', Commit(h, expected, false)) == (s', SessionClosed)
            && LocalStep(env, s', Cancel(h)) == (s', Ok)
  {
  }

  lemma MemCancels(env: Env, s: MemState, h: nat, data: Bytes, p: Bytes, now: int, expected: Digest)
    requires MemHolds(s, h, data)
    ensures var (s', r) := MemStep(env, s, Cancel(h));
            && r == Ok && s'.blobs == s.blobs
            && MemStep(env, s', Resume(s.handles[h].id)).1 == SessionNotFound
            && MemStep(env, s', Write(h, p, now)) == (s', SessionClosed)
            && MemStep(env, s', Commit(h, expected, false)) == (s', SessionClosed)
            && MemStep(env, s', Cancel(h)) == (s', Ok)
  {
  }

  /** From the start of an upload to its commit: however often commits were
      refused in between, what is published is the concatenation of all writes. */
  lemma UploadRoundTrip(env: Env, s: LocalState, id: string, now: int, ops: seq<Op>, expected: Digest)
    requires s.Inv() && id !in s.uploads && Supported(Algorithm(expected))
    requires var s1 := LocalStep(env, s, Start(id, now)).0;
             LocalRunnable(env, s1, ops) && StaysOpen(env, s1, ops, |s.handles|)
    ensures var s2 := LocalAfter(env, LocalStep(env, s, Start(id, now)).0, ops);
            && |s.handles| < |s2.handles|
            && var (s3, r) := LocalCommit(env, s2, |s.handles|, expected, false);
               && (r.Committed? <==> Accepted(env, expected, Written(ops, |s.handles|)))
               && (r.Committed? ==>
                     && Hashed(env, expected, Written(ops, |s.handles|), r.d)
                     && LocalStep(env, s3, Get(r.d)).1 == Content(Written(ops, |s.handles|)))
  {
    var h, s1 := |s.handles|, LocalStep(env, s, Start(id, now)).0;
    StartHolds(env, s, id, now);
    UploadHoldsWrites(env, s1, ops, h, []);
    assert [] + Written(ops, h) == Written(ops, h);
    var d := env.DigestOf(Algorithm(expected), Written(ops, h));
    CommitPublishes(env, LocalAfter(env, s1, ops), h, Written(ops, h), expected, d);
  }

  /** A partial upload is never readable: a blob only appears, or changes, by
      the commit of a session whose whole file it then is, and that session is
      closed by it. */
  lemma OnlyCommitsPublish(env: Env, s: LocalState, op: Op, p: string)
    requires op.OnHandle(|s.handles|)
    ensures var s' := LocalStep(env, s, op).0;
            p in s'.blobs && !(p in s.blobs && s.blobs[p] == s'.blobs[p]) ==>
              && op.Commit? && !s.handles[op.h].closed && s'.handles[op.h].closed
              && s.handles[op.h].id in s.uploads && s.handles[op.h].id !in s'.uploads
              && s'.blobs[p] == s.uploads[s.handles[op.h].id].data
              && p == env.path(env.DigestOf(Algorithm(op.expected), s'.blobs[p]))
  {
  }

  /** An unknown algorithm returns before the seek pointer is restored. What the
      session holds survives exactly when nothing had been written. */
  lemma UnknownAlgorithmExact(env: Env, s: LocalState, h: nat, data: Bytes, expected: Digest, renameFails: bool)
    requires Holds(s, h, data) && !Supported(Algorithm(expected))
    ensures LocalCommit(env, s, h, expected, renameFails).1 == UnsupportedAlgorithm
    ensures Holds(LocalCommit(env, s, h, expected, renameFails).0, h, data) <==> data == []
  {
    HandleUpdateKeepsInv(s, h, s.handles[h].(pos := 0), s.uploads);
  }

  /** The next write then goes over the front of the file, while the byte count
      says it was appended: the two stores' contents part. */
  lemma WriteAfterUnknownAlgorithm(env: Env, s: LocalState, h: nat, data: Bytes, expected: Digest, p: Bytes, now: int)
    requires Holds(s, h, data) && !Supported(Algorithm(expected)) && data != [] && p != []
    ensures var s1 := LocalCommit(env, s, h, expected, false).0;
            var s2 := LocalStep(env, s1, Write(h, p, now)).0;
            && s2.handles[h].n == |data| + |p|
            && s2.uploads[s2.handles[h].id].data == p + (if |p| <= |data| then data[|p|..] else [])
            && s2.uploads[s2.handles[h].id].data != data + p
  {
    var s1 := LocalCommit(env, s, h, expected, false).0;
    var s2 := LocalStep(env, s1, Write(h, p, now)).0;
    assert s2.uploads[s2.handles[h].id].data == WriteAt(data, 0, p);
    assert |WriteAt(data, 0, p)| < |data + p|;
    assert WriteAt(data, 0, p) == p + (if |p| <= |data| then data[|p|..] else []);
  }

  // ---- Pruning ----

  lemma {:induction false} TotalSizeSplits(files: map<string, Tmp>, part: set<string>)
    requires part <= files.Keys
    ensures TotalSize(files) == TotalSize(files - part) + TotalSize(Part(files, part))
    decreases |part|
  {
    if part == {} {
      assert files - part == files && Part(files, part) == map[];
    } else {
      var x :| x in part;
      TotalSizeSplits(files, part - {x});
      TotalSizeRemove(files - (part - {x}), x);
      TotalSizeAdd(files, part - {x}, x);
      assert files - (part - {x}) - {x} == files - part;
      assert part - {x} + {x} == part;
    }
  }

  lemma CountSplits(files: map<string, Tmp>, part: set<string>)
    requires part <= files.Keys
    ensures |files| == |files - part| + |part|
  {
    assert |files.Keys| == |files| && |(files - part).Keys| == |files - part|;
    assert (files - part).Keys == files.Keys - part;
  }

  /** A session with the id is open. */
  ghost predicate Live(s: LocalState, id: string) {
    exists h | 0 <= h < |s.handles| :: s.handles[h].id == id && !s.handles[h].closed
  }

  /** A pruning pass takes exactly the files of no open session that have not
      changed since the threshold, and counts them. */
  lemma PruneTakes(env: Env, s: LocalState, threshold: int, id: string)
    requires s.Inv()
    ensures var (s', r) := LocalStep(env, s, Prune(threshold, false));
            && (id in s'.uploads <==> id in s.uploads && (s.uploads[id].modTime > threshold || Live(s, id)))
            && (id in s'.uploads ==> s'.uploads[id] == s.uploads[id])
            && |s.uploads| == |s'.uploads| + r.count
  {
    LiveListed(s, id);
    CountSplits(s.uploads, s.Garbage(threshold));
  }

  lemma LiveListed(s: LocalState, id: string)
    requires s.Inv()
    ensures Live(s, id) <==> id in s.table
  {
    if id in s.table {
      assert s.handles[s.table[id]].id == id;
    }
  }

  /** A pruning pass reports what the dry run does, frees exactly the bytes it
      reports, touches no blob and no live session's file, and leaves nothing
      for a second pass. */
  lemma PruneExact(env: Env, s: LocalState, threshold: int)
    requires s.Inv()
    ensures var (s', r) := LocalStep(env, s, Prune(threshold, false));
            && LocalStep(env, s, Prune(threshold, true)) == (s, r)
            && s'.blobs == s.blobs && s'.table == s.table && s'.handles == s.handles
            && (forall h | 0 <= h < |s.handles| && !s.handles[h].closed ::
                  s.handles[h].id in s'.uploads && s'.uploads[s.handles[h].id] == s.uploads[s.handles[h].id])
            && TotalSize(s.uploads) == TotalSize(s'.uploads) + r.bytes
            && LocalStep(env, s', Prune(threshold, false)).1 == Pruned(0, 0)
  {
    var garbage := s.Garbage(threshold);
    TotalSizeSplits(s.uploads, garbage);
    var s' := LocalStep(env, s, Prune(threshold, false)).0;
    assert s'.Garbage(threshold) == {};
    assert Part(s'.uploads, {}) == map[];
  }
}
