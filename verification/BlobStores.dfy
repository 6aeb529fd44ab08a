/** The blob stores and their upload sessions as the objects they are, each
    method proved against the step of the state machine it performs
    (internal/registry/blobstore/localblob.go and memblob.go). */
module BlobStores {
  import opened Strings
  import opened Digests
  import opened BlobModel

  function KeyOf(d: Digest): string {
    d.String()
  }

  /** The source's names for blobs, over any hash. */
  function BlobEnv(hash: (string, Bytes) -> string): Env {
    Env(hash, BlobPath, KeyOf)
  }

  lemma BlobEnvGood(hash: (string, Bytes) -> string)
    requires forall alg, data | Supported(alg) :: Digest(alg, hash(alg, data)).Canonical()
    ensures BlobEnv(hash).Good()
  {
    var env := BlobEnv(hash);
    forall alg, data | Supported(alg)
      ensures env.DigestOf(alg, data).Canonical()
    {
      assert Digest(alg, hash(alg, data)).Canonical();
    }
    forall d: Digest, e: Digest | d.Canonical() && e.Canonical()
      ensures env.path(d) == env.path(e) ==> d == e
      ensures env.key(d) == env.key(e) ==> d == e
    {
      if env.path(d) == env.path(e) {
        BlobPathInjective(d, e);
      }
      if env.key(d) == env.key(e) {
        StringInjective(d, e);
      }
    }
  }

  /** Updating a session twice is updating it once. */
  lemma UpdatesOverwrite(s: LocalState, h: nat, hd: LocalHandle)
    requires h < |s.handles| && hd.id == s.handles[h].id && hd.n == s.handles[h].n
    ensures s.WithHandle(h, hd).Closed(h, hd.pos) == s.Closed(h, hd.pos)
    ensures s.WithHandle(h, hd).WithHandle(h, hd.(fileOpen := false)) == s.WithHandle(h, hd.(fileOpen := false))
  {
  }

  class LocalBlobStore {
    const env: Env
    var blobs: map<string, Bytes>           // files below blobs/, by path
    var uploads: map<string, Tmp>           // files below _uploads/, by name
    var sessions: map<string, LocalSession>
    ghost var issued: seq<LocalSession>     // every session object handed out

    constructor (hash: (string, Bytes) -> string)
      ensures Valid() && env == BlobEnv(hash) && View() == LOCAL_EMPTY
    {
      env := BlobEnv(hash);
      blobs, uploads, sessions, issued := map[], map[], map[], [];
    }

    ghost predicate Valid()
      reads this, issued
    {
      && (forall i | 0 <= i < |issued| :: issued[i].index == i && issued[i].store == this)
      && (forall id | id in sessions :: sessions[id] in issued)
      && View().Inv()
    }

    ghost function View(): LocalState
      reads this, issued
    {
      LocalState(blobs, uploads,
                 map id | id in sessions :: sessions[id].index,
                 seq(|issued|, i requires 0 <= i < |issued| reads this, issued => issued[i].Snapshot()))
    }

    method StartUpload(id: string, now: int) returns (s: LocalSession?, ghost r: Resp)
      requires Valid()
      modifies this
      ensures Valid() && (View(), r) == LocalStep(env, old(View()), Start(id, now))
      ensures s == null <==> id in old(uploads)
      ensures s != null ==> fresh(s) && issued == old(issued) + [s]
      ensures s == null ==> issued == old(issued)
    {
      ghost var before := View();
      StepKeepsInv(env, before, Start(id, now));
      if id in uploads {
        return null, IoError;
      }
      r := Session(|issued|);
      s := Register(id, now);
    }

    /** Creates the tmp file and enters its session in the table. */
    method Register(id: string, now: int) returns (s: LocalSession)
      requires forall i | 0 <= i < |issued| :: issued[i].index == i && issued[i].store == this
      requires forall id | id in sessions :: sessions[id] in issued
      modifies this
      ensures fresh(s) && issued == old(issued) + [s] && s.index == |old(issued)| && s.store == this
      ensures sessions == old(sessions)[id := s]
      ensures View() == LocalState(old(blobs), old(uploads)[id := Tmp([], now)], old(View()).table[id := s.index],
                                   old(View()).handles + [s.Snapshot()])
      ensures s.Snapshot() == LocalHandle(id, 0, 0, true, false)
    {
      ghost var before := View();
      uploads := uploads[id := Tmp([], now)];
      s := new LocalSession(this, id, |issued|);
      sessions := sessions[id := s];
      issued := issued + [s];
      assert View().handles == before.handles + [s.Snapshot()];
      assert View().table == before.table[id := s.index];
    }

    method ResumeUpload(id: string) returns (s: LocalSession?, ghost r: Resp)
      requires Valid()
      ensures (View(), r) == LocalStep(env, View(), Resume(id))
      ensures s != null <==> id in sessions
      ensures s != null ==> s in issued && r == Session(s.index) && !s.closed && s.id == id
    {
      if id !in sessions {
        return null, SessionNotFound;
      }
      var found := sessions[id];
      assert View().handles[View().table[id]] == found.Snapshot();
      if found.closed {
        assert false;
      }
      return found, Session(found.index);
    }

    method GetBlob(d: Digest) returns (r: Resp)
      requires Valid()
      ensures (View(), r) == LocalStep(env, View(), Get(d))
    {
      var p := env.path(d);
      return if p in blobs then Content(blobs[p]) else NotFound;
    }

    method StatBlob(d: Digest) returns (r: Resp)
      requires Valid()
      ensures (View(), r) == LocalStep(env, View(), Stat(d))
    {
      var p := env.path(d);
      return if p in blobs then Size(|blobs[p]|) else NotFound;
    }

    method PruneAbandonedUploads(threshold: int, dryRun: bool) returns (removed: nat, bytes: nat)
      requires Valid()
      modifies this`uploads
      ensures Valid() && (View(), Pruned(removed, bytes)) == LocalStep(env, old(View()), Prune(threshold, dryRun))
    {
      ghost var before := View();
      StepKeepsInv(env, before, Prune(threshold, dryRun));
      ghost var taken;
      removed, bytes, taken := SweepUploads(sessions.Keys, threshold, dryRun);
      assert taken == before.Garbage(threshold);
      assert View() == before.(uploads := uploads);
    }

    /** The upload directory is listed in some order; `taken` are the matches. */
    method SweepUploads(live: set<string>, threshold: int, dryRun: bool)
      returns (removed: nat, bytes: nat, ghost taken: set<string>)
      modifies this`uploads
      ensures forall x :: x in taken <==> x in old(uploads) && x !in live && old(uploads)[x].modTime <= threshold
      ensures uploads == if dryRun then old(uploads) else old(uploads) - taken
      ensures removed == |taken| && bytes == TotalSize(Part(old(uploads), taken))
    {
      ghost var before := uploads;
      var entries := uploads.Keys;
      removed, bytes, taken := 0, 0, {};
      assert Part(before, {}) == map[];
      while entries != {}
        invariant entries <= before.Keys && taken !! entries && taken <= before.Keys
        invariant forall x | x in before && x !in entries ::
                    x in taken <==> x !in live && before[x].modTime <= threshold
        invariant uploads == if dryRun then before else before - taken
        invariant removed == |taken| && bytes == TotalSize(Part(before, taken))
      {
        var name :| name in entries;
        entries := entries - {name};
        if name in live {
          continue;
        }
        var info := uploads[name];
        if info.modTime > threshold {
          continue;
        }
        TotalSizeAdd(before, taken, name);
        if !dryRun {
          uploads := uploads - {name};
        }
        taken := taken + {name};
        removed, bytes := removed + 1, bytes + |info.data|;
      }
    }

    method PutBlob(p: string, data: Bytes)
      requires Valid()
      modifies this`blobs
      ensures Valid() && View() == old(View()).(blobs := old(blobs)[p := data])
    {
      blobs := blobs[p := data];
      assert View() == old(View()).(blobs := blobs);
    }

    method DeleteBlob(d: Digest) returns (r: Resp)
      requires Valid()
      modifies this`blobs
      ensures Valid() && (View(), r) == LocalStep(env, old(View()), Delete(d))
    {
      var p := env.path(d);
      if p !in blobs {
        return NotFound;
      }
      blobs := blobs - {p};
      assert View() == old(View()).(blobs := blobs);
      return Ok;
    }
  }

  class LocalSession {
    const store: LocalBlobStore
    const id: string
    ghost const index: nat
    var pos: nat
    var n: nat
    var fileOpen: bool
    var closed: bool

    constructor (store: LocalBlobStore, id: string, ghost index: nat)
      ensures this.store == store && this.id == id && this.index == index
      ensures pos == n == 0 && fileOpen && !closed
    {
      this.store, this.id, this.index := store, id, index;
      pos, n, fileOpen, closed := 0, 0, true, false;
    }

    ghost function Snapshot(): LocalHandle
      reads this
    {
      LocalHandle(id, pos, n, fileOpen, closed)
    }

    ghost predicate Belongs()
      reads this, store, store.issued
    {
      store.Valid() && this in store.issued
    }

    method WriteBytes(p: Bytes, now: int) returns (r: Resp)
      requires Belongs()
      modifies this, store`uploads
      ensures Belongs() && (store.View(), r) == LocalStep(store.env, old(store.View()), Write(index, p, now))
    {
      ghost var before := store.View();
      assert before.handles[index] == Snapshot();
      StepKeepsInv(store.env, before, Write(index, p, now));
      if closed {
        return SessionClosed;
      }
      if !fileOpen || id !in store.uploads {
        return IoError;
      }
      store.uploads := store.uploads[id := Tmp(WriteAt(store.uploads[id].data, pos, p), now)];
      pos, n := pos + |p|, n + |p|;
      assert store.View() == LocalStep(store.env, before, Write(index, p, now)).0;
      return Wrote(|p|);
    }

    /** `renameFails` is what the file system answers the rename. */
    method CommitUpload(expected: Digest, renameFails: bool) returns (r: Resp)
      requires Belongs()
      modifies this, store`blobs, store`uploads, store`sessions
      ensures Belongs() && (store.View(), r) ==
                  LocalStep(store.env, old(store.View()), Commit(index, expected, renameFails))
    {
      ghost var before := store.View();
      assert before.handles[index] == Snapshot();
      if closed {
        return SessionClosed;
      }
      if !fileOpen || id !in store.uploads {
        return IoError;
      }
      var alg := Algorithm(expected);
      Seek(0);
      if !Supported(alg) {
        return UnsupportedAlgorithm;
      }
      var got, refused := ReadBack(alg, expected);
      assert store.View() == before.WithHandle(index, Snapshot());
      if refused {
        return DigestMismatch(got);
      }
      ghost var read := Snapshot();
      r := Publish(got, renameFails);
      UpdatesOverwrite(before, index, read);
      assert (store.View(), r) == LocalCommit(store.env, before, index, expected, renameFails);
    }

    /** Hash the temporary file end to end; on a mismatch restore the seek
        pointer so that writes go on at the end. */
    method ReadBack(alg: string, expected: Digest) returns (got: Digest, refused: bool)
      requires Belongs() && !closed && id in store.uploads
      modifies this`pos
      ensures Belongs()
      ensures got == store.env.DigestOf(alg, store.uploads[id].data) && refused == Refuses(expected, got)
      ensures pos == if refused then n else |store.uploads[id].data|
      ensures store.View() == old(store.View()).WithHandle(index, Snapshot())
    {
      ghost var before := store.View();
      var data := store.uploads[id].data;
      Seek(|data|);
      got := store.env.DigestOf(alg, data);
      refused := !expected.IsZero() && !expected.Equal(got);
      if refused {
        Seek(n);
        assert store.View().handles == before.handles[index := Snapshot()];
      }
    }

    method Seek(to: nat)
      requires Belongs() && !closed
      modifies this`pos
      ensures Belongs() && store.View() == old(store.View()).WithHandle(index, old(Snapshot()).(pos := to))
      ensures pos == to
    {
      ghost var before := store.View();
      assert before.handles[index] == Snapshot();
      HandleUpdateKeepsInv(before, index, Snapshot().(pos := to), before.uploads);
      pos := to;
      assert store.View() == before.WithHandle(index, Snapshot());
    }

    /** Close the temporary file and move it to the blob's place. */
    method Publish(got: Digest, renameFails: bool) returns (r: Resp)
      requires Belongs() && !closed && id in store.uploads
      modifies this, store`blobs, store`uploads, store`sessions
      ensures Belongs()
      ensures var s := old(store.View());
              var dst := store.env.path(got);
              if !renameFails then
                r == Committed(got) && store.View() ==
                    s.Closed(index, old(pos)).(blobs := s.blobs[dst := s.uploads[id].data])
              else if dst in s.blobs then
                r == Committed(got) && store.View() == s.Closed(index, old(pos))
              else
                r == IoError && store.View() == s.WithHandle(index, old(Snapshot()).(fileOpen := false))
    {
      var dst := store.env.path(got);
      if renameFails {
        if dst !in store.blobs {
          CloseFile();
          return IoError;
        }
      } else {
        store.PutBlob(dst, store.uploads[id].data);
      }
      ForceCloseLocked();
      return Committed(got);
    }

    method CloseFile()
      requires Belongs() && !closed
      modifies this`fileOpen
      ensures Belongs() && store.View() == old(store.View()).WithHandle(index, old(Snapshot()).(fileOpen := false))
    {
      ghost var before := store.View();
      assert before.handles[index] == Snapshot();
      HandleUpdateKeepsInv(before, index, Snapshot().(fileOpen := false), before.uploads);
      fileOpen := false;
      assert store.View() == before.WithHandle(index, Snapshot());
    }

    method ForceCloseLocked()
      requires Belongs() && !closed
      modifies this, store`uploads, store`sessions
      ensures Belongs() && store.View() == old(store.View()).Closed(index, old(pos))
    {
      ghost var before := store.View();
      assert before.handles[index] == Snapshot();
      ClosingKeepsInv(before, index, pos);
      closed := true;
      fileOpen := false;
      store.uploads := store.uploads - {id};
      store.sessions := store.sessions - {id};
      assert store.View() == before.Closed(index, pos);
    }

    method CancelUpload() returns (r: Resp)
      requires Belongs()
      modifies this, store`uploads, store`sessions
      ensures Belongs() && (store.View(), r) == LocalStep(store.env, old(store.View()), Cancel(index))
    {
      assert store.View().handles[index] == Snapshot();
      if !closed {
        ForceCloseLocked();
      }
      return Ok;
    }
  }

  // ---- The memory store ----

  class MemBlobStore {
    const env: Env
    var blobs: map<string, Bytes>           // by digest string
    var sessions: map<string, MemSession>
    ghost var issued: seq<MemSession>

    constructor (hash: (string, Bytes) -> string)
      ensures Valid() && env == BlobEnv(hash) && View() == MEM_EMPTY
    {
      env := BlobEnv(hash);
      blobs, sessions, issued := map[], map[], [];
    }

    ghost predicate Valid()
      reads this, issued
    {
      && (forall i | 0 <= i < |issued| :: issued[i].index == i && issued[i].store == this)
      && (forall id | id in sessions :: sessions[id] in issued)
      && (forall s | s in issued && !s.closed :: s.buf.Some?)
    }

    ghost function View(): MemState
      reads this, issued
    {
      MemState(blobs,
               map id | id in sessions :: sessions[id].index,
               seq(|issued|, i requires 0 <= i < |issued| reads this, issued => issued[i].Snapshot()))
    }

    method StartUpload(id: string, now: int) returns (s: MemSession, ghost r: Resp)
      requires Valid()
      modifies this
      ensures Valid() && (View(), r) == MemStep(env, old(View()), Start(id, now))
      ensures fresh(s) && issued == old(issued) + [s]
    {
      s := new MemSession(this, id, |issued|);
      r := Session(|issued|);
      sessions := sessions[id := s];
      issued := issued + [s];
      assert View() == MemStep(env, old(View()), Start(id, now)).0;
    }

    method ResumeUpload(id: string) returns (s: MemSession?, ghost r: Resp)
      requires Valid()
      ensures (View(), r) == MemStep(env, View(), Resume(id))
      ensures s != null <==> id in sessions && !sessions[id].closed
    {
      if id !in sessions {
        return null, SessionNotFound;
      }
      var found := sessions[id];
      assert View().handles[View().table[id]] == found.Snapshot();
      if found.closed {
        return null, SessionClosed;
      }
      return found, Session(found.index);
    }

    method GetBlob(d: Digest) returns (r: Resp)
      requires Valid()
      ensures (View(), r) == MemStep(env, View(), Get(d))
    {
      var k := env.key(d);
      return if k in blobs then Content(blobs[k]) else NotFound;
    }

    method StatBlob(d: Digest) returns (r: Resp)
      requires Valid()
      ensures (View(), r) == MemStep(env, View(), Stat(d))
    {
      var k := env.key(d);
      return if k in blobs then Size(|blobs[k]|) else NotFound;
    }

    method DeleteBlob(d: Digest) returns (r: Resp)
      requires Valid()
      modifies this`blobs
      ensures Valid() && (View(), r) == MemStep(env, old(View()), Delete(d))
    {
      var k := env.key(d);
      if k !in blobs {
        return NotFound;
      }
      blobs := blobs - {k};
      assert View() == old(View()).(blobs := blobs);
      return Ok;
    }
  }

  class MemSession {
    const store: MemBlobStore
    const id: string
    ghost const index: nat
    var buf: Option<Bytes>
    var closed: bool

    constructor (store: MemBlobStore, id: string, ghost index: nat)
      ensures this.store == store && this.id == id && this.index == index
      ensures buf == Some([]) && !closed
    {
      this.store, this.id, this.index := store, id, index;
      buf, closed := Some([]), false;
    }

    ghost function Snapshot(): MemHandle
      reads this
    {
      MemHandle(id, buf, closed)
    }

    ghost predicate Belongs()
      reads this, store, store.issued
    {
      store.Valid() && this in store.issued
    }

    method WriteBytes(p: Bytes, now: int) returns (r: Resp)
      requires Belongs()
      modifies this
      ensures Belongs() && (store.View(), r) == MemStep(store.env, old(store.View()), Write(index, p, now))
    {
      ghost var before := store.View();
      assert before.handles[index] == Snapshot();
      if closed {
        return SessionClosed;
      }
      buf := Some(buf.value + p);
      assert store.View() == MemStep(store.env, before, Write(index, p, now)).0;
      return Wrote(|p|);
    }

    method CommitUpload(expected: Digest, renameFails: bool) returns (r: Resp)
      requires Belongs()
      modifies this, store`blobs, store`sessions
      ensures Belongs() && (store.View(), r) ==
                  MemStep(store.env, old(store.View()), Commit(index, expected, renameFails))
    {
      ghost var before := store.View();
      assert before.handles[index] == Snapshot();
      if closed {
        return SessionClosed;
      }
      var alg := Algorithm(expected);
      if !Supported(alg) {
        return UnsupportedAlgorithm;
      }
      var data := buf.value;
      var got := store.env.DigestOf(alg, data);
      if !expected.IsZero() && !expected.Equal(got) {
        return DigestMismatch(got);
      }
      store.blobs := store.blobs[store.env.key(got) := data];
      closed := true;
      store.sessions := store.sessions - {id};
      assert store.View() == MemStep(store.env, before, Commit(index, expected, renameFails)).0;
      return Committed(got);
    }

    method CancelUpload() returns (r: Resp)
      requires Belongs()
      modifies this, store`sessions
      ensures Belongs() && (store.View(), r) == MemStep(store.env, old(store.View()), Cancel(index))
    {
      ghost var before := store.View();
      assert before.handles[index] == Snapshot();
      if closed {
        return Ok;
      }
      closed := true;
      buf := None;
      store.sessions := store.sessions - {id};
      assert store.View() == MemStep(store.env, before, Cancel(index)).0;
      return Ok;
    }
  }
}
