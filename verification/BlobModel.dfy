/** The two blob stores as state machines: the local one, whose upload sessions
    drive a temporary file through a seek pointer, and the memory one it must
    behave like (internal/registry/blobstore/localblob.go and memblob.go). The
    proofs use of the file layout and the hash only what `Env.Good` says. */
module BlobModel {
  import opened Strings
  import opened Digests

  datatype Env = Env(
    hash: (string, Bytes) -> string,  // hex of the hash of some bytes under an algorithm
    path: Digest -> string,           // file of a blob in the local store
    key: Digest -> string)            // map key of a blob in the memory store
  {
    /** The digest of the bytes; it is what ParseDigest would accept. */
    function DigestOf(alg: string, data: Bytes): Digest {
      Digest(alg, hash(alg, data))
    }

    ghost predicate Good() {
      && (forall alg, data | Supported(alg) :: DigestOf(alg, data).Canonical())
      && (forall d: Digest, e: Digest | d.Canonical() && e.Canonical() :: path(d) == path(e) ==> d == e)
      && (forall d: Digest, e: Digest | d.Canonical() && e.Canonical() :: key(d) == key(e) ==> d == e)
    }
  }

  datatype Op =
    | Start(id: string, now: int)
    | Resume(id: string)
    | Write(h: nat, p: Bytes, now: int)
    | Offset(h: nat)
    | Commit(h: nat, expected: Digest, renameFails: bool)
    | Cancel(h: nat)
    | Get(d: Digest)
    | Stat(d: Digest)
    | Delete(d: Digest)
    | Prune(threshold: int, dryRun: bool)
  {
    /** The operation is called on an existing session object. */
    predicate OnHandle(count: nat) {
      (Write? || Offset? || Commit? || Cancel?) ==> h < count
    }
  }

  datatype Resp =
    | Session(h: nat)
    | Wrote(n: nat)
    | AtOffset(n: nat)
    | Committed(d: Digest)
    | DigestMismatch(got: Digest)
    | UnsupportedAlgorithm
    | Content(data: Bytes)
    | Size(n: nat)
    | Ok
    | NotFound
    | SessionNotFound
    | SessionClosed
    | IoError
    | Pruned(count: nat, bytes: nat)

  /** The algorithm Commit uses: sha256 unless the caller pins one. */
  function Algorithm(expected: Digest): string {
    if expected.alg == "" then "sha256" else expected.alg
  }

  predicate Refuses(expected: Digest, got: Digest) {
    !expected.IsZero() && !expected.Equal(got)
  }

  // ---- The memory store ----

  /** A session object. Cancel drops the buffer. */
  datatype MemHandle = MemHandle(id: string, buf: Option<Bytes>, closed: bool)

  datatype MemState = MemState(blobs: map<string, Bytes>, table: map<string, nat>, handles: seq<MemHandle>)
  {
    /** An id is in the table exactly while its session is open, and an open
        session has its buffer. */
    ghost predicate Inv() {
      && (forall id | id in table ::
            table[id] < |handles| && handles[table[id]].id == id && !handles[table[id]].closed)
      && (forall h | 0 <= h < |handles| && !handles[h].closed ::
            handles[h].id in table && table[handles[h].id] == h && handles[h].buf.Some?)
    }

    /** A random id is not one of an open session. */
    predicate FreshId(op: Op) {
      op.Start? ==> op.id !in table
    }
  }

  function MemStep(env: Env, s: MemState, op: Op): (MemState, Resp)
    requires op.OnHandle(|s.handles|)
  {
    match op
    case Start(id, _) =>
      (s.(table := s.table[id := |s.handles|], handles := s.handles + [MemHandle(id, Some([]), false)]),
       Session(|s.handles|))
    case Resume(id) =>
      (s, if id !in s.table then SessionNotFound
          else if s.table[id] < |s.handles| && s.handles[s.table[id]].closed then SessionClosed
          else Session(s.table[id]))
    case Write(h, p, _) =>
      var hd := s.handles[h];
      if hd.closed || hd.buf.None? then (s, SessionClosed)
      else (s.(handles := s.handles[h := hd.(buf := Some(hd.buf.value + p))]), Wrote(|p|))
    case Offset(h) =>
      (s, if s.handles[h].buf.Some? then AtOffset(|s.handles[h].buf.value|) else IoError)
    case Commit(h, expected, _) =>
      var hd := s.handles[h];
      if hd.closed || hd.buf.None? then (s, SessionClosed)
      else if !Supported(Algorithm(expected)) then (s, UnsupportedAlgorithm)
      else
        var got := env.DigestOf(Algorithm(expected), hd.buf.value);
        if Refuses(expected, got) then (s, DigestMismatch(got))
        else (MemState(s.blobs[env.key(got) := hd.buf.value], s.table - {hd.id}, s.handles[h := hd.(closed := true)]),
              Committed(got))
    case Cancel(h) =>
      var hd := s.handles[h];
      if hd.closed then (s, Ok)
      else (s.(table := s.table - {hd.id}, handles := s.handles[h := hd.(buf := None, closed := true)]), Ok)
    case Get(d) =>
      (s, if env.key(d) in s.blobs then Content(s.blobs[env.key(d)]) else NotFound)
    case Stat(d) =>
      (s, if env.key(d) in s.blobs then Size(|s.blobs[env.key(d)]|) else NotFound)
    case Delete(d) =>
      if env.key(d) in s.blobs then (s.(blobs := s.blobs - {env.key(d)}), Ok) else (s, NotFound)
    case Prune(_, _) => (s, Ok)
  }

  lemma MemStepKeepsInv(env: Env, s: MemState, op: Op)
    requires s.Inv() && op.OnHandle(|s.handles|) && s.FreshId(op)
    ensures MemStep(env, s, op).0.Inv()
  {
  }

  // ---- The local store ----

  /** A temporary file below _uploads/. */
  datatype Tmp = Tmp(data: Bytes, modTime: int)

  /** A session object: its open file's seek pointer, the byte count it keeps
      on the side, and whether the file is still open. */
  datatype LocalHandle = LocalHandle(id: string, pos: nat, n: nat, fileOpen: bool, closed: bool)

  datatype LocalState = LocalState(
    blobs: map<string, Bytes>,
    uploads: map<string, Tmp>,
    table: map<string, nat>,
    handles: seq<LocalHandle>)
  {
    /** The session table holds exactly the open sessions, under their ids, and
        each has its temporary file. */
    ghost predicate Inv() {
      && (forall id | id in table :: table[id] < |handles| && handles[table[id]].id == id && !handles[table[id]].closed)
      && (forall h | 0 <= h < |handles| && !handles[h].closed ::
            handles[h].id in table && table[handles[h].id] == h && handles[h].id in uploads)
    }

    function WithHandle(h: nat, hd: LocalHandle): LocalState
      requires h < |handles|
    {
      this.(handles := handles[h := hd])
    }

    /** Closing a session: its file goes, and its table entry. */
    function Closed(h: nat, pos: nat): LocalState
      requires h < |handles|
    {
      var hd := handles[h];
      LocalState(blobs, uploads - {hd.id}, table - {hd.id},
                 handles[h := LocalHandle(hd.id, pos, hd.n, false, true)])
    }

    /** The files a pruning pass takes: old, and of no live session. */
    ghost function Garbage(threshold: int): set<string> {
      set name | name in uploads && name !in table && uploads[name].modTime <= threshold
    }
  }

  /** Writing at a seek pointer: over what is there, and past the end. */
  function WriteAt(data: Bytes, pos: nat, p: Bytes): Bytes {
    if p == [] then data
    else
      (if pos <= |data| then data[..pos] else data + seq(pos - |data|, _ => '\0'))
      + p
      + (if pos + |p| <= |data| then data[pos + |p|..] else [])
  }

  /** Byte by byte: what is written, and elsewhere what was there or nothing. */
  lemma WriteAtExact(data: Bytes, pos: nat, p: Bytes)
    requires p != []
    ensures var r := WriteAt(data, pos, p);
            && |r| == (if pos + |p| <= |data| then |data| else pos + |p|)
            && forall i | 0 <= i < |r| ::
                 r[i] == if pos <= i < pos + |p| then p[i - pos] else if i < |data| then data[i] else '\0'
  {
  }

  /** The total size of some files. */
  function TotalSize(files: map<string, Tmp>): nat
    decreases |files|
  {
    if files == map[] then 0
    else
      var name := Least(files.Keys);
      |files[name].data| + TotalSize(files - {name})
  }

  lemma {:induction false} TotalSizeRemove(files: map<string, Tmp>, name: string)
    requires name in files
    ensures TotalSize(files) == |files[name].data| + TotalSize(files - {name})
    decreases |files|
  {
    var first := Least(files.Keys);
    if name != first {
      TotalSizeRemove(files - {first}, name);
      TotalSizeRemove(files - {name}, first);
      assert files - {first} - {name} == files - {name} - {first};
    }
  }

  /** Some of the files. */
  ghost function Part(files: map<string, Tmp>, names: set<string>): map<string, Tmp> {
    map x | x in files && x in names :: files[x]
  }

  lemma TotalSizeAdd(files: map<string, Tmp>, names: set<string>, name: string)
    requires name in files && name !in names
    ensures TotalSize(Part(files, names + {name})) == TotalSize(Part(files, names)) + |files[name].data|
  {
    TotalSizeRemove(Part(files, names + {name}), name);
    assert Part(files, names + {name}) - {name} == Part(files, names);
  }

  ghost function LocalCommit(env: Env, s: LocalState, h: nat, expected: Digest, renameFails: bool): (LocalState, Resp)
    requires h < |s.handles|
  {
    var hd := s.handles[h];
    if hd.closed then (s, SessionClosed)
    else if !hd.fileOpen || hd.id !in s.uploads then (s, IoError)
    else if !Supported(Algorithm(expected)) then (s.WithHandle(h, hd.(pos := 0)), UnsupportedAlgorithm)
    else
      var data := s.uploads[hd.id].data;
      var got := env.DigestOf(Algorithm(expected), data);
      if Refuses(expected, got) then (s.WithHandle(h, hd.(pos := hd.n)), DigestMismatch(got))
      else if !renameFails then
        (s.Closed(h, |data|).(blobs := s.blobs[env.path(got) := data]), Committed(got))
      else if env.path(got) in s.blobs then (s.Closed(h, |data|), Committed(got))
      else (s.WithHandle(h, hd.(pos := |data|, fileOpen := false)), IoError)
  }

  ghost function LocalStep(env: Env, s: LocalState, op: Op): (LocalState, Resp)
    requires op.OnHandle(|s.handles|)
  {
    match op
    case Start(id, now) =>
      if id in s.uploads then (s, IoError)
      else
        (LocalState(s.blobs, s.uploads[id := Tmp([], now)], s.table[id := |s.handles|],
                    s.handles + [LocalHandle(id, 0, 0, true, false)]),
         Session(|s.handles|))
    case Resume(id) =>
      (s, if id !in s.table then SessionNotFound
          else if s.table[id] < |s.handles| && s.handles[s.table[id]].closed then SessionClosed
          else Session(s.table[id]))
    case Write(h, p, now) =>
      var hd := s.handles[h];
      if hd.closed then (s, SessionClosed)
      else if !hd.fileOpen || hd.id !in s.uploads then (s, IoError)
      else
        (s.WithHandle(h, hd.(pos := hd.pos + |p|, n := hd.n + |p|))
          .(uploads := s.uploads[hd.id := Tmp(WriteAt(s.uploads[hd.id].data, hd.pos, p), now)]),
         Wrote(|p|))
    case Offset(h) => (s, AtOffset(s.handles[h].n))
    case Commit(h, expected, renameFails) => LocalCommit(env, s, h, expected, renameFails)
    case Cancel(h) => if s.handles[h].closed then (s, Ok) else (s.Closed(h, s.handles[h].pos), Ok)
    case Get(d) => (s, if env.path(d) in s.blobs then Content(s.blobs[env.path(d)]) else NotFound)
    case Stat(d) => (s, if env.path(d) in s.blobs then Size(|s.blobs[env.path(d)]|) else NotFound)
    case Delete(d) =>
      if env.path(d) in s.blobs then (s.(blobs := s.blobs - {env.path(d)}), Ok) else (s, NotFound)
    case Prune(threshold, dryRun) =>
      (if dryRun then s else s.(uploads := s.uploads - s.Garbage(threshold)),
       Pruned(|s.Garbage(threshold)|, TotalSize(Part(s.uploads, s.Garbage(threshold)))))
  }

  const LOCAL_EMPTY: LocalState := LocalState(map[], map[], map[], [])
  const MEM_EMPTY: MemState := MemState(map[], map[], [])

  // ---- Every local blob hashes to its own key ----

  /** The file is some blob's, and holds bytes with the blob's digest. */
  ghost predicate TrueBlob(env: Env, path: string, data: Bytes) {
    exists d: Digest :: d.Canonical() && env.path(d) == path && env.hash(d.alg, data) == d.hex
  }

  ghost predicate ContentAddressed(env: Env, s: LocalState) {
    forall p | p in s.blobs :: TrueBlob(env, p, s.blobs[p])
  }

  lemma ClosingKeepsInv(s: LocalState, h: nat, pos: nat)
    requires s.Inv() && h < |s.handles| && !s.handles[h].closed
    ensures s.Closed(h, pos).Inv()
  {
  }

  lemma HandleUpdateKeepsInv(s: LocalState, h: nat, hd: LocalHandle, uploads: map<string, Tmp>)
    requires s.Inv() && h < |s.handles| && hd.id == s.handles[h].id && hd.closed == s.handles[h].closed
    requires s.uploads.Keys <= uploads.Keys
    ensures s.WithHandle(h, hd).(uploads := uploads).Inv()
  {
  }

  lemma StartKeepsInv(env: Env, s: LocalState, id: string, now: int)
    requires s.Inv()
    ensures LocalStep(env, s, Start(id, now)).0.Inv()
  {
  }

  /** The session table holds exactly the open sessions, whatever is done. */
  lemma StepKeepsInv(env: Env, s: LocalState, op: Op)
    requires s.Inv() && op.OnHandle(|s.handles|)
    ensures LocalStep(env, s, op).0.Inv()
  {
    var s' := LocalStep(env, s, op).0;
    match op {
      case Start(id, now) => StartKeepsInv(env, s, id, now);
      case Write(h, p, now) =>
        if !s.handles[h].closed {
          HandleUpdateKeepsInv(s, h, s'.handles[h], s'.uploads);
        }
      case Commit(h, _, _) =>
        if !s.handles[h].closed {
          ClosingKeepsInv(s, h, s'.handles[h].pos);
          HandleUpdateKeepsInv(s, h, s'.handles[h].(closed := false), s.uploads);
        }
      case Cancel(h) =>
        if !s.handles[h].closed {
          ClosingKeepsInv(s, h, s.handles[h].pos);
        }
      case _ =>
    }
  }

  /** Every operation keeps it, failing renames, unknown algorithms and any
      interleaving of sessions included. */
  lemma StepKeepsContentAddressed(env: Env, s: LocalState, op: Op)
    requires env.Good() && op.OnHandle(|s.handles|) && ContentAddressed(env, s)
    ensures ContentAddressed(env, LocalStep(env, s, op).0)
  {
    if op.Commit? {
      var hd := s.handles[op.h];
      if hd.id in s.uploads && Supported(Algorithm(op.expected)) {
        var got := env.DigestOf(Algorithm(op.expected), s.uploads[hd.id].data);
        assert got.Canonical();
        assert TrueBlob(env, env.path(got), s.uploads[hd.id].data);
      }
    }
  }

  /** What a canonical digest reads back has that digest. */
  lemma GetReturnsItsDigest(env: Env, s: LocalState, d: Digest)
    requires env.Good() && ContentAddressed(env, s) && d.Canonical()
    ensures var r := LocalStep(env, s, Get(d)).1; r.Content? ==> env.hash(d.alg, r.data) == d.hex
  {
    if env.path(d) in s.blobs {
      assert TrueBlob(env, env.path(d), s.blobs[env.path(d)]);
    }
  }
}
