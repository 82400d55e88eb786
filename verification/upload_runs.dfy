/** Any interleaving of storage requests: what it keeps of the session table, of the tree and of the storage root. */
module UploadRuns {
  import opened Bytes
  import opened Digest
  import opened Paths
  import opened FileSystem
  import opened StorageServices
  import opened Uploads

  /** One request that reaches the services. */
  datatype Request =
    | BeginUpload(id: uint64, remoteDir: Str, filename: Str, size: uint64, hash: Str)
    | UploadChunk(id: uint64, offset: uint64, data: seq<byte>)
    | EndUpload(id: uint64)
    | Mkdir(path: Str)
    | Rmdir(path: Str)
    | DeletePath(path: Str)
    | RenamePath(source: Str, destination: Str)

  /** What stays fixed while the server runs. */
  datatype Config = Config(root: Path, hasher: Hasher)

  ghost predicate GoodConfig(cfg: Config) {
    GoodRoot(cfg.root) && Streaming(cfg.hasher)
  }

  function OnTree(st: State, o: Outcome): Result {
    Result(st.(fs := o.fs), o.ok, o.message)
  }

  function Apply(cfg: Config, st: State, q: Request): Result {
    match q
    case BeginUpload(id, dir, filename, size, hash) => Begin(st, cfg.root, cfg.hasher, id, dir, filename, size, hash)
    case UploadChunk(id, offset, data) => WriteChunk(st, cfg.hasher, id, offset, data)
    case EndUpload(id) => Finish(st, cfg.hasher, id)
    case Mkdir(path) => OnTree(st, MakeDir(st.fs, cfg.root, path))
    case Rmdir(path) => OnTree(st, RemoveDir(st.fs, cfg.root, path))
    case DeletePath(path) => OnTree(st, Delete(st.fs, cfg.root, path))
    case RenamePath(a, b) => OnTree(st, Rename(st.fs, cfg.root, a, b))
  }

  function Run(cfg: Config, st: State, qs: seq<Request>): State
    decreases |qs|
  {
    if qs == [] then st else Run(cfg, Apply(cfg, st, qs[0]).st, qs[1..])
  }

  /** If this request opens a session, it has room below 2^64 and a target that no other session writes to. */
  ghost predicate OpensCleanly(cfg: Config, st: State, q: Request) {
    q.BeginUpload? && Openable(st, cfg.root, q.id, q.remoteDir, q.filename) ==>
      && q.size <= U64 - U32
      && TargetFree(st, Resolve(st.fs, cfg.root, q.remoteDir).value.comps + [q.filename])
  }

  /** Chunk lengths come from a 32-bit field. */
  predicate ChunkFits(q: Request) {
    q.UploadChunk? ==> |q.data| < U32
  }

  lemma TreeRequestsKeepContents(cfg: Config, st: State, q: Request)
    requires GoodConfig(cfg) && Valid(st.fs)
    requires q.Mkdir? || q.Rmdir? || q.DeletePath? || q.RenamePath?
    ensures Valid(Apply(cfg, st, q).st.fs)
    ensures Apply(cfg, st, q).st.fs.data == st.fs.data
    ensures Apply(cfg, st, q).st.sessions == st.sessions
  {
    hide Resolve, Valid, Rename, Delete, MakeDir, RemoveDir, RenameAllowed, RemovableAt, CreatableAt, Moved;
    match q
    case Mkdir(path) => MakeDirAddsMissingPrefixes(st.fs, cfg.root, path);
    case Rmdir(path) =>
      RemoveDirIsDeleteOfDirectory(st.fs, cfg.root, path);
      DeleteRemovesOneChildlessEntry(st.fs, cfg.root, path);
    case DeletePath(path) => DeleteRemovesOneChildlessEntry(st.fs, cfg.root, path);
    case RenamePath(a, b) => RenameIsSubtreeMove(st.fs, cfg.root, a, b);
  }

  lemma FinishKeepsInvariant(st: State, h: Hasher, id: uint64)
    requires SessionInv(st, h)
    ensures SessionInv(Finish(st, h, id).st, h)
    ensures Finish(st, h, id).st.fs.data == st.fs.data
  {
    AbortKeepsInvariant(st, h, id);
  }

  /** Every request keeps the tree valid and the sessions consistent, exactly unless it opens a session uncleanly. */
  lemma StepKeepsInvariantExactly(cfg: Config, st: State, q: Request)
    requires GoodConfig(cfg) && SessionInv(st, cfg.hasher) && ChunkFits(q)
    ensures SessionInv(Apply(cfg, st, q).st, cfg.hasher) <==> OpensCleanly(cfg, st, q)
  {
    match q
    case BeginUpload(id, dir, filename, size, hash) =>
      BeginKeepsInvariantExactly(st, cfg.root, cfg.hasher, id, dir, filename, size, hash);
      BeginAcceptsExactly(st, cfg.root, cfg.hasher, id, dir, filename, size, hash);
      BeginShape(cfg, st, q);
    case UploadChunk(id, offset, data) => ChunkAppends(st, cfg.hasher, id, offset, data);
    case EndUpload(id) => FinishKeepsInvariant(st, cfg.hasher, id);
    case _ =>
      TreeRequestsKeepContents(cfg, st, q);
      TreeChangeKeepsSessions(st, cfg.hasher, Apply(cfg, st, q).st.fs);
  }

  predicate ChunksFit(qs: seq<Request>) {
    forall i | 0 <= i < |qs| :: ChunkFits(qs[i])
  }

  /** Every session of the run is opened cleanly. */
  ghost predicate CleanRun(cfg: Config, st: State, qs: seq<Request>)
    decreases |qs|
  {
    qs == [] || (OpensCleanly(cfg, st, qs[0]) && CleanRun(cfg, Apply(cfg, st, qs[0]).st, qs[1..]))
  }

  /** The invariant holds before, after and between all requests of the run. */
  ghost predicate ConsistentThroughout(cfg: Config, st: State, qs: seq<Request>)
    decreases |qs|
  {
    SessionInv(st, cfg.hasher) && (qs == [] || ConsistentThroughout(cfg, Apply(cfg, st, qs[0]).st, qs[1..]))
  }

  /** Over any run the invariant holds throughout exactly if every session is opened cleanly. */
  lemma {:induction false} RunKeepsInvariantExactly(cfg: Config, st: State, qs: seq<Request>)
    requires GoodConfig(cfg) && SessionInv(st, cfg.hasher) && ChunksFit(qs)
    ensures ConsistentThroughout(cfg, st, qs) <==> CleanRun(cfg, st, qs)
    decreases |qs|
  {
    if qs != [] {
      StepKeepsInvariantExactly(cfg, st, qs[0]);
      hide Apply, SessionInv, OpensCleanly;
      if SessionInv(Apply(cfg, st, qs[0]).st, cfg.hasher) {
        RunKeepsInvariantExactly(cfg, Apply(cfg, st, qs[0]).st, qs[1..]);
      }
    }
  }

  lemma {:induction false} RunKeepsInvariant(cfg: Config, st: State, qs: seq<Request>)
    requires GoodConfig(cfg) && SessionInv(st, cfg.hasher) && ChunksFit(qs) && CleanRun(cfg, st, qs)
    ensures SessionInv(Run(cfg, st, qs), cfg.hasher)
    decreases |qs|
  {
    if qs != [] {
      StepKeepsInvariantExactly(cfg, st, qs[0]);
      RunKeepsInvariant(cfg, Apply(cfg, st, qs[0]).st, qs[1..]);
    }
  }

  /** Whatever the requests are, clean or not, the tree stays rooted with one inode per file. */
  lemma {:induction false} TreeStaysValid(cfg: Config, st: State, qs: seq<Request>)
    requires GoodConfig(cfg) && Valid(st.fs) && SessionsOpen(st)
    ensures Valid(Run(cfg, st, qs).fs)
    decreases |qs|
  {
    if qs != [] {
      StepKeepsTree(cfg, st, qs[0]);
      TreeStaysValid(cfg, Apply(cfg, st, qs[0]).st, qs[1..]);
    }
  }

  ghost predicate SessionsOpen(st: State) {
    forall id | id in st.sessions :: st.sessions[id].ino in st.fs.data
  }

  /** What an UPLOAD_BEGIN does to the disk and the table. */
  lemma BeginShape(cfg: Config, st: State, q: Request)
    requires Valid(st.fs) && q.BeginUpload?
    ensures var r := Apply(cfg, st, q);
      && Valid(r.st.fs)
      && (!r.ok ==>
           && r.st.sessions == st.sessions && r.st.fs.data == st.fs.data
           && forall p | p in st.fs.tree :: p in r.st.fs.tree && r.st.fs.tree[p] == st.fs.tree[p])
      && (r.ok ==>
           && r.error == [] && q.id !in st.sessions && q.id in r.st.sessions
           && Resolve(st.fs, cfg.root, q.remoteDir).Some?
           && var s := r.st.sessions[q.id];
           && var dir := Resolve(st.fs, cfg.root, q.remoteDir).value.comps;
           && s == NewSession(cfg.hasher, dir, q.filename, q.size, q.hash, s.ino)
           && r.st.sessions == st.sessions[q.id := s]
           && r.st.fs.data == st.fs.data[s.ino := []]
           && (forall p | p in st.fs.tree && p != s.target :: p in r.st.fs.tree && r.st.fs.tree[p] == st.fs.tree[p])
           && IsFile(r.st.fs, s.target) && r.st.fs.tree[s.target].ino == s.ino
           && (s.ino in st.fs.data <==> IsFile(st.fs, s.target))
           && (IsFile(st.fs, s.target) ==> st.fs.tree[s.target].ino == s.ino))
  {
    hide Resolve, BeginAt, Valid;
    var resolved := Resolve(st.fs, cfg.root, q.remoteDir);
    if resolved.Some? {
      BeginAtShape(st, cfg.hasher, q.id, resolved.value, q.filename, q.size, q.hash);
      assert BeginAt(st, cfg.hasher, q.id, resolved.value, q.filename, q.size, q.hash).ok ==>
        BeginAt(st, cfg.hasher, q.id, resolved.value, q.filename, q.size, q.hash).error == [] by {
        BeginHasNoError(st, cfg.hasher, q.id, resolved.value, q.filename, q.size, q.hash);
      }
    }
  }

  /** The state with the session just opened. */
  lemma BeginOpens(cfg: Config, st: State, q: Request) returns (b: State)
    requires GoodConfig(cfg) && Valid(st.fs) && q.BeginUpload?
    requires Openable(st, cfg.root, q.id, q.remoteDir, q.filename)
    ensures Apply(cfg, st, q) == Result(b, true, [])
    ensures q.id !in st.sessions && q.id in b.sessions && b.sessions - {q.id} == st.sessions
    ensures Tracks(b.fs, cfg.hasher, b.sessions[q.id])
    ensures b.sessions[q.id].expectedSize == q.size && b.sessions[q.id].expectedHash == q.hash
    ensures Resolve(st.fs, cfg.root, q.remoteDir).Some?
         && b.sessions[q.id].target == Resolve(st.fs, cfg.root, q.remoteDir).value.comps + [q.filename]
    ensures b.fs.data[b.sessions[q.id].ino] == []
    ensures b.sessions[q.id].target in b.fs.tree && b.fs.tree[b.sessions[q.id].target] == File(b.sessions[q.id].ino)
  {
    b := Apply(cfg, st, q).st;
    BeginShape(cfg, st, q);
    BeginAcceptsExactly(st, cfg.root, cfg.hasher, q.id, q.remoteDir, q.filename, q.size, q.hash);
    assert Apply(cfg, st, q).ok;
    assert NothingLaw(cfg.hasher, cfg.hasher.init);
    hide Apply, Resolve, Valid, Openable;
  }

  lemma BeginHasNoError(st: State, h: Hasher, id: uint64, dir: Resolved, filename: Str, size: uint64, hash: Str)
    ensures var r := BeginAt(st, h, id, dir, filename, size, hash);
      r.ok ==> r.error == []
  {
    hide WithDirectory, OpenTrunc;
  }

  lemma BeginKeepsTree(cfg: Config, st: State, q: Request)
    requires Valid(st.fs) && SessionsOpen(st) && q.BeginUpload?
    ensures Valid(Apply(cfg, st, q).st.fs) && SessionsOpen(Apply(cfg, st, q).st)
  {
    hide Apply, Resolve, Valid;
    BeginShape(cfg, st, q);
  }

  lemma AbortKeepsTree(st: State, id: uint64)
    requires Valid(st.fs) && SessionsOpen(st)
    ensures Valid(Abort(st, id).fs) && SessionsOpen(Abort(st, id))
  {
    if id in st.sessions {
      RemoveKeepsValid(st.fs, Resolved(st.sessions[id].target, false));
    }
  }

  lemma WriteKeepsTree(st: State, h: Hasher, id: uint64, offset: uint64, data: seq<byte>)
    requires Valid(st.fs) && SessionsOpen(st)
    ensures Valid(WriteChunk(st, h, id, offset, data).st.fs) && SessionsOpen(WriteChunk(st, h, id, offset, data).st)
  {
  }

  lemma StepKeepsTree(cfg: Config, st: State, q: Request)
    requires GoodConfig(cfg) && Valid(st.fs) && SessionsOpen(st)
    ensures Valid(Apply(cfg, st, q).st.fs) && SessionsOpen(Apply(cfg, st, q).st)
  {
    match q
    case BeginUpload(id, dir, filename, size, hash) => BeginKeepsTree(cfg, st, q);
    case UploadChunk(id, offset, data) => WriteKeepsTree(st, cfg.hasher, id, offset, data);
    case EndUpload(id) => AbortKeepsTree(st, id);
    case _ => TreeRequestsKeepContents(cfg, st, q);
  }

  // ---- the storage root over runs ----

  /** The requests that take the storage root itself away. */
  ghost predicate RemovesRoot(cfg: Config, st: State, q: Request) {
    match q
    case DeletePath(path) => ResolvesToOpenRoot(st.fs, cfg.root, path) && !HasChild(st.fs, cfg.root)
    case Rmdir(path) => ResolvesToOpenRoot(st.fs, cfg.root, path) && !HasChild(st.fs, cfg.root)
    case RenamePath(a, b) => ResolvesToOpenRoot(st.fs, cfg.root, a) && RenameAllowed(st.fs, cfg.root, a, b)
    case _ => false
  }

  ghost predicate TargetsBehindRoot(cfg: Config, st: State) {
    forall id | id in st.sessions :: |Text(st.sessions[id].target)| > |Text(cfg.root)|
  }

  lemma BeginTargetBehindRoot(cfg: Config, st: State, dir: Str, filename: Str)
    requires GoodConfig(cfg) && Resolve(st.fs, cfg.root, dir).Some?
    ensures |Text(Resolve(st.fs, cfg.root, dir).value.comps + [filename])| > |Text(cfg.root)|
  {
    var d := Resolve(st.fs, cfg.root, dir).value;
    AcceptedIsNoAncestor(st.fs, cfg.root, dir);
    TrailingIsIrrelevant(cfg.root, d.comps);
    assert PathText(d.comps) + [] == PathText(d.comps);
    TextAppend(d.comps, [filename]);
  }

  lemma BeginAtKeepsRoot(cfg: Config, st: State, id: uint64, dir: Resolved, filename: Str, size: uint64, hash: Str)
    requires Valid(st.fs) && IsDir(st.fs, cfg.root) && TargetsBehindRoot(cfg, st)
    requires |Text(dir.comps + [filename])| > |Text(cfg.root)|
    ensures var st' := BeginAt(st, cfg.hasher, id, dir, filename, size, hash).st;
      IsDir(st'.fs, cfg.root) && TargetsBehindRoot(cfg, st')
  {
    BeginAtShape(st, cfg.hasher, id, dir, filename, size, hash);
    var r := BeginAt(st, cfg.hasher, id, dir, filename, size, hash);
    assert cfg.root != dir.comps + [filename];
    assert r.ok ==> r.st.sessions[id].target == dir.comps + [filename];
  }

  lemma BeginKeepsRoot(cfg: Config, st: State, q: Request)
    requires GoodConfig(cfg) && Valid(st.fs) && IsDir(st.fs, cfg.root) && TargetsBehindRoot(cfg, st) && q.BeginUpload?
    ensures IsDir(Apply(cfg, st, q).st.fs, cfg.root) && TargetsBehindRoot(cfg, Apply(cfg, st, q).st)
  {
    hide Resolve, BeginAt;
    var resolved := Resolve(st.fs, cfg.root, q.remoteDir);
    if resolved.Some? {
      BeginTargetBehindRoot(cfg, st, q.remoteDir, q.filename);
      BeginAtKeepsRoot(cfg, st, q.id, resolved.value, q.filename, q.size, q.hash);
    }
  }

  lemma WriteKeepsRoot(cfg: Config, st: State, id: uint64, offset: uint64, data: seq<byte>)
    requires IsDir(st.fs, cfg.root) && TargetsBehindRoot(cfg, st)
    ensures var st' := WriteChunk(st, cfg.hasher, id, offset, data).st;
      IsDir(st'.fs, cfg.root) && TargetsBehindRoot(cfg, st')
  {
    hide Overlay, Text;
  }

  lemma FinishKeepsRoot(cfg: Config, st: State, id: uint64)
    requires IsDir(st.fs, cfg.root) && TargetsBehindRoot(cfg, st)
    ensures var st' := Finish(st, cfg.hasher, id).st;
      IsDir(st'.fs, cfg.root) && TargetsBehindRoot(cfg, st')
  {
    hide HasChild, Text;
  }

  lemma RenameStepKeepsRootExactly(cfg: Config, fs: FS, a: Str, b: Str)
    requires GoodConfig(cfg) && Valid(fs) && IsDir(fs, cfg.root)
    ensures IsDir(Rename(fs, cfg.root, a, b).fs, cfg.root) <==>
            !(ResolvesToOpenRoot(fs, cfg.root, a) && RenameAllowed(fs, cfg.root, a, b))
  {
    hide Rename, RenameAllowed, ResolvesToOpenRoot, Valid;
    RenameIsSubtreeMove(fs, cfg.root, a, b);
    if Rename(fs, cfg.root, a, b).ok {
      RenameKeepsRootExactly(fs, cfg.root, a, b);
    }
  }

  /** One request keeps the storage root a directory exactly unless it is one of those. */
  lemma StepKeepsRootExactly(cfg: Config, st: State, q: Request)
    requires GoodConfig(cfg) && Valid(st.fs) && IsDir(st.fs, cfg.root) && TargetsBehindRoot(cfg, st)
    ensures IsDir(Apply(cfg, st, q).st.fs, cfg.root) <==> !RemovesRoot(cfg, st, q)
    ensures TargetsBehindRoot(cfg, Apply(cfg, st, q).st)
  {
    hide Resolve, Rename, Delete, RemoveDir, MakeDir, Begin, WriteChunk, Finish, ResolvesToOpenRoot, RenameAllowed;
    match q
    case BeginUpload(_, _, _, _, _) => BeginKeepsRoot(cfg, st, q);
    case UploadChunk(id, offset, data) => WriteKeepsRoot(cfg, st, id, offset, data);
    case EndUpload(id) => FinishKeepsRoot(cfg, st, id);
    case Mkdir(path) => MakeDirAddsMissingPrefixes(st.fs, cfg.root, path);
    case Rmdir(path) => DeleteKeepsRootExactly(st.fs, cfg.root, path);
    case DeletePath(path) => DeleteKeepsRootExactly(st.fs, cfg.root, path);
    case RenamePath(a, b) => RenameStepKeepsRootExactly(cfg, st.fs, a, b);
  }

  ghost predicate RootIsSpared(cfg: Config, st: State, qs: seq<Request>)
    decreases |qs|
  {
    qs == [] || (!RemovesRoot(cfg, st, qs[0]) && RootIsSpared(cfg, Apply(cfg, st, qs[0]).st, qs[1..]))
  }

  lemma {:induction false} RootSurvivesRun(cfg: Config, st: State, qs: seq<Request>)
    requires GoodConfig(cfg) && Valid(st.fs) && SessionsOpen(st)
    requires IsDir(st.fs, cfg.root) && TargetsBehindRoot(cfg, st) && RootIsSpared(cfg, st, qs)
    ensures IsDir(Run(cfg, st, qs).fs, cfg.root)
    decreases |qs|
  {
    if qs != [] {
      StepKeepsTree(cfg, st, qs[0]);
      StepKeepsRootExactly(cfg, st, qs[0]);
      RootSurvivesRun(cfg, Apply(cfg, st, qs[0]).st, qs[1..]);
    }
  }
}
