/** One upload session among everything else the server does: who can disturb it, and what then becomes of its file. */
module SessionRuns {
  import opened Bytes
  import opened Digest
  import opened Paths
  import opened FileSystem
  import opened StorageServices
  import opened Uploads
  import opened UploadRuns

  /** All that decides how a session's own requests are answered. */
  datatype View =
    | Gone
    | Live(size: uint64, received: uint64, hash: Str, active: bool, pos: nat, ctx: seq<byte>, content: seq<byte>)

  function ViewOf(st: State, id: uint64): View {
    if id !in st.sessions then Gone else
    var s := st.sessions[id];
    Live(s.expectedSize, s.receivedBytes, s.expectedHash, s.active, s.pos, s.ctx, Content(st.fs, s.ino))
  }

  /** A chunk or the end of this session. */
  predicate Own(q: Request, id: uint64) {
    (q.UploadChunk? || q.EndUpload?) && q.id == id
  }

  predicate Opens(q: Request, id: uint64) {
    q.BeginUpload? && q.id == id
  }

  /** Nobody else is on the session's inode. */
  ghost predicate Alone(st: State, id: uint64) {
    id in st.sessions ==> forall x | x in st.sessions && x != id :: st.sessions[x].ino != st.sessions[id].ino
  }

  /** The request opens a session of this id, or another session on its inode. */
  ghost predicate Intrudes(cfg: Config, st: State, q: Request, id: uint64) {
    && q.BeginUpload? && Openable(st, cfg.root, q.id, q.remoteDir, q.filename)
    && (q.id == id ||
        (id in st.sessions &&
         var p := Resolve(st.fs, cfg.root, q.remoteDir).value.comps + [q.filename];
         IsFile(st.fs, p) && st.fs.tree[p].ino == st.sessions[id].ino))
  }

  /** The disk is in order, and a session that is on its own there. */
  ghost predicate OnItsOwn(st: State, id: uint64) {
    Valid(st.fs) && SessionsOpen(st) && Alone(st, id)
  }

  // ---- what a session sees of the others ----

  /**
   * Requests that are neither the session's own nor an intrusion leave its view alone, whatever the other sessions are
   * and do to each other.
   */
  lemma ForeignRequestsAreInvisible(cfg: Config, st: State, q: Request, id: uint64)
    requires GoodConfig(cfg) && OnItsOwn(st, id) && !Own(q, id) && !Intrudes(cfg, st, q, id)
    ensures ViewOf(Apply(cfg, st, q).st, id) == ViewOf(st, id)
    ensures OnItsOwn(Apply(cfg, st, q).st, id)
  {
    StepKeepsTree(cfg, st, q);
    hide Resolve, Rename, Delete, MakeDir, RemoveDir, Begin, Valid;
    match q
    case BeginUpload(_, _, _, _, _) => ForeignBegin(cfg, st, q, id);
    case UploadChunk(_, _, _) => ForeignChunk(st, cfg.hasher, q, id);
    case EndUpload(other) => ForeignEnd(st, cfg.hasher, other, id);
    case _ => TreeRequestsKeepContents(cfg, st, q);
  }

  lemma ForeignBegin(cfg: Config, st: State, q: Request, id: uint64)
    requires GoodConfig(cfg) && OnItsOwn(st, id) && q.BeginUpload? && !Intrudes(cfg, st, q, id)
    ensures ViewOf(Apply(cfg, st, q).st, id) == ViewOf(st, id)
    ensures Alone(Apply(cfg, st, q).st, id)
  {
    BeginShape(cfg, st, q);
    BeginAcceptsExactly(st, cfg.root, cfg.hasher, q.id, q.remoteDir, q.filename, q.size, q.hash);
    assert Apply(cfg, st, q).ok <==> Openable(st, cfg.root, q.id, q.remoteDir, q.filename);
    hide Apply, Resolve, Openable, Valid;
  }

  lemma ForeignChunk(st: State, h: Hasher, q: Request, id: uint64)
    requires q.UploadChunk? && q.id != id && Alone(st, id)
    ensures var st' := WriteChunk(st, h, q.id, q.offset, q.data).st;
      ViewOf(st', id) == ViewOf(st, id) && Alone(st', id)
  {
    hide Overlay;
  }

  lemma ForeignEnd(st: State, h: Hasher, other: uint64, id: uint64)
    requires other != id && Alone(st, id)
    ensures var st' := Finish(st, h, other).st;
      ViewOf(st', id) == ViewOf(st, id) && Alone(st', id) && st'.fs.data == st.fs.data
  {
    hide Hex, HasChild, HashMatches;
  }

  lemma OwnChunk(h: Hasher, a: State, b: State, id: uint64, offset: uint64, data: seq<byte>)
    requires ViewOf(a, id) == ViewOf(b, id)
    ensures var ra, rb := WriteChunk(a, h, id, offset, data), WriteChunk(b, h, id, offset, data);
      ra.ok == rb.ok && ra.error == rb.error && ViewOf(ra.st, id) == ViewOf(rb.st, id)
  {
  }

  lemma OwnEnd(h: Hasher, a: State, b: State, id: uint64)
    requires ViewOf(a, id) == ViewOf(b, id)
    ensures var ra, rb := Finish(a, h, id), Finish(b, h, id);
      ra.ok == rb.ok && ra.error == rb.error && ViewOf(ra.st, id) == ViewOf(rb.st, id)
  {
  }

  /** The session's own requests are answered from its view alone. */
  lemma OwnRequestsSeeOnlyTheView(cfg: Config, a: State, b: State, q: Request, id: uint64)
    requires Own(q, id) && ViewOf(a, id) == ViewOf(b, id)
    ensures Apply(cfg, a, q).ok == Apply(cfg, b, q).ok && Apply(cfg, a, q).error == Apply(cfg, b, q).error
    ensures ViewOf(Apply(cfg, a, q).st, id) == ViewOf(Apply(cfg, b, q).st, id)
  {
    if q.UploadChunk? {
      OwnChunk(cfg.hasher, a, b, id, q.offset, q.data);
    } else {
      OwnEnd(cfg.hasher, a, b, id);
    }
  }

  lemma OwnRequestsKeepAlone(cfg: Config, st: State, q: Request, id: uint64)
    requires Own(q, id) && Alone(st, id)
    ensures Alone(Apply(cfg, st, q).st, id)
  {
    hide Overlay, Hex;
  }

  function Only(qs: seq<Request>, id: uint64): seq<Request> {
    if qs == [] then [] else (if Own(qs[0], id) then [qs[0]] else []) + Only(qs[1..], id)
  }

  /** The answers to the session's own requests, in order. */
  function Answers(cfg: Config, st: State, qs: seq<Request>, id: uint64): seq<(bool, Str)>
    decreases |qs|
  {
    if qs == [] then [] else
    var r := Apply(cfg, st, qs[0]);
    (if Own(qs[0], id) then [(r.ok, r.error)] else []) + Answers(cfg, r.st, qs[1..], id)
  }

  /** No request of the run intrudes on the session. */
  ghost predicate Unintruded(cfg: Config, st: State, qs: seq<Request>, id: uint64)
    decreases |qs|
  {
    qs == [] || (!Intrudes(cfg, st, qs[0], id) && Unintruded(cfg, Apply(cfg, st, qs[0]).st, qs[1..], id))
  }

  /** While a session is live every attempt to open its id again is refused, and leaves disk and table alone. */
  lemma LiveSessionIsNotReopened(cfg: Config, st: State, q: Request, id: uint64)
    requires id in st.sessions && Opens(q, id)
    ensures !Apply(cfg, st, q).ok && Apply(cfg, st, q).st == st
  {
  }

  /**
   * Non-interference: the answers to a session's requests and its stored bytes, in any interleaving with other sessions
   * and with mkdir, rmdir, delete and rename that does not intrude on it, are those of running its own requests alone.
   */
  lemma {:induction false} SessionsDoNotInterfere(cfg: Config, st: State, alone: State, qs: seq<Request>, id: uint64)
    requires GoodConfig(cfg) && OnItsOwn(st, id) && Unintruded(cfg, st, qs, id)
    requires ViewOf(st, id) == ViewOf(alone, id)
    ensures Answers(cfg, st, qs, id) == Answers(cfg, alone, Only(qs, id), id)
    ensures ViewOf(Run(cfg, st, qs), id) == ViewOf(Run(cfg, alone, Only(qs, id)), id)
    decreases |qs|
  {
    if qs != [] {
      var q := qs[0];
      var st' := Apply(cfg, st, q).st;
      StepKeepsTree(cfg, st, q);
      if Own(q, id) {
        OwnRequestsKeepAlone(cfg, st, q, id);
        OwnRequestsSeeOnlyTheView(cfg, st, alone, q, id);
        SessionsDoNotInterfere(cfg, st', Apply(cfg, alone, q).st, qs[1..], id);
        assert Only(qs, id)[1..] == Only(qs[1..], id);
      } else {
        ForeignRequestsAreInvisible(cfg, st, q, id);
        SessionsDoNotInterfere(cfg, st', alone, qs[1..], id);
        assert Only(qs, id) == Only(qs[1..], id);
      }
    }
  }

  // ---- what a session has stored ----

  /** The bytes of the session's accepted chunks, in order. */
  function Accepted(cfg: Config, st: State, qs: seq<Request>, id: uint64): seq<byte>
    decreases |qs|
  {
    if qs == [] then [] else
    var r := Apply(cfg, st, qs[0]);
    (if qs[0].UploadChunk? && qs[0].id == id && r.ok then qs[0].data else []) + Accepted(cfg, r.st, qs[1..], id)
  }

  /** The session, if it is live, is consistent in itself. */
  ghost predicate OwnOk(st: State, h: Hasher, id: uint64) {
    id in st.sessions ==> SessionOk(st.fs, h, st.sessions[id])
  }

  lemma OneStepOfContent(cfg: Config, st: State, q: Request, id: uint64)
    requires GoodConfig(cfg) && OnItsOwn(st, id) && OwnOk(st, cfg.hasher, id)
    requires ChunkFits(q) && !Intrudes(cfg, st, q, id)
    ensures OnItsOwn(Apply(cfg, st, q).st, id) && OwnOk(Apply(cfg, st, q).st, cfg.hasher, id)
    ensures id in Apply(cfg, st, q).st.sessions ==>
      && id in st.sessions
      && var v := ViewOf(Apply(cfg, st, q).st, id);
      && v.size == ViewOf(st, id).size
      && v.content == ViewOf(st, id).content
                      + if q.UploadChunk? && q.id == id && Apply(cfg, st, q).ok then q.data else []
  {
    hide Valid;
    StepKeepsTree(cfg, st, q);
    if Own(q, id) {
      OwnRequestsKeepAlone(cfg, st, q, id);
      if q.UploadChunk? && id in st.sessions {
        OwnChunkAppends(st, cfg.hasher, id, q.offset, q.data);
      }
    } else {
      ForeignRequestsAreInvisible(cfg, st, q, id);
      var st' := Apply(cfg, st, q).st;
      assert id in st'.sessions ==> st'.sessions[id].ino in st'.fs.data;
      hide Apply;
      assert ViewOf(st', id) == ViewOf(st, id);
    }
  }

  /** A session that is still live has stored, counted and digested exactly its accepted chunks. */
  lemma {:induction false} LiveSessionIsItsAcceptedChunks(cfg: Config, st: State, qs: seq<Request>, id: uint64)
    requires GoodConfig(cfg) && OnItsOwn(st, id) && OwnOk(st, cfg.hasher, id)
    requires ChunksFit(qs) && Unintruded(cfg, st, qs, id)
    requires id in Run(cfg, st, qs).sessions
    ensures id in st.sessions
    ensures OnItsOwn(Run(cfg, st, qs), id)
    ensures var v := ViewOf(Run(cfg, st, qs), id);
      && v.content == ViewOf(st, id).content + Accepted(cfg, st, qs, id)
      && v.received == |v.content| <= v.size == ViewOf(st, id).size
      && v.ctx == Absorb(cfg.hasher, v.content)
    ensures OwnOk(Run(cfg, st, qs), cfg.hasher, id)
    decreases |qs|
  {
    if qs == [] {
      var c := Content(st.fs, st.sessions[id].ino);
      assert c + [] == c;
    } else {
      var q := qs[0];
      var r := Apply(cfg, st, q);
      OneStepOfContent(cfg, st, q, id);
      LiveSessionIsItsAcceptedChunks(cfg, r.st, qs[1..], id);
      hide Apply, OnItsOwn, OwnOk;
      var d: seq<byte> := if q.UploadChunk? && q.id == id && r.ok then q.data else [];
      Associate(ViewOf(st, id).content, d, Accepted(cfg, r.st, qs[1..], id));
    }
  }

  // ---- what becomes of its file ----

  /** The session's target still names the inode it writes to. */
  ghost predicate Attached(st: State, id: uint64) {
    id in st.sessions && IsFile(st.fs, st.sessions[id].target)
    && st.fs.tree[st.sessions[id].target] == File(st.sessions[id].ino)
  }

  /** What UPLOAD_END looks at. */
  predicate Passes(h: Hasher, s: Session) {
    && s.receivedBytes == s.expectedSize
    && (s.expectedHash == [] || HashMatches(Hex(h.final(s.ctx)), s.expectedHash))
  }

  /**
   * The requests of others that take a live session's stored bytes away from its target: opening the target again when
   * something is stored, deleting it, renaming it or a directory above it, and the failed end of an older session that
   * was opened on the same path.
   */
  ghost predicate Disturbs(cfg: Config, st: State, q: Request, id: uint64) {
    id in st.sessions &&
    var s := st.sessions[id];
    match q
    case BeginUpload(x, dir, filename, _, _) =>
      && Openable(st, cfg.root, x, dir, filename)
      && Resolve(st.fs, cfg.root, dir).value.comps + [filename] == s.target
      && Content(st.fs, s.ino) != []
    case DeletePath(path) =>
      RemovableAt(st.fs, cfg.root, path) && Resolve(st.fs, cfg.root, path).value.comps == s.target
    case RenamePath(a, b) =>
      RenameAllowed(st.fs, cfg.root, a, b) && Resolve(st.fs, cfg.root, a).value.comps <= s.target
    case EndUpload(x) =>
      && x in st.sessions && st.sessions[x].active
      && st.sessions[x].target == s.target && !Passes(cfg.hasher, st.sessions[x])
    case _ => false
  }

  /** One request of somebody else keeps a live session's stored bytes at its target exactly unless it disturbs it. */
  lemma StepKeepsTargetExactly(cfg: Config, st: State, q: Request, id: uint64)
    requires GoodConfig(cfg) && OnItsOwn(st, id) && Attached(st, id) && !Own(q, id)
    ensures var s := st.sessions[id];
      HoldsFile(Apply(cfg, st, q).st.fs, s.target, Content(st.fs, s.ino)) <==> !Disturbs(cfg, st, q, id)
  {
    hide Resolve, Rename, Delete, MakeDir, RemoveDir, Begin, Openable, RemovableAt, RenameAllowed, Valid;
    match q
    case BeginUpload(_, _, _, _, _) => BeginKeepsTargetExactly(cfg, st, q, id);
    case UploadChunk(_, _, _) => ChunkKeepsTarget(st, cfg.hasher, q, id);
    case EndUpload(x) => EndKeepsTargetExactly(cfg, st, x, id);
    case Mkdir(path) => MakeDirAddsMissingPrefixes(st.fs, cfg.root, path);
    case Rmdir(path) => RmdirKeepsFiles(st.fs, cfg.root, path, st.sessions[id].target);
    case DeletePath(path) => DeleteKeepsFileExactly(st.fs, cfg.root, path, st.sessions[id].target);
    case RenamePath(a, b) => RenameKeepsFileExactly(st.fs, cfg.root, a, b, st.sessions[id].target);
  }

  lemma BeginKeepsTargetExactly(cfg: Config, st: State, q: Request, id: uint64)
    requires GoodConfig(cfg) && OnItsOwn(st, id) && Attached(st, id) && q.BeginUpload?
    ensures var s := st.sessions[id];
      HoldsFile(Apply(cfg, st, q).st.fs, s.target, Content(st.fs, s.ino)) <==> !Disturbs(cfg, st, q, id)
  {
    BeginShape(cfg, st, q);
    BeginAcceptsExactly(st, cfg.root, cfg.hasher, q.id, q.remoteDir, q.filename, q.size, q.hash);
    assert Apply(cfg, st, q).ok <==> Openable(st, cfg.root, q.id, q.remoteDir, q.filename);
    assert InodesValid(st.fs);
    hide Apply, Resolve, Openable, Valid;
  }

  lemma ChunkKeepsTarget(st: State, h: Hasher, q: Request, id: uint64)
    requires q.UploadChunk? && q.id != id && OnItsOwn(st, id) && Attached(st, id)
    ensures var s := st.sessions[id];
      HoldsFile(WriteChunk(st, h, q.id, q.offset, q.data).st.fs, s.target, Content(st.fs, s.ino))
  {
    hide Overlay;
  }

  lemma EndKeepsTargetExactly(cfg: Config, st: State, x: uint64, id: uint64)
    requires x != id && OnItsOwn(st, id) && Attached(st, id)
    ensures var s := st.sessions[id];
      var fs' := Finish(st, cfg.hasher, x).st.fs;
      HoldsFile(fs', s.target, Content(st.fs, s.ino)) <==> !Disturbs(cfg, st, EndUpload(x), id)
  {
    hide Hex, Valid, Remove, Passes;
    EndTakesAway(st, cfg.hasher, x);
    if x in st.sessions {
      RemoveKeepsFileExactly(st.fs, st.sessions[x].target, st.sessions[id].target);
    }
    hide Finish;
  }

  /** The end of a session takes its target away exactly if it fails. */
  lemma EndTakesAway(st: State, h: Hasher, x: uint64)
    ensures Finish(st, h, x).st.fs ==
      if x in st.sessions && st.sessions[x].active && !Passes(h, st.sessions[x])
      then Remove(st.fs, Resolved(st.sessions[x].target, false)).0 else st.fs
  {
    hide Hex, Remove;
  }

  lemma RemoveKeepsFileExactly(fs: FS, target: Path, p: Path)
    requires Valid(fs) && IsFile(fs, p)
    ensures var fs' := Remove(fs, Resolved(target, false)).0;
      && (p in fs'.tree <==> target != p)
      && (p in fs'.tree ==> fs'.tree[p] == fs.tree[p])
      && fs'.data == fs.data
  {
    FilesHaveNoChildren(fs, p);
    assert IsDir(fs, []);
    hide HasChild;
  }

  lemma RmdirKeepsFiles(fs: FS, root: Path, path: Str, p: Path)
    requires Valid(fs) && GoodRoot(root) && IsFile(fs, p)
    ensures var fs' := RemoveDir(fs, root, path).fs;
      p in fs'.tree && fs'.tree[p] == fs.tree[p] && fs'.data == fs.data
  {
    DeleteRemovesOneChildlessEntry(fs, root, path);
    RemoveDirIsDeleteOfDirectory(fs, root, path);
    hide Resolve, Delete, RemoveDir, RemovableAt;
  }

  lemma DeleteKeepsFileExactly(fs: FS, root: Path, path: Str, p: Path)
    requires Valid(fs) && GoodRoot(root) && IsFile(fs, p)
    ensures var fs' := Delete(fs, root, path).fs;
      && (p in fs'.tree <==> !(RemovableAt(fs, root, path) && Resolve(fs, root, path).value.comps == p))
      && (p in fs'.tree ==> fs'.tree[p] == fs.tree[p])
      && fs'.data == fs.data
  {
    DeleteRemovesOneChildlessEntry(fs, root, path);
    hide Resolve, Delete;
  }

  lemma RenameKeepsFileExactly(fs: FS, root: Path, a: Str, b: Str, p: Path)
    requires Valid(fs) && GoodRoot(root) && IsFile(fs, p)
    ensures var fs' := Rename(fs, root, a, b).fs;
      && (p in fs'.tree <==> !(RenameAllowed(fs, root, a, b) && Resolve(fs, root, a).value.comps <= p))
      && (p in fs'.tree ==> fs'.tree[p] == fs.tree[p])
      && fs'.data == fs.data
  {
    RenameIsSubtreeMove(fs, root, a, b);
    hide Resolve, Rename, Moved;
    if RenameAllowed(fs, root, a, b) {
      var src, dst := Resolve(fs, root, a).value.comps, Resolve(fs, root, b).value.comps;
      NothingBelowMissing(fs, dst, p);
      MovedOutside(fs, src, dst, p);
    }
  }

  /** No request of the run intrudes on the session or disturbs its target, up to the end of the session. */
  ghost predicate LeftAlone(cfg: Config, st: State, qs: seq<Request>, id: uint64)
    decreases |qs|
  {
    qs == [] ||
    (!Intrudes(cfg, st, qs[0], id) && (Own(qs[0], id) || !Disturbs(cfg, st, qs[0], id))
     && LeftAlone(cfg, Apply(cfg, st, qs[0]).st, qs[1..], id))
  }

  lemma StepKeepsAttached(cfg: Config, st: State, q: Request, id: uint64)
    requires GoodConfig(cfg) && OnItsOwn(st, id) && Attached(st, id) && !Intrudes(cfg, st, q, id)
    requires Own(q, id) || !Disturbs(cfg, st, q, id)
    requires id in Apply(cfg, st, q).st.sessions
    ensures Attached(Apply(cfg, st, q).st, id)
    ensures Apply(cfg, st, q).st.sessions[id].target == st.sessions[id].target
  {
    if Own(q, id) {
      hide Overlay, Hex, Valid;
    } else {
      StepKeepsTargetExactly(cfg, st, q, id);
      SessionKeepsPlace(cfg, st, q, id);
      TargetNamesOldInode(cfg, st, q, id);
    }
  }

  lemma SessionKeepsPlace(cfg: Config, st: State, q: Request, id: uint64)
    requires GoodConfig(cfg) && Valid(st.fs) && id in st.sessions && !Own(q, id)
    ensures id in Apply(cfg, st, q).st.sessions && Apply(cfg, st, q).st.sessions[id] == st.sessions[id]
  {
    hide Resolve, Rename, Delete, MakeDir, RemoveDir, Valid, Overlay, Hex;
    if q.BeginUpload? {
      BeginShape(cfg, st, q);
    }
  }

  /** A request of somebody else never puts another inode at a path that keeps being a file. */
  lemma TargetNamesOldInode(cfg: Config, st: State, q: Request, id: uint64)
    requires GoodConfig(cfg) && OnItsOwn(st, id) && Attached(st, id) && !Own(q, id)
    requires IsFile(Apply(cfg, st, q).st.fs, st.sessions[id].target)
    ensures Apply(cfg, st, q).st.fs.tree[st.sessions[id].target] == File(st.sessions[id].ino)
  {
    hide Resolve, Rename, Delete, MakeDir, RemoveDir, Begin, RemovableAt, RenameAllowed, Valid, Overlay, Hex;
    var p := st.sessions[id].target;
    match q
    case BeginUpload(_, _, _, _, _) => BeginShape(cfg, st, q);
    case UploadChunk(_, _, _) =>
    case EndUpload(_) =>
    case Mkdir(path) => MakeDirAddsMissingPrefixes(st.fs, cfg.root, path);
    case Rmdir(path) => RmdirKeepsFiles(st.fs, cfg.root, path, p);
    case DeletePath(path) => DeleteKeepsFileExactly(st.fs, cfg.root, path, p);
    case RenamePath(a, b) => RenameKeepsFileExactly(st.fs, cfg.root, a, b, p);
  }

  lemma {:induction false} RunKeepsAttached(cfg: Config, st: State, qs: seq<Request>, id: uint64)
    requires GoodConfig(cfg) && OnItsOwn(st, id) && OwnOk(st, cfg.hasher, id) && Attached(st, id)
    requires ChunksFit(qs) && LeftAlone(cfg, st, qs, id) && id in Run(cfg, st, qs).sessions
    ensures Unintruded(cfg, st, qs, id)
    ensures Attached(Run(cfg, st, qs), id) && Run(cfg, st, qs).sessions[id].target == st.sessions[id].target
    decreases |qs|
  {
    if qs != [] {
      var st' := Apply(cfg, st, qs[0]).st;
      OneStepOfContent(cfg, st, qs[0], id);
      if id !in st'.sessions {
        GoneStaysGone(cfg, st', qs[1..], id);
      }
      StepKeepsAttached(cfg, st, qs[0], id);
      hide Apply, OnItsOwn, OwnOk, Attached, Intrudes, Disturbs;
      RunKeepsAttached(cfg, st', qs[1..], id);
    }
  }

  lemma {:induction false} GoneStaysGone(cfg: Config, st: State, qs: seq<Request>, id: uint64)
    requires GoodConfig(cfg) && OnItsOwn(st, id) && ChunksFit(qs) && LeftAlone(cfg, st, qs, id)
    requires id !in st.sessions
    ensures id !in Run(cfg, st, qs).sessions
    decreases |qs|
  {
    if qs != [] {
      OneStepOfContent(cfg, st, qs[0], id);
      hide Apply, OnItsOwn;
      GoneStaysGone(cfg, Apply(cfg, st, qs[0]).st, qs[1..], id);
    }
  }

  /**
   * An upload that is left alone is there: after any run the target holds the accepted chunks, and the UPLOAD_END that
   * is answered with success leaves them there, with the announced size and digest.
   */
  lemma FinishedUploadIsThere(cfg: Config, st: State, qs: seq<Request>, id: uint64)
    returns (end: State, content: seq<byte>)
    requires GoodConfig(cfg) && OnItsOwn(st, id) && OwnOk(st, cfg.hasher, id) && Attached(st, id)
    requires ChunksFit(qs) && LeftAlone(cfg, st, qs, id) && id in Run(cfg, st, qs).sessions
    ensures end == Run(cfg, st, qs) && content == ViewOf(st, id).content + Accepted(cfg, st, qs, id)
    ensures HoldsFile(end.fs, st.sessions[id].target, content)
    ensures var r := Apply(cfg, end, EndUpload(id));
      && (r.ok <==> Verified(end, cfg.hasher, id))
      && (r.ok ==> HoldsFile(r.st.fs, st.sessions[id].target, content) && |content| == end.sessions[id].expectedSize)
  {
    end := Run(cfg, st, qs);
    content := ViewOf(st, id).content + Accepted(cfg, st, qs, id);
    RunKeepsAttached(cfg, st, qs, id);
    LiveSessionIsItsAcceptedChunks(cfg, st, qs, id);
    OwnFinishVerifies(end, cfg.hasher, id);
    EndIsFinish(cfg, end, id);
    hide Apply, Finish, Run, Accepted;
  }

  // ---- uploads that succeed without their file ----

  /**
   * A delete of the target, or a rename of it or of a directory above it, just before UPLOAD_END: the end of the upload
   * is answered with success, and the target is not there.
   */
  lemma UploadSucceedsWithoutItsFile(cfg: Config, st: State, q: Request, id: uint64) returns (st': State)
    requires GoodConfig(cfg) && OnItsOwn(st, id) && Attached(st, id)
    requires Tracks(st.fs, cfg.hasher, st.sessions[id]) && Verified(st, cfg.hasher, id)
    requires (q.DeletePath? || q.RenamePath?) && Disturbs(cfg, st, q, id)
    ensures Apply(cfg, st, q).ok && st' == Apply(cfg, st, q).st
    ensures Apply(cfg, st', EndUpload(id)).ok
    ensures st.sessions[id].target !in Apply(cfg, st', EndUpload(id)).st.fs.tree
  {
    hide Apply, Valid, Disturbs, Finish, Verified;
    st' := Apply(cfg, st, q).st;
    TreeRequestTakesTarget(cfg, st, q, id);
    TreeRequestsKeepContents(cfg, st, q);
    assert Verified(st', cfg.hasher, id) by { VerifiedByContents(st, st', cfg.hasher, id); }
    OwnFinishVerifies(st', cfg.hasher, id);
    EndIsFinish(cfg, st', id);
  }

  lemma TreeRequestTakesTarget(cfg: Config, st: State, q: Request, id: uint64)
    requires GoodConfig(cfg) && OnItsOwn(st, id) && Attached(st, id)
    requires (q.DeletePath? || q.RenamePath?) && Disturbs(cfg, st, q, id)
    ensures Apply(cfg, st, q).ok && st.sessions[id].target !in Apply(cfg, st, q).st.fs.tree
  {
    hide Resolve, Rename, Delete, RemovableAt, RenameAllowed, Valid;
    var p := st.sessions[id].target;
    if q.DeletePath? {
      DeleteRemovesOneChildlessEntry(st.fs, cfg.root, q.path);
      DeleteKeepsFileExactly(st.fs, cfg.root, q.path, p);
    } else {
      RenameIsSubtreeMove(st.fs, cfg.root, q.source, q.destination);
      RenameKeepsFileExactly(st.fs, cfg.root, q.source, q.destination, p);
    }
  }

  lemma VerifiedByContents(a: State, b: State, h: Hasher, id: uint64)
    requires id in a.sessions && a.sessions == b.sessions && a.fs.data == b.fs.data && Verified(a, h, id)
    ensures Verified(b, h, id)
  {
  }

  /** Whoever has the file at this path open has stored nothing in it yet. */
  ghost predicate NothingStoredAt(st: State, p: Path) {
    IsFile(st.fs, p) ==>
      forall id | id in st.sessions && st.sessions[id].ino == st.fs.tree[p].ino ::
        Content(st.fs, st.sessions[id].ino) == []
  }

  /**
   * An UPLOAD_BEGIN is invisible to the live sessions exactly unless it truncates bytes that one of them has stored.
   */
  lemma BeginIsInvisibleExactly(cfg: Config, st: State, q: Request)
    requires GoodConfig(cfg) && Valid(st.fs) && q.BeginUpload?
    ensures (forall id | id in st.sessions :: ViewOf(Apply(cfg, st, q).st, id) == ViewOf(st, id)) <==>
            (Openable(st, cfg.root, q.id, q.remoteDir, q.filename) ==>
               NothingStoredAt(st, Resolve(st.fs, cfg.root, q.remoteDir).value.comps + [q.filename]))
  {
    var r := Apply(cfg, st, q);
    BeginAcceptsExactly(st, cfg.root, cfg.hasher, q.id, q.remoteDir, q.filename, q.size, q.hash);
    BeginShape(cfg, st, q);
    assert r.ok <==> Openable(st, cfg.root, q.id, q.remoteDir, q.filename);
    hide Apply, Resolve, Openable, Valid;
    if r.ok {
      var s := r.st.sessions[q.id];
      assert NothingStoredAt(st, s.target) <==> forall id | id in st.sessions && st.sessions[id].ino == s.ino ::
                                                 Content(st.fs, st.sessions[id].ino) == [];
      forall id | id in st.sessions
        ensures ViewOf(r.st, id) == ViewOf(st, id) <==>
                (st.sessions[id].ino == s.ino ==> Content(st.fs, st.sessions[id].ino) == [])
      {
        assert id != q.id && r.st.sessions[id] == st.sessions[id];
      }
    }
  }

  /**
   * Two sessions on one target. Session a stores its bytes, then b opens the same target: UPLOAD_END of a is answered
   * with success, under the digest of the bytes that were sent, and the target is empty.
   */
  lemma SharedTargetLosesUpload(cfg: Config, st: State, a: uint64, b: uint64, dir: Str, filename: Str, data: seq<byte>,
                                size: uint64, hash: Str)
    returns (s1: State, s2: State, s3: State, target: Path)
    requires GoodConfig(cfg) && Valid(st.fs) && a != b && 0 < |data| < U32
    requires Openable(st, cfg.root, a, dir, filename) && b !in st.sessions
    ensures target == Resolve(st.fs, cfg.root, dir).value.comps + [filename]
    ensures Apply(cfg, st, BeginUpload(a, dir, filename, |data|, Sha256Hex(cfg.hasher, data))) == Result(s1, true, [])
    ensures Apply(cfg, s1, UploadChunk(a, 0, data)) == Result(s2, true, [])
    ensures Apply(cfg, s2, BeginUpload(b, dir, filename, size, hash)) == Result(s3, true, [])
    ensures HoldsFile(s2.fs, target, data)
    ensures Apply(cfg, s3, EndUpload(a)).ok && HoldsFile(Apply(cfg, s3, EndUpload(a)).st.fs, target, [])
  {
    hide Apply, Resolve, Streaming, Openable, Valid;
    var h := cfg.hasher;
    IsOpenable(cfg, st, a, dir, filename);
    target := Resolve(st.fs, cfg.root, dir).value.comps + [filename];
    s1, s2 := FirstUploadIsStored(cfg, st, a, dir, filename, data);
    TargetStaysOpenable(cfg, st, s2, b, dir, filename);
    s3 := SecondBeginTruncates(cfg, s2, a, b, dir, filename, size, hash);
    FullSessionFinishes(s3, h, a, data);
    EndIsFinish(cfg, s3, a);
  }

  lemma EndIsFinish(cfg: Config, st: State, id: uint64)
    ensures Apply(cfg, st, EndUpload(id)) == Finish(st, cfg.hasher, id)
  {
  }

  lemma IsOpenable(cfg: Config, st: State, id: uint64, dir: Str, filename: Str)
    requires Openable(st, cfg.root, id, dir, filename)
    ensures Resolve(st.fs, cfg.root, dir).Some? && IsName(filename) && BACKSLASH !in filename
  {
  }

  /** UPLOAD_END looks at the counter and the digest, not at the file. */
  lemma FullSessionFinishes(st: State, h: Hasher, id: uint64, data: seq<byte>)
    requires id in st.sessions && st.sessions[id].active
    requires st.sessions[id].receivedBytes == st.sessions[id].expectedSize && st.sessions[id].ctx == Absorb(h, data)
    requires st.sessions[id].expectedHash == Sha256Hex(h, data)
    ensures Finish(st, h, id) == Result(st.(sessions := st.sessions - {id}), true, [])
  {
  }

  /** The session has stored the bytes, and expects them. */
  ghost predicate Holds(st: State, h: Hasher, id: uint64, target: Path, data: seq<byte>) {
    && id in st.sessions
    && st.sessions[id].target == target
    && st.sessions[id].expectedSize == |data| && st.sessions[id].expectedHash == Sha256Hex(h, data)
    && Tracks(st.fs, h, st.sessions[id])
    && HoldsFile(st.fs, target, data) && st.fs.tree[target] == File(st.sessions[id].ino)
  }

  lemma FirstUploadIsStored(cfg: Config, st: State, a: uint64, dir: Str, filename: Str, data: seq<byte>)
    returns (s1: State, s2: State)
    requires GoodConfig(cfg) && Valid(st.fs) && |data| < U32
    requires Openable(st, cfg.root, a, dir, filename)
    ensures Apply(cfg, st, BeginUpload(a, dir, filename, |data|, Sha256Hex(cfg.hasher, data))) == Result(s1, true, [])
    ensures Apply(cfg, s1, UploadChunk(a, 0, data)) == Result(s2, true, [])
    ensures Valid(s2.fs) && s2.sessions.Keys == st.sessions.Keys + {a}
    ensures Holds(s2, cfg.hasher, a, Resolve(st.fs, cfg.root, dir).value.comps + [filename], data)
  {
    hide Apply, Resolve, Openable, Sha256Hex, Streaming, Tracks;
    s1 := BeginOpens(cfg, st, BeginUpload(a, dir, filename, |data|, Sha256Hex(cfg.hasher, data)));
    BeginShape(cfg, st, BeginUpload(a, dir, filename, |data|, Sha256Hex(cfg.hasher, data)));
    s2 := FirstChunkIsStored(cfg, s1, a, data);
  }

  lemma FirstChunkIsStored(cfg: Config, st: State, id: uint64, data: seq<byte>) returns (st': State)
    requires GoodConfig(cfg) && |data| < U32
    requires id in st.sessions && st.sessions[id].expectedSize == |data| && Tracks(st.fs, cfg.hasher, st.sessions[id])
    requires st.fs.data[st.sessions[id].ino] == []
    ensures Apply(cfg, st, UploadChunk(id, 0, data)) == Result(st', true, [])
    ensures st'.sessions.Keys == st.sessions.Keys && Tracks(st'.fs, cfg.hasher, st'.sessions[id])
    ensures st'.fs == st.fs.(data := st.fs.data[st.sessions[id].ino := data])
    ensures var s, s' := st.sessions[id], st'.sessions[id];
      s'.ino == s.ino && s'.target == s.target && s'.expectedSize == s.expectedSize && s'.expectedHash == s.expectedHash
  {
    OwnChunkAppends(st, cfg.hasher, id, 0, data);
    st' := WriteChunk(st, cfg.hasher, id, 0, data).st;
    assert [] + data == data;
  }

  lemma SecondBeginTruncates(cfg: Config, st: State, a: uint64, b: uint64, dir: Str, filename: Str, size: uint64,
                             hash: Str)
    returns (st': State)
    requires GoodConfig(cfg) && Valid(st.fs) && a in st.sessions && Openable(st, cfg.root, b, dir, filename)
    requires var target := Resolve(st.fs, cfg.root, dir).value.comps + [filename];
      IsFile(st.fs, target) && st.fs.tree[target] == File(st.sessions[a].ino)
    ensures Apply(cfg, st, BeginUpload(b, dir, filename, size, hash)) == Result(st', true, [])
    ensures a in st'.sessions && st'.sessions[a] == st.sessions[a]
    ensures HoldsFile(st'.fs, Resolve(st.fs, cfg.root, dir).value.comps + [filename], [])
  {
    var q := BeginUpload(b, dir, filename, size, hash);
    BeginAcceptsExactly(st, cfg.root, cfg.hasher, b, dir, filename, size, hash);
    BeginShape(cfg, st, q);
    assert Apply(cfg, st, q).ok;
    st' := Apply(cfg, st, q).st;
    hide Apply, Resolve, Openable, Valid;
  }

  lemma TargetStaysOpenable(cfg: Config, st: State, st': State, id: uint64, dir: Str, filename: Str)
    requires GoodConfig(cfg) && Valid(st'.fs) && id !in st'.sessions && IsName(filename) && BACKSLASH !in filename
    requires Resolve(st.fs, cfg.root, dir).Some?
    requires IsFile(st'.fs, Resolve(st.fs, cfg.root, dir).value.comps + [filename])
    ensures Openable(st', cfg.root, id, dir, filename)
    ensures Resolve(st'.fs, cfg.root, dir).value.comps == Resolve(st.fs, cfg.root, dir).value.comps
  {
    AcceptanceIgnoresTree(st.fs, st'.fs, cfg.root, dir);
    var p := Resolve(st.fs, cfg.root, dir).value.comps;
    var target := p + [filename];
    forall k | 0 <= k <= |p|
      ensures !IsFile(st'.fs, p[..k])
    {
      assert target[..k] == p[..k];
      PrefixesExist(st'.fs, target, k);
    }
  }
}
