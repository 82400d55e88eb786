/** UploadService: the table of upload sessions, and what it keeps over every interleaving. */
module Uploads {
  import opened Bytes
  import opened Digest
  import opened Paths
  import opened FileSystem
  import opened StorageServices

  datatype Session = Session(
    filename: Str,
    target: Path,
    expectedSize: uint64,
    receivedBytes: uint64,
    expectedHash: Str,
    ino: nat,          // the inode that file_stream has open
    pos: nat,          // the write position of file_stream
    ctx: seq<byte>,    // the digest context
    active: bool
  )

  /** The disk and the session table. */
  datatype State = State(fs: FS, sessions: map<uint64, Session>)

  datatype Result = Result(st: State, ok: bool, error: Str)

  function Refuse(st: State, error: string): Result {
    Result(st, false, Ascii(error))
  }

  const NO_SESSION := "No active upload session with specified ID"

  predicate BadFilename(filename: Str) {
    filename == [] || SLASH in filename || BACKSLASH in filename
  }

  /** The disk at the moment the target file is opened. */
  function WithDirectory(fs: FS, dir: Resolved): FS {
    if Exists(fs, dir) then fs else CreateDirectories(fs, dir.comps).0
  }

  function NewSession(h: Hasher, dir: Path, filename: Str, size: uint64, hash: Str, ino: nat): Session {
    Session(filename, dir + [filename], size, 0, hash, ino, 0, h.init, true)
  }

  function BeginAt(st: State, h: Hasher, id: uint64, dir: Resolved, filename: Str, size: uint64, hash: Str): Result {
    var fs := WithDirectory(st.fs, dir);
    match OpenTrunc(fs, dir.comps, filename)
    case None => Refuse(st.(fs := fs), "Could not open target file for writing")
    case Some((fs', ino)) =>
      Result(State(fs', st.sessions[id := NewSession(h, dir.comps, filename, size, hash, ino)]), true, [])
  }

  function Begin(st: State, root: Path, h: Hasher, id: uint64, remoteDir: Str, filename: Str, size: uint64,
                 hash: Str): Result {
    if id in st.sessions then Refuse(st, "Upload session already exists")
    else if BadFilename(filename) then Refuse(st, "Invalid filename") else
    match Resolve(st.fs, root, remoteDir)
    case None => Refuse(st, "Target path error: Path traversal attack detected")
    case Some(dir) => BeginAt(st, h, id, dir, filename, size, hash)
  }

  function WriteChunk(st: State, h: Hasher, id: uint64, offset: uint64, data: seq<byte>): Result {
    if id !in st.sessions || !st.sessions[id].active then Refuse(st, NO_SESSION) else
    var s := st.sessions[id];
    if offset != s.receivedBytes then Refuse(st, "Out-of-order chunk offset received")
    else if (s.receivedBytes + |data|) % U64 > s.expectedSize then
      Refuse(st, "Received bytes exceed expected file size")
    else
      var received := (s.receivedBytes + |data|) % U64;
      var s' := s.(receivedBytes := received, pos := s.pos + |data|, ctx := h.update(s.ctx, data));
      Result(State(WriteAt(st.fs, s.ino, s.pos, data), st.sessions[id := s']), true, [])
  }

  /**
   * CRYPTO_memcmp over the length of the computed hash. A shorter expected string differs at its terminating NUL,
   * which is no hex digit.
   */
  predicate HashMatches(computed: Str, expected: Str) {
    computed <= expected
  }

  function Abort(st: State, id: uint64): State {
    if id !in st.sessions then st
    else State(Remove(st.fs, Resolved(st.sessions[id].target, false)).0, st.sessions - {id})
  }

  function Finish(st: State, h: Hasher, id: uint64): Result {
    if id !in st.sessions || !st.sessions[id].active then Refuse(st, NO_SESSION) else
    var s := st.sessions[id];
    if s.receivedBytes != s.expectedSize then Refuse(Abort(st, id), "Size mismatch")
    else if s.expectedHash != [] && !HashMatches(Hex(h.final(s.ctx)), s.expectedHash) then
      Refuse(Abort(st, id), "SHA256 checksum mismatch (corrupted upload)")
    else Result(st.(sessions := st.sessions - {id}), true, [])
  }

  // ---- the session invariant ----

  /** Counter, stream position, stored bytes and digest of one session all describe the same bytes, and not too many. */
  ghost predicate Tracks(fs: FS, h: Hasher, s: Session) {
    && s.active
    && s.ino in fs.data
    && s.pos == s.receivedBytes == |fs.data[s.ino]| <= s.expectedSize
    && s.ctx == Absorb(h, fs.data[s.ino])
  }

  /** The same, with room for one more chunk below 2^64. */
  ghost predicate SessionOk(fs: FS, h: Hasher, s: Session) {
    Tracks(fs, h, s) && s.expectedSize <= U64 - U32
  }

  ghost predicate Exclusive(sessions: map<uint64, Session>) {
    forall a, b | a in sessions && b in sessions && a != b :: sessions[a].ino != sessions[b].ino
  }

  ghost predicate SessionInv(st: State, h: Hasher) {
    && Valid(st.fs)
    && (forall id | id in st.sessions :: SessionOk(st.fs, h, st.sessions[id]))
    && Exclusive(st.sessions)
  }

  /** The chunk starts where the stored bytes end, and fits the announced size. */
  ghost predicate Continues(st: State, id: uint64, offset: uint64, data: seq<byte>) {
    id in st.sessions &&
    var c := Content(st.fs, st.sessions[id].ino);
    offset == |c| && |c| + |data| <= st.sessions[id].expectedSize
  }

  /** The stored bytes have the announced size and, where one was announced, the digest that the hash starts with. */
  ghost predicate Verified(st: State, h: Hasher, id: uint64)
    requires id in st.sessions
  {
    var s := st.sessions[id];
    var content := Content(st.fs, s.ino);
    |content| == s.expectedSize && (s.expectedHash == [] || Sha256Hex(h, content) <= s.expectedHash)
  }

  lemma OverlayAtEnd(content: seq<byte>, data: seq<byte>)
    ensures Overlay(content, |content|, data) == content + data
  {
    assert content[..|content|] == content;
    if data == [] {
      assert content[|content|..] == [];
    }
  }

  /**
   * For one session, whatever the others are: a chunk that cannot wrap the 64-bit sum is accepted exactly when it
   * continues the stored bytes and fits the announced size, and is then appended to file, counter and digest.
   */
  lemma OwnChunkAppends(st: State, h: Hasher, id: uint64, offset: uint64, data: seq<byte>)
    requires Streaming(h) && id in st.sessions && Tracks(st.fs, h, st.sessions[id])
    requires |st.fs.data[st.sessions[id].ino]| + |data| < U64
    ensures WriteChunk(st, h, id, offset, data).ok <==> Continues(st, id, offset, data)
    ensures var r := WriteChunk(st, h, id, offset, data);
      if r.ok then
        var s := st.sessions[id];
        var s' := s.(receivedBytes := s.receivedBytes + |data|, pos := s.pos + |data|, ctx := h.update(s.ctx, data));
        && r.st == State(st.fs.(data := st.fs.data[s.ino := st.fs.data[s.ino] + data]), st.sessions[id := s'])
        && Tracks(r.st.fs, h, s')
      else r.st == st
  {
    var s := st.sessions[id];
    var c := st.fs.data[s.ino];
    OverlayAtEnd(c, data);
    assert UpdateLaw(h, h.init, c, data);
  }

  /** One session takes in more bytes; the others keep their own inodes. */
  lemma SessionGrows(st: State, h: Hasher, id: uint64, data: seq<byte>, s': Session)
    requires Streaming(h) && SessionInv(st, h) && id in st.sessions
    requires |st.fs.data[st.sessions[id].ino]| + |data| <= st.sessions[id].expectedSize
    requires var s := st.sessions[id];
      s' == s.(receivedBytes := s.receivedBytes + |data|, pos := s.pos + |data|, ctx := h.update(s.ctx, data))
    ensures var ino := st.sessions[id].ino;
      SessionInv(State(st.fs.(data := st.fs.data[ino := st.fs.data[ino] + data]), st.sessions[id := s']), h)
  {
    var s := st.sessions[id];
    var c := st.fs.data[s.ino];
    assert UpdateLaw(h, h.init, c, data);
    var st' := State(st.fs.(data := st.fs.data[s.ino := c + data]), st.sessions[id := s']);
    assert SessionOk(st'.fs, h, s');
    forall x | x in st.sessions && x != id
      ensures SessionOk(st'.fs, h, st.sessions[x])
    {
      assert SessionOk(st.fs, h, st.sessions[x]);
    }
  }

  /**
   * A chunk is accepted exactly when it continues the stored bytes and fits the announced size; it is then appended.
   * Nothing else changes, and the invariant is kept.
   */
  lemma ChunkAppends(st: State, h: Hasher, id: uint64, offset: uint64, data: seq<byte>)
    requires Streaming(h) && SessionInv(st, h) && |data| < U32
    ensures SessionInv(WriteChunk(st, h, id, offset, data).st, h)
    ensures WriteChunk(st, h, id, offset, data).ok <==> Continues(st, id, offset, data)
    ensures var r := WriteChunk(st, h, id, offset, data);
      if r.ok then
        var s := st.sessions[id];
        var s' := s.(receivedBytes := s.receivedBytes + |data|, pos := s.pos + |data|, ctx := h.update(s.ctx, data));
        r.st == State(st.fs.(data := st.fs.data[s.ino := st.fs.data[s.ino] + data]), st.sessions[id := s'])
      else r.st == st
  {
    if id in st.sessions {
      var s := st.sessions[id];
      assert SessionOk(st.fs, h, s);
      OwnChunkAppends(st, h, id, offset, data);
      if Continues(st, id, offset, data) {
        SessionGrows(st, h, id, data, WriteChunk(st, h, id, offset, data).st.sessions[id]);
      }
    }
  }

  /** No live session has the file at this path open. */
  ghost predicate TargetFree(st: State, p: Path) {
    IsFile(st.fs, p) ==> forall id | id in st.sessions :: st.sessions[id].ino != st.fs.tree[p].ino
  }

  lemma WithDirectoryKeepsValid(fs: FS, dir: Resolved)
    requires Valid(fs)
    ensures var fs' := WithDirectory(fs, dir);
      && Valid(fs') && fs'.data == fs.data && fs'.next == fs.next
      && (forall p | p in fs.tree :: p in fs'.tree && fs'.tree[p] == fs.tree[p])
      && (forall p | IsFile(fs', p) :: IsFile(fs, p))
  {
    CreateDirectoriesAddsPrefixes(fs, dir.comps);
  }

  /** What opening a session at a resolved directory does to the disk and the table. */
  lemma BeginAtShape(st: State, h: Hasher, id: uint64, dir: Resolved, filename: Str, size: uint64, hash: Str)
    requires Valid(st.fs)
    ensures var r := BeginAt(st, h, id, dir, filename, size, hash);
      && Valid(r.st.fs)
      && (forall p | p in st.fs.tree && p != dir.comps + [filename] ::
            p in r.st.fs.tree && r.st.fs.tree[p] == st.fs.tree[p])
      && (!r.ok ==>
           && r.st.sessions == st.sessions && r.st.fs.data == st.fs.data
           && forall p | p in st.fs.tree :: p in r.st.fs.tree && r.st.fs.tree[p] == st.fs.tree[p])
      && (r.ok ==>
           && id in r.st.sessions
           && var s := r.st.sessions[id];
           && s == NewSession(h, dir.comps, filename, size, hash, s.ino)
           && r.st.sessions == st.sessions[id := s]
           && r.st.fs.data == st.fs.data[s.ino := []]
           && s.target in r.st.fs.tree && r.st.fs.tree[s.target] == File(s.ino)
           && (s.ino in st.fs.data <==> IsFile(st.fs, s.target))
           && (IsFile(st.fs, s.target) ==> st.fs.tree[s.target].ino == s.ino))
  {
    var fs := WithDirectory(st.fs, dir);
    WithDirectoryKeepsValid(st.fs, dir);
    if OpenTrunc(fs, dir.comps, filename).Some? {
      OpenTruncKeepsValid(fs, dir.comps, filename);
    }
  }

  /** A new id, a usable name, and an accepted directory that has no file on the way and no directory of that name. */
  ghost predicate Openable(st: State, root: Path, id: uint64, remoteDir: Str, filename: Str) {
    && id !in st.sessions
    && IsName(filename) && BACKSLASH !in filename
    && Resolve(st.fs, root, remoteDir).Some?
    && var dir := Resolve(st.fs, root, remoteDir).value.comps;
    && (forall k | 0 <= k <= |dir| :: !IsFile(st.fs, dir[..k]))
    && !IsDir(st.fs, dir + [filename])
  }

  /** When an upload can begin, in terms of the table and the tree alone; its missing directories are created. */
  lemma BeginAcceptsExactly(st: State, root: Path, h: Hasher, id: uint64, remoteDir: Str, filename: Str, size: uint64,
                            hash: Str)
    requires Valid(st.fs)
    ensures Begin(st, root, h, id, remoteDir, filename, size, hash).ok <==> Openable(st, root, id, remoteDir, filename)
  {
    if Resolve(st.fs, root, remoteDir).Some? {
      DirectoryIsOpenedExactly(st.fs, Resolve(st.fs, root, remoteDir).value, filename);
    }
  }

  /** The error of a refused UPLOAD_BEGIN names the check that failed. */
  lemma BeginSaysWhy(st: State, root: Path, h: Hasher, id: uint64, remoteDir: Str, filename: Str, size: uint64,
                     hash: Str)
    requires Valid(st.fs)
    ensures Begin(st, root, h, id, remoteDir, filename, size, hash).error == Ascii(
      if id in st.sessions then "Upload session already exists"
      else if filename == [] || SLASH in filename || BACKSLASH in filename then "Invalid filename"
      else if Resolve(st.fs, root, remoteDir) == None then "Target path error: Path traversal attack detected"
      else if !Openable(st, root, id, remoteDir, filename) then "Could not open target file for writing"
      else "")
  {
    BeginAcceptsExactly(st, root, h, id, remoteDir, filename, size, hash);
    hide Resolve, Valid, WithDirectory, OpenTrunc, Openable;
  }

  /** The error of a refused chunk names the check that failed. */
  lemma ChunkSaysWhy(st: State, h: Hasher, id: uint64, offset: uint64, data: seq<byte>)
    requires id in st.sessions ==> Tracks(st.fs, h, st.sessions[id]) && |st.fs.data[st.sessions[id].ino]| + |data| < U64
    ensures WriteChunk(st, h, id, offset, data).error == Ascii(
      if id !in st.sessions then "No active upload session with specified ID"
      else if offset != |st.fs.data[st.sessions[id].ino]| then "Out-of-order chunk offset received"
      else if |st.fs.data[st.sessions[id].ino]| + |data| > st.sessions[id].expectedSize then
        "Received bytes exceed expected file size"
      else "")
  {
    hide Overlay;
  }

  /** The error of a failed UPLOAD_END names the check that failed. */
  lemma FinishSaysWhy(st: State, h: Hasher, id: uint64)
    requires Streaming(h) && (id in st.sessions ==> Tracks(st.fs, h, st.sessions[id]))
    ensures Finish(st, h, id).error == Ascii(
      if id !in st.sessions then "No active upload session with specified ID"
      else if |st.fs.data[st.sessions[id].ino]| != st.sessions[id].expectedSize then "Size mismatch"
      else if !Verified(st, h, id) then "SHA256 checksum mismatch (corrupted upload)"
      else "")
  {
    hide Hex, Remove, Streaming;
  }

  lemma DirectoryIsOpenedExactly(fs: FS, dir: Resolved, filename: Str)
    requires Valid(fs)
    ensures OpenTrunc(WithDirectory(fs, dir), dir.comps, filename).Some? <==>
            && (forall k | 0 <= k <= |dir.comps| :: !IsFile(fs, dir.comps[..k]))
            && filename != DOT && filename != DOTDOT && !IsDir(fs, dir.comps + [filename])
  {
    var p := dir.comps;
    assert p[..|p|] == p;
    CreateDirectoriesAddsPrefixes(fs, p);
    if IsDir(fs, p) {
      forall k | 0 <= k <= |p|
        ensures !IsFile(fs, p[..k])
      {
        PrefixesExist(fs, p, k);
      }
    }
    assert !(p + [filename] <= p);
  }

  /**
   * Opening a session keeps the invariant exactly when the announced size leaves room for one more chunk below 2^64
   * and no live session is already writing to the target.
   */
  lemma BeginKeepsInvariantExactly(st: State, root: Path, h: Hasher, id: uint64, remoteDir: Str, filename: Str,
                                   size: uint64, hash: Str)
    requires Streaming(h) && SessionInv(st, h)
    ensures var r := Begin(st, root, h, id, remoteDir, filename, size, hash);
      && (!r.ok ==> SessionInv(r.st, h) && r.st.sessions == st.sessions && r.st.fs.data == st.fs.data)
      && (r.ok ==> (SessionInv(r.st, h) <==> size <= U64 - U32 && TargetFree(st, r.st.sessions[id].target)))
  {
    var resolved := Resolve(st.fs, root, remoteDir);
    if id !in st.sessions && !BadFilename(filename) && resolved.Some? {
      BeginAtKeepsInvariantExactly(st, h, id, resolved.value, filename, size, hash);
    }
  }

  lemma BeginAtKeepsInvariantExactly(st: State, h: Hasher, id: uint64, dir: Resolved, filename: Str, size: uint64,
                                     hash: Str)
    requires Streaming(h) && SessionInv(st, h) && id !in st.sessions
    ensures var r := BeginAt(st, h, id, dir, filename, size, hash);
      && (!r.ok ==> SessionInv(r.st, h) && r.st.sessions == st.sessions && r.st.fs.data == st.fs.data)
      && (r.ok ==> (SessionInv(r.st, h) <==> size <= U64 - U32 && TargetFree(st, r.st.sessions[id].target)))
  {
    var r := BeginAt(st, h, id, dir, filename, size, hash);
    BeginAtShape(st, h, id, dir, filename, size, hash);
    if r.ok {
      OpenedSessionInv(st, r.st, h, id, r.st.sessions[id]);
    } else {
      TreeChangeKeepsSessions(st, h, r.st.fs);
    }
  }

  lemma OpenedSessionInv(st: State, st': State, h: Hasher, id: uint64, s: Session)
    requires Streaming(h) && SessionInv(st, h) && id !in st.sessions && st'.sessions == st.sessions[id := s]
    requires Valid(st'.fs) && st'.fs.data == st.fs.data[s.ino := []]
    requires s.ino in st.fs.data <==> IsFile(st.fs, s.target)
    requires IsFile(st.fs, s.target) ==> st.fs.tree[s.target].ino == s.ino
    requires s.active && s.pos == 0 && s.receivedBytes == 0 && s.ctx == h.init
    ensures SessionInv(st', h) <==> s.expectedSize <= U64 - U32 && TargetFree(st, s.target)
  {
    if TargetFree(st, s.target) {
      forall x | x in st.sessions
        ensures st.sessions[x].ino != s.ino && SessionOk(st'.fs, h, st.sessions[x])
      {
        assert SessionOk(st.fs, h, st.sessions[x]);
      }
      assert NothingLaw(h, h.init);
      assert s.expectedSize <= U64 - U32 <==> SessionOk(st'.fs, h, s);
      assert Exclusive(st'.sessions);
      assert st'.sessions[id] == s;
    } else {
      var x :| x in st.sessions && st.sessions[x].ino == st.fs.tree[s.target].ino;
      assert st'.sessions[x].ino == st'.sessions[id].ino;
    }
  }

  /** Changes to the tree that leave contents alone do not touch sessions. */
  lemma TreeChangeKeepsSessions(st: State, h: Hasher, fs: FS)
    requires SessionInv(st, h) && Valid(fs) && fs.data == st.fs.data
    ensures SessionInv(st.(fs := fs), h)
  {
  }

  lemma AbortKeepsInvariant(st: State, h: Hasher, id: uint64)
    requires SessionInv(st, h)
    ensures SessionInv(Abort(st, id), h) && Abort(st, id).fs.data == st.fs.data
  {
    if id in st.sessions {
      var r := Resolved(st.sessions[id].target, false);
      RemoveKeepsValid(st.fs, r);
      TreeChangeKeepsSessions(st, h, Remove(st.fs, r).0);
    }
  }

  /**
   * For one session, whatever the others are: it finishes exactly when the stored bytes have the announced size and
   * digest; a 64-digit hash is then theirs. Success leaves the disk as it is; failure takes the target away; the
   * session is gone either way.
   */
  lemma OwnFinishVerifies(st: State, h: Hasher, id: uint64)
    requires Streaming(h) && id in st.sessions && Tracks(st.fs, h, st.sessions[id])
    ensures var s := st.sessions[id];
      var r := Finish(st, h, id);
      && (r.ok <==> Verified(st, h, id))
      && (r.ok && |s.expectedHash| == 64 ==> s.expectedHash == Sha256Hex(h, Content(st.fs, s.ino)))
      && r.st.sessions == st.sessions - {id}
      && r.st.fs == (if r.ok then st.fs else Remove(st.fs, Resolved(s.target, false)).0)
  {
    var s := st.sessions[id];
    assert NothingLaw(h, s.ctx);
    hide Streaming, Remove, Hex;
    var computed := Hex(h.final(s.ctx));
    if |s.expectedHash| == 64 && computed <= s.expectedHash {
      assert s.expectedHash[..64] == s.expectedHash;
    }
  }

  /** The same for a consistent table, which stays consistent. */
  lemma FinishVerifiesExactly(st: State, h: Hasher, id: uint64)
    requires Streaming(h) && SessionInv(st, h) && id in st.sessions
    ensures var s := st.sessions[id];
      var r := Finish(st, h, id);
      && SessionInv(r.st, h)
      && (r.ok <==> Verified(st, h, id))
      && (r.ok && |s.expectedHash| == 64 ==> s.expectedHash == Sha256Hex(h, Content(st.fs, s.ino)))
      && r.st.sessions == st.sessions - {id}
      && r.st.fs == (if r.ok then st.fs else Remove(st.fs, Resolved(s.target, false)).0)
  {
    AbortKeepsInvariant(st, h, id);
    assert SessionOk(st.fs, h, st.sessions[id]);
    OwnFinishVerifies(st, h, id);
    hide SessionInv, Streaming, Remove, Verified;
  }

  /** Two uploads that finished under one 64-digit hash, in whatever states, have stored bytes of one digest. */
  lemma SameHashSameDigest(h: Hasher, st: State, id: uint64, st': State, id': uint64)
    requires Streaming(h) && SessionInv(st, h) && SessionInv(st', h) && id in st.sessions && id' in st'.sessions
    requires |st.sessions[id].expectedHash| == 64 && st'.sessions[id'].expectedHash == st.sessions[id].expectedHash
    requires Finish(st, h, id).ok && Finish(st', h, id').ok
    ensures h.final(Absorb(h, Content(st.fs, st.sessions[id].ino)))
         == h.final(Absorb(h, Content(st'.fs, st'.sessions[id'].ino)))
  {
    FinishVerifiesExactly(st, h, id);
    FinishVerifiesExactly(st', h, id');
    var c, c' := Content(st.fs, st.sessions[id].ino), Content(st'.fs, st'.sessions[id'].ino);
    HexInjective(h.final(Absorb(h, c)), h.final(Absorb(h, c')));
  }

  /** A hash string shorter than the computed one is refused at its terminating NUL. */
  lemma ShortHashNeverMatches(h: Hasher, content: seq<byte>, expected: Str)
    requires Streaming(h) && |expected| < 64
    ensures !HashMatches(Sha256Hex(h, content), expected)
    ensures 0 !in Sha256Hex(h, content)
  {
    HexHasNoNul(h.final(Absorb(h, content)));
    assert NothingLaw(h, Absorb(h, content));
  }

  /**
   * When the size guard fails: a chunk takes the stored bytes past the announced size exactly if the 64-bit sum wraps
   * to a value that passes; the counter then no longer says how many bytes are stored.
   */
  lemma SizeGuardExact(st: State, h: Hasher, id: uint64, data: seq<byte>)
    requires id in st.sessions && st.sessions[id].active && |data| < U32
    requires var s := st.sessions[id];
      s.ino in st.fs.data && s.pos == s.receivedBytes == |st.fs.data[s.ino]| <= s.expectedSize
    ensures var s := st.sessions[id];
      var sum := s.receivedBytes + |data|;
      var r := WriteChunk(st, h, id, s.receivedBytes, data);
      && (r.ok ==> Content(r.st.fs, s.ino) == st.fs.data[s.ino] + data)
      && (r.ok && |Content(r.st.fs, s.ino)| > s.expectedSize <==> U64 <= sum <= s.expectedSize + U64)
      && (r.ok ==> (r.st.sessions[id].receivedBytes == |Content(r.st.fs, s.ino)| <==> sum < U64))
  {
    var s := st.sessions[id];
    var sum := s.receivedBytes + |data|;
    OverlayAtEnd(st.fs.data[s.ino], data);
    assert sum % U64 == if sum < U64 then sum else sum - U64;
  }

  /** The target holds exactly these bytes. */
  ghost predicate HoldsFile(fs: FS, target: Path, content: seq<byte>) {
    IsFile(fs, target) && fs.tree[target].ino in fs.data && fs.data[fs.tree[target].ino] == content
  }

  // ---- the service ----

  class UploadService {
    const files: FileService
    const hasher: Hasher
    var sessions: map<uint64, Session>

    constructor (files: FileService, hasher: Hasher)
      ensures this.files == files && this.hasher == hasher && sessions == map[]
    {
      this.files, this.hasher, this.sessions := files, hasher, map[];
    }

    function Abs(): State
      reads this, files
    {
      State(files.fs, sessions)
    }

    method BeginUpload(id: uint64, remoteDir: Str, filename: Str, size: uint64, hash: Str)
      returns (ok: bool, error: Str)
      modifies this, files
      ensures Result(Abs(), ok, error) == Begin(old(Abs()), files.root, hasher, id, remoteDir, filename, size, hash)
      ensures Valid(old(files.fs)) ==> (ok <==> Openable(old(Abs()), files.root, id, remoteDir, filename))
      ensures Streaming(hasher) && SessionInv(old(Abs()), hasher) ==>
        if ok then SessionInv(Abs(), hasher) <==> size <= U64 - U32 && TargetFree(old(Abs()), sessions[id].target)
        else SessionInv(Abs(), hasher)
    {
      hide SessionInv, Streaming, TargetFree, Resolve, Openable, Valid, CreateDirectories, OpenTrunc, Exists;
      if Valid(files.fs) {
        BeginAcceptsExactly(Abs(), files.root, hasher, id, remoteDir, filename, size, hash);
      }
      if Streaming(hasher) && SessionInv(Abs(), hasher) {
        BeginKeepsInvariantExactly(Abs(), files.root, hasher, id, remoteDir, filename, size, hash);
      }
      if id in sessions {
        return false, Ascii("Upload session already exists");
      }
      if filename == [] || SLASH in filename || BACKSLASH in filename {
        return false, Ascii("Invalid filename");
      }
      var resolved := files.ResolvePath(remoteDir);
      if resolved == None {
        return false, Ascii("Target path error: Path traversal attack detected");
      }
      var dirPath := resolved.value;
      if !Exists(files.fs, dirPath) {
        files.fs := CreateDirectories(files.fs, dirPath.comps).0;
      }
      var stream := OpenTrunc(files.fs, dirPath.comps, filename);
      if stream == None {
        return false, Ascii("Could not open target file for writing");
      }
      var (fs', ino) := stream.value;
      files.fs := fs';
      var target := dirPath.comps + [filename];
      sessions := sessions[id := Session(filename, target, size, 0, hash, ino, 0, hasher.init, true)];
      return true, [];
    }

    method Write(id: uint64, offset: uint64, data: seq<byte>) returns (ok: bool, error: Str)
      modifies this, files
      ensures Result(Abs(), ok, error) == WriteChunk(old(Abs()), hasher, id, offset, data)
      ensures Streaming(hasher) && SessionInv(old(Abs()), hasher) && |data| < U32 ==>
        SessionInv(Abs(), hasher) && (ok <==> Continues(old(Abs()), id, offset, data))
    {
      hide SessionInv, Streaming, Continues, Overlay;
      if Streaming(hasher) && SessionInv(Abs(), hasher) && |data| < U32 {
        ChunkAppends(Abs(), hasher, id, offset, data);
      }
      if id !in sessions || !sessions[id].active {
        return false, Ascii(NO_SESSION);
      }
      var session := sessions[id];
      if offset != session.receivedBytes {
        return false, Ascii("Out-of-order chunk offset received");
      }
      if (session.receivedBytes + |data|) % U64 > session.expectedSize {
        return false, Ascii("Received bytes exceed expected file size");
      }
      files.fs := WriteAt(files.fs, session.ino, session.pos, data);
      session := session.(pos := session.pos + |data|);
      session := session.(ctx := hasher.update(session.ctx, data));
      session := session.(receivedBytes := (session.receivedBytes + |data|) % U64);
      sessions := sessions[id := session];
      return true, [];
    }

    method AbortUpload(id: uint64)
      modifies this, files
      ensures Abs() == Abort(old(Abs()), id)
    {
      if id in sessions {
        files.fs := Remove(files.fs, Resolved(sessions[id].target, false)).0;
        sessions := sessions - {id};
      }
    }

    method FinishUpload(id: uint64) returns (ok: bool, error: Str)
      modifies this, files
      ensures Result(Abs(), ok, error) == Finish(old(Abs()), hasher, id)
      ensures Streaming(hasher) && SessionInv(old(Abs()), hasher) && id in old(sessions) ==>
        SessionInv(Abs(), hasher) && (ok <==> Verified(old(Abs()), hasher, id))
    {
      if Streaming(hasher) && SessionInv(Abs(), hasher) && id in sessions {
        FinishVerifiesExactly(Abs(), hasher, id);
      }
      hide Streaming, Verified;
      if id !in sessions || !sessions[id].active {
        return false, Ascii(NO_SESSION);
      }
      var session := sessions[id];
      if session.receivedBytes != session.expectedSize {
        AbortUpload(id);
        return false, Ascii("Size mismatch");
      }
      var computed := ToHex(hasher.final(session.ctx));
      if session.expectedHash != [] {
        if !HashMatches(computed, session.expectedHash) {
          AbortUpload(id);
          return false, Ascii("SHA256 checksum mismatch (corrupted upload)");
        }
      }
      sessions := sessions - {id};
      return true, [];
    }
  }
}
