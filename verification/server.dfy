/**
 * TcpServer::handleClient: what each packet does to the connection, the disk and the sessions, and what is sent back.
 */
module Server {
  import opened Bytes
  import opened Digest
  import opened Packets
  import PacketBuilder
  import opened Framing
  import opened Paths
  import opened FileSystem
  import opened StorageServices
  import opened Listing
  import opened Uploads
  import opened UploadRuns

  const CHUNK_SIZE := 65536

  /** What the server is set up with; the time stamps of the disk come from outside. */
  datatype Setup = Setup(cfg: Config, users: map<Str, Str>, clock: Path -> uint64)

  /** What the outside decides at one packet: a random number and the order in which a directory is visited. */
  datatype Env = Env(rnd: uint64, order: seq<Str>)

  /** The session of one connection. */
  datatype Conn = Conn(id: uint64, username: Str, authenticated: bool)

  datatype StepResult = StepResult(st: State, conn: Conn, replies: seq<Packet>)

  // ---- replies ----

  function ErrorReply(message: Str): Packet {
    Message(ERROR, [Text(message)])
  }

  function SuccessReply(message: string): Packet {
    Message(SUCCESS, [Text(Ascii(message))])
  }

  function StatusReply(ptype: uint32, ok: bool, message: Str): Packet {
    Message(ptype, [Flag(ok), Text(message)])
  }

  /** The packet types whose replies carry a status byte. */
  predicate IsTreeRequest(ptype: uint32) {
    ptype == DELETE_REQUEST || ptype == RENAME_REQUEST || ptype == MKDIR_REQUEST || ptype == RMDIR_REQUEST
  }

  predicate IsUploadRequest(ptype: uint32) {
    ptype == UPLOAD_BEGIN || ptype == UPLOAD_CHUNK || ptype == UPLOAD_END
  }

  function ResponseType(ptype: uint32): uint32 {
    if ptype == DELETE_REQUEST then DELETE_RESPONSE
    else if ptype == RENAME_REQUEST then RENAME_RESPONSE
    else if ptype == MKDIR_REQUEST then MKDIR_RESPONSE
    else RMDIR_RESPONSE
  }

  const AUTH_NEEDED := "Authentication required"

  function MalformedText(ptype: uint32): string {
    if ptype == UPLOAD_BEGIN then "Malformed UPLOAD_BEGIN packet"
    else if ptype == UPLOAD_CHUNK then "Malformed UPLOAD_CHUNK packet"
    else if ptype == UPLOAD_END then "Malformed UPLOAD_END packet"
    else if ptype == DELETE_REQUEST then "Malformed DELETE_REQUEST packet"
    else if ptype == RENAME_REQUEST then "Malformed RENAME_REQUEST packet"
    else if ptype == MKDIR_REQUEST then "Malformed MKDIR_REQUEST packet"
    else "Malformed RMDIR_REQUEST packet"
  }

  /** How a request of this type is turned down. */
  function Denial(ptype: uint32, message: string): Packet {
    if IsTreeRequest(ptype) then StatusReply(ResponseType(ptype), false, Ascii(message)) else ErrorReply(Ascii(message))
  }

  // ---- requests to the services ----

  function ParseRequest(p: Packet): Option<Request> {
    if p.ptype == UPLOAD_BEGIN then
      match Decode([NumK, NumK, TextK, TextK, TextK], p.payload)
      case Bad => None
      case Good(fs, _) => Some(BeginUpload(NumAt(fs, 0), TextAt(fs, 2), TextAt(fs, 3), NumAt(fs, 1), TextAt(fs, 4)))
    else if p.ptype == UPLOAD_CHUNK then
      match Decode([NumK, NumK, BlobK], p.payload)
      case Bad => None
      case Good(fs, _) => Some(UploadChunk(NumAt(fs, 0), NumAt(fs, 1), BlobAt(fs, 2)))
    else if p.ptype == UPLOAD_END then
      match Decode([NumK], p.payload)
      case Bad => None
      case Good(fs, _) => Some(EndUpload(NumAt(fs, 0)))
    else if p.ptype == RENAME_REQUEST then
      match Decode([TextK, TextK], p.payload)
      case Bad => None
      case Good(fs, _) => Some(RenamePath(TextAt(fs, 0), TextAt(fs, 1)))
    else
      match Decode([TextK], p.payload)
      case Bad => None
      case Good(fs, _) =>
        var path := TextAt(fs, 0);
        Some(if p.ptype == DELETE_REQUEST then DeletePath(path)
             else if p.ptype == MKDIR_REQUEST then Mkdir(path)
             else Rmdir(path))
  }

  /** An accepted chunk is the one request that gets no reply. */
  function RepliesTo(ptype: uint32, r: Result): seq<Packet> {
    if ptype == UPLOAD_BEGIN then [if r.ok then SuccessReply("Upload session ready") else ErrorReply(r.error)]
    else if ptype == UPLOAD_CHUNK then (if r.ok then [] else [ErrorReply(r.error)])
    else if ptype == UPLOAD_END then
      [if r.ok then SuccessReply("Upload verified and completed") else ErrorReply(r.error)]
    else [StatusReply(ResponseType(ptype), r.ok, r.error)]
  }

  function ServiceStep(cfg: Config, st: State, c: Conn, p: Packet): StepResult {
    if !c.authenticated then StepResult(st, c, [Denial(p.ptype, AUTH_NEEDED)]) else
    match ParseRequest(p)
    case None => StepResult(st, c, [Denial(p.ptype, MalformedText(p.ptype))])
    case Some(q) =>
      var r := Apply(cfg, st, q);
      StepResult(r.st, c, RepliesTo(p.ptype, r))
  }

  // ---- authentication ----

  /** AuthManager::authenticate */
  predicate Authenticate(s: Setup, username: Str, password: Str) {
    username in s.users && s.users[username] != [] && s.users[username] == Sha256Hex(s.cfg.hasher, password)
  }

  /** The packet is an AUTH_REQUEST whose password hash matches. */
  predicate AuthOk(s: Setup, p: Packet) {
    p.ptype == AUTH_REQUEST &&
    match Decode([TextK, TextK], p.payload)
    case Bad => false
    case Good(fs, _) => Authenticate(s, TextAt(fs, 0), TextAt(fs, 1))
  }

  function AuthStep(s: Setup, st: State, c: Conn, p: Packet, env: Env): StepResult {
    match Decode([TextK, TextK], p.payload)
    case Bad => StepResult(st, c, [ErrorReply(Ascii("Malformed AUTH_REQUEST packet"))])
    case Good(fs, _) =>
      if Authenticate(s, TextAt(fs, 0), TextAt(fs, 1)) then
        StepResult(st, Conn(env.rnd, TextAt(fs, 0), true),
                   [Message(AUTH_RESPONSE, [Flag(true), Num(env.rnd), Text(Ascii("Authentication successful"))])])
      else
        StepResult(st, c, [Message(AUTH_RESPONSE, [Flag(false), Num(0), Text(Ascii("Invalid credentials"))])])
  }

  // ---- listing and download ----

  function ListReply(s: Setup, fs: FS, path: Str, env: Env): Packet {
    match Resolve(fs, s.cfg.root, path)
    case None => ErrorReply(Ascii("Path traversal attack detected"))
    case Some(dir) =>
      if !Exists(fs, dir) || !IsDirectory(fs, dir) then ErrorReply(Ascii("Directory not found"))
      else
        var payload := SerializeEntries(Sort(Entries(fs, dir.comps, env.order, s.clock)));
        Packet(LIST_RESPONSE, |payload|, payload)
  }

  function ListStep(s: Setup, st: State, c: Conn, p: Packet, env: Env): StepResult {
    if !c.authenticated then StepResult(st, c, [ErrorReply(Ascii(AUTH_NEEDED))]) else
    match Decode([TextK], p.payload)
    case Bad => StepResult(st, c, [ErrorReply(Ascii("Malformed LIST packet"))])
    case Good(fs, _) => StepResult(st, c, [ListReply(s, st.fs, TextAt(fs, 0), env)])
  }

  /** DownloadFileMetadata, with the file's inode for its path. */
  datatype Meta = Meta(id: uint64, size: uint64, filename: Str, hash: Str, ino: nat)

  datatype Prepared = Refused(error: string) | Ready(meta: Meta)

  function Prepare(cfg: Config, fs: FS, path: Str, rnd: uint64): Prepared {
    if path == [] then Refused("Remote path cannot be empty") else
    match Resolve(fs, cfg.root, path)
    case None => Refused(TRAVERSAL)
    case Some(target) =>
      if !Exists(fs, target) then Refused("File not found")
      else if !IsFile(fs, target.comps) then Refused("Target is a directory, not a file")
      else
        var ino := fs.tree[target.comps].ino;
        var content := Content(fs, ino);
        var name := if target.comps == [] then [] else target.comps[|target.comps| - 1];
        Ready(Meta(rnd, |content| % U64, name, Sha256Hex(cfg.hasher, content), ino))
  }

  /** The path names a file, in a spelling that does not end in a separator. */
  predicate Downloadable(fs: FS, root: Path, path: Str) {
    && path != [] && Resolve(fs, root, path).Some?
    && !Resolve(fs, root, path).value.trailing && IsFile(fs, Resolve(fs, root, path).value.comps)
  }

  /** The metadata is that of the file at p. */
  ghost predicate Describes(m: Meta, fs: FS, h: Hasher, p: Path) {
    && IsFile(fs, p) && fs.tree[p] == File(m.ino)
    && m.size == |Content(fs, m.ino)| % U64 && m.hash == Sha256Hex(h, Content(fs, m.ino))
    && (p != [] ==> p == Parent(p) + [m.filename])
  }

  /** A download is prepared exactly for a path that names a file, and then with that file's data. */
  lemma PreparesExactly(cfg: Config, fs: FS, path: Str, rnd: uint64)
    ensures Prepare(cfg, fs, path, rnd).Ready? <==> Downloadable(fs, cfg.root, path)
    ensures Downloadable(fs, cfg.root, path) ==>
      var m := Prepare(cfg, fs, path, rnd).meta;
      m.id == rnd && Describes(m, fs, cfg.hasher, Resolve(fs, cfg.root, path).value.comps)
    ensures !Downloadable(fs, cfg.root, path) ==>
      Prepare(cfg, fs, path, rnd).error ==
        if path == [] then "Remote path cannot be empty"
        else if Resolve(fs, cfg.root, path) == None then "Invalid path: Path traversal attack detected"
        else if Found(fs, Resolve(fs, cfg.root, path).value) then "Target is a directory, not a file"
        else "File not found"
  {
    hide Resolve;
  }

  /** The chunks of a file from position pos on: blocks of 64 KB while pos is below the announced size. */
  function ChunkPackets(ptype: uint32, id: uint64, file: seq<byte>, size: uint64, pos: nat): seq<Packet>
    decreases |file| - pos
  {
    if pos >= size || pos >= |file| then [] else
    var n := Min(CHUNK_SIZE, |file| - pos);
    [Message(ptype, [Num(id), Num(pos), Blob(file[pos..pos + n])])] + ChunkPackets(ptype, id, file, size, pos + n)
  }

  function StreamPackets(m: Meta, content: seq<byte>): seq<Packet> {
    [Message(DOWNLOAD_BEGIN, [Num(m.id), Num(m.size), Text(m.filename), Text(m.hash)])]
    + ChunkPackets(DOWNLOAD_CHUNK, m.id, content, m.size, 0)
    + [Message(DOWNLOAD_END, [Num(m.id)])]
  }

  function DownloadReplies(cfg: Config, fs: FS, path: Str, rnd: uint64): seq<Packet> {
    match Prepare(cfg, fs, path, rnd)
    case Refused(error) => [ErrorReply(Ascii(error))]
    case Ready(m) => StreamPackets(m, Content(fs, m.ino))
  }

  function DownloadStep(s: Setup, st: State, c: Conn, p: Packet, env: Env): StepResult {
    if !c.authenticated then StepResult(st, c, [ErrorReply(Ascii(AUTH_NEEDED))]) else
    match Decode([TextK], p.payload)
    case Bad => StepResult(st, c, [ErrorReply(Ascii("Malformed DOWNLOAD_REQUEST packet"))])
    case Good(fs, _) => StepResult(st, c, DownloadReplies(s.cfg, st.fs, TextAt(fs, 0), env.rnd))
  }

  // ---- one packet, and a whole connection ----

  function Step(s: Setup, st: State, c: Conn, p: Packet, env: Env): StepResult {
    if p.ptype == PING then StepResult(st, c, [Message(PONG, [])])
    else if p.ptype == AUTH_REQUEST then AuthStep(s, st, c, p, env)
    else if p.ptype == LIST then ListStep(s, st, c, p, env)
    else if IsUploadRequest(p.ptype) || IsTreeRequest(p.ptype) then ServiceStep(s.cfg, st, c, p)
    else if p.ptype == DOWNLOAD_REQUEST then DownloadStep(s, st, c, p, env)
    else if p.ptype == DELETE_FILE || p.ptype == RENAME_FILE || p.ptype == MKDIR then
      StepResult(st, c, if c.authenticated then [] else [ErrorReply(Ascii(AUTH_NEEDED))])
    else StepResult(st, c, [])
  }

  /** The packets of one connection in turn; env(i) belongs to the i-th packet. */
  function Serve(s: Setup, st: State, c: Conn, ps: seq<Packet>, env: nat -> Env, i: nat): StepResult
    decreases |ps|
  {
    if ps == [] then StepResult(st, c, []) else
    var r := Step(s, st, c, ps[0], env(i));
    var rest := Serve(s, r.st, r.conn, ps[1..], env, i + 1);
    StepResult(rest.st, rest.conn, r.replies + rest.replies)
  }

  const NEW_CONN := Conn(0, [], false)

  lemma ServeNothing(s: Setup, st: State, c: Conn, env: nat -> Env, i: nat)
    ensures Serve(s, st, c, [], env, i) == StepResult(st, c, [])
  {
  }

  /** Replies already given, in front of those of the rest. */
  function BehindReplies(done: seq<Packet>, rest: StepResult): StepResult {
    StepResult(rest.st, rest.conn, done + rest.replies)
  }

  lemma BehindNoReplies(r: StepResult)
    ensures BehindReplies([], r) == r
  {
    assert [] + r.replies == r.replies;
  }

  lemma BehindTwice(a: seq<Packet>, b: seq<Packet>, r: StepResult)
    ensures BehindReplies(a, BehindReplies(b, r)) == BehindReplies(a + b, r)
  {
    assert a + (b + r.replies) == a + b + r.replies;
  }

  lemma ServeCons(s: Setup, st: State, c: Conn, ps: seq<Packet>, env: nat -> Env, i: nat) returns (r: StepResult)
    requires ps != []
    ensures r == Step(s, st, c, ps[0], env(i))
    ensures Serve(s, st, c, ps, env, i) == BehindReplies(r.replies, Serve(s, r.st, r.conn, ps[1..], env, i + 1))
  {
    r := Step(s, st, c, ps[0], env(i));
  }

  lemma {:induction false} ServeAppend(s: Setup, st: State, c: Conn, ps: seq<Packet>, qs: seq<Packet>,
                                       env: nat -> Env, i: nat)
    ensures var a := Serve(s, st, c, ps, env, i);
      Serve(s, st, c, ps + qs, env, i) == BehindReplies(a.replies, Serve(s, a.st, a.conn, qs, env, i + |ps|))
    decreases |ps|
  {
    hide Step;
    if ps == [] {
      assert ps + qs == qs;
      BehindNoReplies(Serve(s, st, c, qs, env, i));
    } else {
      var r := ServeCons(s, st, c, ps, env, i);
      var r2 := ServeCons(s, st, c, ps + qs, env, i);
      assert (ps + qs)[1..] == ps[1..] + qs;
      ServeAppend(s, r.st, r.conn, ps[1..], qs, env, i + 1);
      var a := Serve(s, r.st, r.conn, ps[1..], env, i + 1);
      BehindTwice(r.replies, a.replies, Serve(s, a.st, a.conn, qs, env, i + |ps|));
    }
  }

  lemma ServeSnoc(s: Setup, st: State, c: Conn, ps: seq<Packet>, p: Packet, env: nat -> Env, i: nat)
    ensures var a := Serve(s, st, c, ps, env, i);
      var r := Step(s, a.st, a.conn, p, env(i + |ps|));
      Serve(s, st, c, ps + [p], env, i) == StepResult(r.st, r.conn, a.replies + r.replies)
  {
    hide Step;
    ServeAppend(s, st, c, ps, [p], env, i);
    var a := Serve(s, st, c, ps, env, i);
    var r := ServeCons(s, a.st, a.conn, [p], env, i + |ps|);
    assert [p][1..] == [] && r.replies + [] == r.replies;
  }

  lemma SentAppend(start: seq<byte>, done: seq<Packet>, more: seq<Packet>)
    ensures start + SerializeAll(done) + SerializeAll(more) == start + SerializeAll(done + more)
  {
    SerializeAllAppend(done, more);
    assert start + SerializeAll(done) + SerializeAll(more) == start + (SerializeAll(done) + SerializeAll(more));
  }

  lemma NothingToSend()
    ensures SerializeAll([]) == []
  {
  }

  lemma NextOf(all: seq<Packet>, n: nat, p: Packet, rest: seq<Packet>)
    requires n <= |all| && all[n..] == [p] + rest
    ensures n < |all| && all[..n + 1] == all[..n] + [p] && all[n + 1..] == rest
  {
    assert all[n..][0] == p && all[n..][1..] == rest;
  }

  lemma SentSnoc(start: seq<byte>, done: seq<Packet>, p: Packet)
    ensures start + SerializeAll(done) + Serialize(p) == start + SerializeAll(done + [p])
  {
    SerializeAllSnoc(done, p);
    assert start + SerializeAll(done) + Serialize(p) == start + (SerializeAll(done) + Serialize(p));
  }

  // ---- the authentication gate ----

  /** Replies that carry a listing or file data. */
  predicate CarriesData(p: Packet) {
    p.ptype == LIST_RESPONSE || p.ptype == DOWNLOAD_BEGIN || p.ptype == DOWNLOAD_CHUNK || p.ptype == DOWNLOAD_END
  }

  predicate NoData(ps: seq<Packet>) {
    forall i | 0 <= i < |ps| :: !CarriesData(ps[i])
  }

  /** Before authentication a packet changes nothing and returns no data, whatever it is. */
  lemma UnauthenticatedStepIsHarmless(s: Setup, st: State, c: Conn, p: Packet, env: Env)
    requires !c.authenticated
    ensures var r := Step(s, st, c, p, env);
      && r.st == st && NoData(r.replies)
      && (r.conn.authenticated <==> AuthOk(s, p))
      && (!AuthOk(s, p) ==> r.conn == c)
  {
    hide Apply, Decode, Resolve;
  }

  /** After authentication the session is replaced only by another matching AUTH_REQUEST; a failed one leaves it. */
  lemma AuthenticatedSessionStays(s: Setup, st: State, c: Conn, p: Packet, env: Env)
    requires c.authenticated
    ensures Step(s, st, c, p, env).conn.authenticated
    ensures !AuthOk(s, p) ==> Step(s, st, c, p, env).conn == c
  {
    hide Apply, Decode, Resolve;
  }

  /** A connection is authenticated exactly when some packet of its trace was a matching AUTH_REQUEST. */
  lemma {:induction false} AuthenticatedExactlyByMatch(s: Setup, st: State, c: Conn, ps: seq<Packet>, env: nat -> Env,
                                                       i: nat)
    ensures Serve(s, st, c, ps, env, i).conn.authenticated <==>
            c.authenticated || exists k | 0 <= k < |ps| :: AuthOk(s, ps[k])
    decreases |ps|
  {
    hide Step;
    if ps != [] {
      var r := Step(s, st, c, ps[0], env(i));
      AuthenticatedExactlyByMatch(s, r.st, r.conn, ps[1..], env, i + 1);
      if c.authenticated {
        AuthenticatedSessionStays(s, st, c, ps[0], env(i));
      } else {
        UnauthenticatedStepIsHarmless(s, st, c, ps[0], env(i));
      }
      assert forall k | 1 <= k < |ps| :: ps[k] == ps[1..][k - 1];
      if k :| 0 <= k < |ps[1..]| && AuthOk(s, ps[1..][k]) {
        assert AuthOk(s, ps[k + 1]);
      }
    }
  }

  /** Over a whole trace without a matching AUTH_REQUEST nothing is changed and nothing is disclosed. */
  lemma {:induction false} NothingHappensBeforeAuth(s: Setup, st: State, c: Conn, ps: seq<Packet>, env: nat -> Env,
                                                    i: nat)
    requires !c.authenticated && forall k | 0 <= k < |ps| :: !AuthOk(s, ps[k])
    ensures var r := Serve(s, st, c, ps, env, i);
      r.st == st && r.conn == c && NoData(r.replies)
    decreases |ps|
  {
    hide Step;
    if ps != [] {
      UnauthenticatedStepIsHarmless(s, st, c, ps[0], env(i));
      NothingHappensBeforeAuth(s, st, c, ps[1..], env, i + 1);
    }
  }

  /** A connection is logged in exactly if some packet of it was a matching AUTH_REQUEST: it starts logged out. */
  lemma ConnectionLogsInExactly(s: Setup, st: State, ps: seq<Packet>, env: nat -> Env)
    ensures Serve(s, st, NEW_CONN, ps, env, 0).conn.authenticated <==> exists k | 0 <= k < |ps| :: AuthOk(s, ps[k])
  {
    AuthenticatedExactlyByMatch(s, st, NEW_CONN, ps, env, 0);
  }

  lemma DecodedTexts(p: Packet)
    requires Decode([TextK, TextK], p.payload).Good?
    ensures var fs := Decode([TextK, TextK], p.payload).value;
      |fs| == 2 && fs[0].Text? && fs[1].Text?
  {
    DecodedKinds([TextK, TextK], p.payload);
    hide Decode;
  }

  /**
   * What an AUTH_REQUEST does. It logs in exactly if it names a user with a stored hash, and that is the digest of the
   * password in it; every other one leaves the connection as it was.
   */
  lemma LoginByStoredHash(s: Setup, st: State, c: Conn, p: Packet, env: Env)
    requires p.ptype == AUTH_REQUEST
    ensures var h := s.cfg.hasher;
      var r := Step(s, st, c, p, env);
      r.st == st && |r.replies| == 1 &&
      match Decode([TextK, TextK], p.payload)
      case Bad => r.conn == c && r.replies[0].ptype == ERROR && !AuthOk(s, p)
      case Good(fs, _) =>
        && |fs| == 2 && fs[0].Text? && fs[1].Text?
        && var u, password := fs[0].s, fs[1].s;
        if u in s.users && s.users[u] != [] && s.users[u] == Hex(h.final(h.update(h.init, password)))
        then r.conn == Conn(env.rnd, u, true) && AuthOk(s, p)
             && r.replies[0] == Message(AUTH_RESPONSE, [Flag(true), Num(env.rnd),
                                                        Text(Ascii("Authentication successful"))])
        else r.conn == c && !AuthOk(s, p)
             && r.replies[0] == Message(AUTH_RESPONSE, [Flag(false), Num(0), Text(Ascii("Invalid credentials"))])
  {
    if Decode([TextK, TextK], p.payload).Good? {
      DecodedTexts(p);
    }
    hide Decode, Encode, Hex;
  }

  /**
   * The login gate, in digests: a user whose stored hash is that of the password p0 is logged in by p exactly if the
   * two have one digest; an unknown user, or one without a hash, never is.
   */
  lemma LoginExactly(s: Setup, st: State, c: Conn, u: Str, p: Str, p0: Str, env: Env)
    requires Streaming(s.cfg.hasher) && |u| < U16 && |p| < U16
    ensures var h := s.cfg.hasher;
      var r := Step(s, st, c, Message(AUTH_REQUEST, [Text(u), Text(p)]), env);
      && r.st == st && |r.replies| == 1
      && (u in s.users && s.users[u] == Sha256Hex(h, p0) ==>
            if h.final(Absorb(h, p)) == h.final(Absorb(h, p0))
            then r.conn == Conn(env.rnd, u, true) && FlagOf(r.replies[0]) == Some(true)
            else r.conn == c && FlagOf(r.replies[0]) == Some(false))
      && (u !in s.users || s.users[u] == [] ==> r.conn == c && FlagOf(r.replies[0]) == Some(false))
  {
    var h := s.cfg.hasher;
    var fs := [Text(u), Text(p)];
    var request := Message(AUTH_REQUEST, fs);
    assert Kinds(fs) == [TextK, TextK];
    var tail := [Text(p)];
    assert fs[1..] == tail && tail[1..] == [] && AllFit(tail);
    RoundTripExactlyWhenItFits(fs, []);
    assert Encode(fs) + [] == Encode(fs);
    LoginByStoredHash(s, st, c, request, env);
    FirstFlag(true, [Num(env.rnd), Text(Ascii("Authentication successful"))]);
    FirstFlag(false, [Num(0), Text(Ascii("Invalid credentials"))]);
    assert NothingLaw(h, Absorb(h, p0));
    hide Step, Decode, Encode, Hex, AuthOk;
    if Hex(h.final(Absorb(h, p))) == Hex(h.final(Absorb(h, p0))) {
      HexInjective(h.final(Absorb(h, p)), h.final(Absorb(h, p0)));
    }
  }

  /** The flag that a reply starts with, on the wire. */
  function FlagOf(p: Packet): Option<bool> {
    if p.payload == [] || p.payload[0] > 1 then None else Some(p.payload[0] == 1)
  }

  lemma FirstFlag(on: bool, fs: seq<Field>)
    ensures FlagOf(Message(AUTH_RESPONSE, [Flag(on)] + fs)) == Some(on)
    ensures forall m | m == [Flag(on)] + fs :: FlagOf(Message(AUTH_RESPONSE, m)) == Some(on)
  {
    var all := [Flag(on)] + fs;
    assert all[0] == Flag(on) && all[1..] == fs;
    assert Encode(all) == [if on then 1 else 0] + Encode(fs);
  }

  // ---- the server itself ----

  class TcpServer {
    const files: FileService
    const uploads: UploadService
    const users: map<Str, Str>
    const clock: Path -> uint64

    constructor (files: FileService, uploads: UploadService, users: map<Str, Str>, clock: Path -> uint64)
      requires uploads.files == files && Streaming(uploads.hasher)
      ensures this.files == files && this.uploads == uploads && this.users == users && this.clock == clock
      ensures Valid()
    {
      this.files, this.uploads, this.users, this.clock := files, uploads, users, clock;
    }

    ghost predicate Valid() {
      uploads.files == files && Streaming(uploads.hasher)
    }

    function SetUp(): Setup {
      Setup(Config(files.root, uploads.hasher), users, clock)
    }

    /** Sends one reply; a failure is not looked at. */
    method Reply(t: TcpTransport, p: Packet)
      modifies t`sent
      ensures t.reliable ==> t.sent == old(t.sent) + SerializeAll([p])
    {
      var _ := SendPacket(t, p);
      assert SerializeAll([p]) == Serialize(p) + SerializeAll([p][1..]);
    }

    method ReplyError(t: TcpTransport, message: Str)
      modifies t`sent
      ensures t.reliable ==> t.sent == old(t.sent) + SerializeAll([ErrorReply(message)])
    {
      var p := PacketBuilder.OneText(ERROR, message);
      Reply(t, p);
    }

    method ReplyStatus(t: TcpTransport, ptype: uint32, ok: bool, message: Str)
      modifies t`sent
      ensures t.reliable ==> t.sent == old(t.sent) + SerializeAll([StatusReply(ptype, ok, message)])
    {
      var p := PacketBuilder.StatusText(ptype, ok, message);
      Reply(t, p);
    }

    method HandleAuth(t: TcpTransport, session: Conn, packet: Packet, env: Env) returns (after: Conn)
      requires Valid()
      modifies t`sent
      ensures var r := AuthStep(SetUp(), uploads.Abs(), session, packet, env);
        r.st == uploads.Abs() && after == r.conn && (t.reliable ==> t.sent == old(t.sent) + SerializeAll(r.replies))
      ensures match Decode([TextK, TextK], packet.payload)
        case Bad => after == session
        case Good(fs, _) =>
          && |fs| == 2 && fs[0].Text? && fs[1].Text?
          && var u, password := fs[0].s, fs[1].s;
          var h := uploads.hasher;
          if u in users && users[u] != [] && users[u] == Hex(h.final(h.update(h.init, password)))
          then after == Conn(env.rnd, u, true)
          else after == session
    {
      if Decode([TextK, TextK], packet.payload).Good? {
        DecodedTexts(packet);
      }
      hide Decode, Encode;
      after := session;
      var parsed, username, password := PacketBuilder.ParseTwoTexts(packet.payload);
      if !parsed {
        ReplyError(t, Ascii("Malformed AUTH_REQUEST packet"));
        return;
      }
      var ok := false;
      if username in users {
        var stored := users[username];
        var incoming := Sha256File(uploads.hasher, password);
        ok := stored != [] && stored == incoming;
      }
      var resp;
      if ok {
        after := Conn(env.rnd, username, true);
        resp := PacketBuilder.AuthResponse(true, env.rnd, Ascii("Authentication successful"));
      } else {
        resp := PacketBuilder.AuthResponse(false, 0, Ascii("Invalid credentials"));
      }
      Reply(t, resp);
    }

    method HandleList(t: TcpTransport, session: Conn, packet: Packet, env: Env)
      requires Valid()
      modifies t`sent
      ensures t.reliable ==>
        t.sent == old(t.sent) + SerializeAll(ListStep(SetUp(), uploads.Abs(), session, packet, env).replies)
    {
      hide Decode, Encode;
      if !session.authenticated {
        ReplyError(t, Ascii(AUTH_NEEDED));
        return;
      }
      var parsed, path := PacketBuilder.ParseOneText(packet.payload);
      if !parsed {
        ReplyError(t, Ascii("Malformed LIST packet"));
        return;
      }
      var resolved := files.ResolvePath(path);
      if resolved == None {
        ReplyError(t, Ascii("Path traversal attack detected"));
        return;
      }
      var dir := resolved.value;
      if !Exists(files.fs, dir) || !IsDirectory(files.fs, dir) {
        ReplyError(t, Ascii("Directory not found"));
        return;
      }
      var entries := CollectAndSort(files.fs, dir.comps, env.order, clock);
      var payload := SerializeListing(entries);
      Reply(t, Packet(LIST_RESPONSE, |payload|, payload));
    }

    method HandleUploadBegin(t: TcpTransport, session: Conn, packet: Packet)
      requires Valid() && packet.ptype == UPLOAD_BEGIN
      modifies t`sent, uploads, files
      ensures var r := ServiceStep(SetUp().cfg, old(uploads.Abs()), session, packet);
        uploads.Abs() == r.st && session == r.conn && (t.reliable ==> t.sent == old(t.sent) + SerializeAll(r.replies))
    {
      hide Rename, Delete, MakeDir, RemoveDir, Begin, WriteChunk, Finish, Decode, Encode;
      if !session.authenticated {
        ReplyError(t, Ascii(AUTH_NEEDED));
        return;
      }
      var parsed, id, size, path, filename, hash := PacketBuilder.ParseUploadBegin(packet.payload);
      if !parsed {
        ReplyError(t, Ascii("Malformed UPLOAD_BEGIN packet"));
        return;
      }
      var ok, err := uploads.BeginUpload(id, path, filename, size, hash);
      if !ok {
        ReplyError(t, err);
      } else {
        var resp := PacketBuilder.OneText(SUCCESS, Ascii("Upload session ready"));
        Reply(t, resp);
      }
    }

    method HandleUploadChunk(t: TcpTransport, session: Conn, packet: Packet)
      requires Valid() && packet.ptype == UPLOAD_CHUNK
      modifies t`sent, uploads, files
      ensures var r := ServiceStep(SetUp().cfg, old(uploads.Abs()), session, packet);
        uploads.Abs() == r.st && session == r.conn && (t.reliable ==> t.sent == old(t.sent) + SerializeAll(r.replies))
    {
      hide Rename, Delete, MakeDir, RemoveDir, Begin, WriteChunk, Finish, Decode, Encode;
      if !session.authenticated {
        ReplyError(t, Ascii(AUTH_NEEDED));
        return;
      }
      var parsed, id, offset, data := PacketBuilder.ParseChunk(packet.payload);
      if !parsed {
        ReplyError(t, Ascii("Malformed UPLOAD_CHUNK packet"));
        return;
      }
      var ok, err := uploads.Write(id, offset, data);
      if !ok {
        ReplyError(t, err);
      } else {
        assert t.sent + [] == t.sent;
      }
    }

    method HandleUploadEnd(t: TcpTransport, session: Conn, packet: Packet)
      requires Valid() && packet.ptype == UPLOAD_END
      modifies t`sent, uploads, files
      ensures var r := ServiceStep(SetUp().cfg, old(uploads.Abs()), session, packet);
        uploads.Abs() == r.st && session == r.conn && (t.reliable ==> t.sent == old(t.sent) + SerializeAll(r.replies))
    {
      hide Rename, Delete, MakeDir, RemoveDir, Begin, WriteChunk, Finish, Decode, Encode;
      if !session.authenticated {
        ReplyError(t, Ascii(AUTH_NEEDED));
        return;
      }
      var parsed, id := PacketBuilder.ParseEnd(packet.payload);
      if !parsed {
        ReplyError(t, Ascii("Malformed UPLOAD_END packet"));
        return;
      }
      var ok, err := uploads.FinishUpload(id);
      if !ok {
        ReplyError(t, err);
      } else {
        var resp := PacketBuilder.OneText(SUCCESS, Ascii("Upload verified and completed"));
        Reply(t, resp);
      }
    }

    method HandleRename(t: TcpTransport, session: Conn, packet: Packet)
      requires Valid() && packet.ptype == RENAME_REQUEST
      modifies t`sent, files
      ensures var r := ServiceStep(SetUp().cfg, old(uploads.Abs()), session, packet);
        uploads.Abs() == r.st && session == r.conn && (t.reliable ==> t.sent == old(t.sent) + SerializeAll(r.replies))
    {
      hide Rename, Delete, MakeDir, RemoveDir, Begin, WriteChunk, Finish, Decode, Encode;
      if !session.authenticated {
        ReplyStatus(t, RENAME_RESPONSE, false, Ascii(AUTH_NEEDED));
        return;
      }
      var parsed, src, dst := PacketBuilder.ParseTwoTexts(packet.payload);
      if !parsed {
        ReplyStatus(t, RENAME_RESPONSE, false, Ascii("Malformed RENAME_REQUEST packet"));
        return;
      }
      var ok, message := StorageServices.RenamePath(files, src, dst);
      ReplyStatus(t, RENAME_RESPONSE, ok, message);
    }

    /** DELETE_REQUEST, MKDIR_REQUEST and RMDIR_REQUEST: one path in, a status out. */
    method HandlePath(t: TcpTransport, session: Conn, packet: Packet)
      requires Valid() && packet.ptype in {DELETE_REQUEST, MKDIR_REQUEST, RMDIR_REQUEST}
      modifies t`sent, files
      ensures var r := ServiceStep(SetUp().cfg, old(uploads.Abs()), session, packet);
        uploads.Abs() == r.st && session == r.conn && (t.reliable ==> t.sent == old(t.sent) + SerializeAll(r.replies))
    {
      hide Rename, Delete, MakeDir, RemoveDir, Begin, WriteChunk, Finish, Decode, Encode;
      var respType := ResponseType(packet.ptype);
      if !session.authenticated {
        ReplyStatus(t, respType, false, Ascii(AUTH_NEEDED));
        return;
      }
      var parsed, path := PacketBuilder.ParseOneText(packet.payload);
      if !parsed {
        ReplyStatus(t, respType, false, Ascii(MalformedText(packet.ptype)));
        return;
      }
      var ok, message;
      if packet.ptype == DELETE_REQUEST {
        ok, message := StorageServices.DeletePath(files, path);
      } else if packet.ptype == MKDIR_REQUEST {
        ok, message := StorageServices.CreateDirectory(files, path);
      } else {
        ok, message := StorageServices.RemoveDirectory(files, path);
      }
      ReplyStatus(t, respType, ok, message);
    }

    /** DownloadService::prepareDownload */
    method PrepareDownload(path: Str, rnd: uint64) returns (r: Prepared)
      requires Valid()
      ensures r == Prepare(SetUp().cfg, files.fs, path, rnd)
      ensures r.Ready? <==> Downloadable(files.fs, files.root, path)
      ensures r.Ready? ==> Describes(r.meta, files.fs, uploads.hasher, Resolve(files.fs, files.root, path).value.comps)
    {
      PreparesExactly(SetUp().cfg, files.fs, path, rnd);
      hide Resolve, Downloadable, Describes;
      if path == [] {
        return Refused("Remote path cannot be empty");
      }
      var resolved := files.ResolvePath(path);
      if resolved == None {
        return Refused(TRAVERSAL);
      }
      var target := resolved.value;
      if !Exists(files.fs, target) {
        return Refused("File not found");
      }
      if IsDirectory(files.fs, target) {
        return Refused("Target is a directory, not a file");
      }
      var ino := files.fs.tree[target.comps].ino;
      var size := |Content(files.fs, ino)| % U64;
      var hash := Sha256File(uploads.hasher, Content(files.fs, ino));
      var name := if target.comps == [] then [] else target.comps[|target.comps| - 1];
      r := Ready(Meta(rnd, size, name, hash, ino));
    }

    /** DownloadService::streamFile */
    method StreamFile(t: TcpTransport, m: Meta) returns (ok: bool)
      modifies t`sent
      ensures t.reliable ==> ok && t.sent == old(t.sent) + SerializeAll(StreamPackets(m, Content(files.fs, m.ino)))
    {
      var begin := PacketBuilder.DownloadBegin(m.id, m.size, m.filename, m.hash);
      ok := SendPacket(t, begin);
      if !ok {
        return;
      }
      ghost var head := [begin];
      ghost var done := head;
      assert SerializeAll(done) == Serialize(begin) + SerializeAll(done[1..]);
      var file := Content(files.fs, m.ino);
      ghost var all := ChunkPackets(DOWNLOAD_CHUNK, m.id, file, m.size, 0);
      var offset := 0;
      var good := true;
      while good && offset < m.size
        invariant 0 <= offset <= |file| && (!good ==> offset == |file|)
        invariant t.reliable ==> t.sent == old(t.sent) + SerializeAll(done)
        invariant head + all == done + ChunkPackets(DOWNLOAD_CHUNK, m.id, file, m.size, offset)
        decreases good, |file| - offset
      {
        var bytes := Min(CHUNK_SIZE, |file| - offset);
        good := bytes == CHUNK_SIZE;
        if bytes <= 0 {
          break;
        }
        var chunk := PacketBuilder.Chunk(DOWNLOAD_CHUNK, m.id, offset, file[offset..offset + bytes]);
        ok := SendPacket(t, chunk);
        if !ok {
          return;
        }
        SentSnoc(old(t.sent), done, chunk);
        Associate(done, [chunk], ChunkPackets(DOWNLOAD_CHUNK, m.id, file, m.size, offset + bytes));
        done := done + [chunk];
        offset := offset + bytes;
      }
      assert done + [] == done;
      var end := PacketBuilder.End(DOWNLOAD_END, m.id);
      ok := SendPacket(t, end);
      SentSnoc(old(t.sent), done, end);
    }

    method HandleDownload(t: TcpTransport, session: Conn, packet: Packet, env: Env)
      requires Valid()
      modifies t`sent
      ensures t.reliable ==>
        t.sent == old(t.sent) + SerializeAll(DownloadStep(SetUp(), uploads.Abs(), session, packet, env).replies)
    {
      hide Decode, Encode;
      if !session.authenticated {
        ReplyError(t, Ascii(AUTH_NEEDED));
        return;
      }
      var parsed, path := PacketBuilder.ParseOneText(packet.payload);
      if !parsed {
        ReplyError(t, Ascii("Malformed DOWNLOAD_REQUEST packet"));
        return;
      }
      var prepared := PrepareDownload(path, env.rnd);
      if prepared.Refused? {
        ReplyError(t, Ascii(prepared.error));
        return;
      }
      var _ := StreamFile(t, prepared.meta);
    }

    /** The switch of handleClient. */
    method HandlePacket(t: TcpTransport, session: Conn, packet: Packet, env: Env) returns (after: Conn)
      requires Valid()
      modifies t`sent, uploads, files
      ensures var r := Step(SetUp(), old(uploads.Abs()), session, packet, env);
        && uploads.Abs() == r.st && after == r.conn
        && (t.reliable ==> t.sent == old(t.sent) + SerializeAll(r.replies))
    {
      hide AuthStep, ServiceStep, ListReply, DownloadReplies, Decode;
      after := session;
      assert t.sent + [] == t.sent;
      if packet.ptype == PING {
        var pong := PacketBuilder.Pong();
        Reply(t, pong);
      } else if packet.ptype == AUTH_REQUEST {
        after := HandleAuth(t, session, packet, env);
      } else if packet.ptype == LIST {
        HandleList(t, session, packet, env);
      } else if packet.ptype == UPLOAD_BEGIN {
        HandleUploadBegin(t, session, packet);
      } else if packet.ptype == UPLOAD_CHUNK {
        HandleUploadChunk(t, session, packet);
      } else if packet.ptype == UPLOAD_END {
        HandleUploadEnd(t, session, packet);
      } else if packet.ptype == DOWNLOAD_REQUEST {
        HandleDownload(t, session, packet, env);
      } else if packet.ptype == RENAME_REQUEST {
        HandleRename(t, session, packet);
      } else if packet.ptype == DELETE_REQUEST || packet.ptype == MKDIR_REQUEST || packet.ptype == RMDIR_REQUEST {
        HandlePath(t, session, packet);
      } else if packet.ptype == DELETE_FILE || packet.ptype == RENAME_FILE || packet.ptype == MKDIR {
        if !session.authenticated {
          ReplyError(t, Ascii(AUTH_NEEDED));
        }
      }
    }

    /** One turn of the receive loop, behind the packets that were taken before it. */
    method HandleNext(t: TcpTransport, session: Conn, packet: Packet, env: nat -> Env, i: nat,
                      ghost start: State, ghost taken: seq<Packet>)
      returns (after: Conn)
      requires Valid() && i == |taken| && Serve(SetUp(), start, NEW_CONN, taken, env, 0).st == uploads.Abs()
      requires Serve(SetUp(), start, NEW_CONN, taken, env, 0).conn == session
      modifies t`sent, uploads, files
      ensures var r := Serve(SetUp(), start, NEW_CONN, taken + [packet], env, 0);
        && uploads.Abs() == r.st && after == r.conn
        && var before := Serve(SetUp(), start, NEW_CONN, taken, env, 0);
        && before.replies <= r.replies
        && (t.reliable ==> t.sent == old(t.sent) + SerializeAll(r.replies[|before.replies|..]))
    {
      hide Step;
      ServeSnoc(SetUp(), start, NEW_CONN, taken, packet, env, 0);
      ghost var r := Step(SetUp(), uploads.Abs(), session, packet, env(i));
      ghost var before := Serve(SetUp(), start, NEW_CONN, taken, env, 0);
      assert (before.replies + r.replies)[|before.replies|..] == r.replies;
      after := HandlePacket(t, session, packet, env(i));
    }

    /**
     * The receive loop of one connection, over whatever pieces the stream arrives in. The state is that of serving the
     * packets received so far, whether the replies get through or not; `served` counts them.
     */
    method HandleClient(t: TcpTransport, env: nat -> Env) returns (ghost served: nat)
      requires Valid()
      modifies t, uploads, files
      ensures served <= |Frames(old(t.inbox))|
      ensures uploads.Abs() == Serve(SetUp(), old(uploads.Abs()), NEW_CONN, Frames(old(t.inbox))[..served], env, 0).st
      ensures t.reliable ==>
        && served == |Frames(old(t.inbox))|
        && t.sent == old(t.sent)
             + SerializeAll(Serve(SetUp(), old(uploads.Abs()), NEW_CONN, Frames(old(t.inbox)), env, 0).replies)
      ensures (forall k | 0 <= k < |Frames(old(t.inbox))| :: !AuthOk(SetUp(), Frames(old(t.inbox))[k])) ==>
        && uploads.Abs() == old(uploads.Abs())
        && (t.reliable ==> exists replies :: NoData(replies) && t.sent == old(t.sent) + SerializeAll(replies))
    {
      hide Step, Serve, SerializeAll, AuthOk;
      var session := NEW_CONN;
      ghost var start, all := uploads.Abs(), Frames(t.inbox);
      var i := 0;
      assert all[..0] == [] && all[0..] == all;
      ServeNothing(SetUp(), start, NEW_CONN, env, 0);
      assert t.sent + SerializeAll([]) == t.sent by { NothingToSend(); }
      while true
        invariant i <= |all| && Frames(t.inbox) == all[i..]
        invariant Serve(SetUp(), start, NEW_CONN, all[..i], env, 0).st == uploads.Abs()
        invariant Serve(SetUp(), start, NEW_CONN, all[..i], env, 0).conn == session
        invariant t.reliable ==>
          t.sent == old(t.sent) + SerializeAll(Serve(SetUp(), start, NEW_CONN, all[..i], env, 0).replies)
        decreases |t.inbox|
      {
        var received, packet := ReceivePacket(t);
        if !received {
          break;
        }
        assert all[i..] == [packet] + Frames(t.inbox);
        NextOf(all, i, packet, Frames(t.inbox));
        ghost var before := Serve(SetUp(), start, NEW_CONN, all[..i], env, 0).replies;
        session := HandleNext(t, session, packet, env, i, start, all[..i]);
        ghost var replies := Serve(SetUp(), start, NEW_CONN, all[..i + 1], env, 0).replies;
        SentAppend(old(t.sent), before, replies[|before|..]);
        assert before + replies[|before|..] == replies;
        i := i + 1;
      }
      served := i;
      assert t.reliable ==> all[..i] == all;
      if forall k | 0 <= k < |all| :: !AuthOk(SetUp(), all[k]) {
        NothingHappensBeforeAuth(SetUp(), start, NEW_CONN, all[..i], env, 0);
      }
    }
  }
}
