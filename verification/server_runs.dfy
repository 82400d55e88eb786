/** Whole connections: the authentication gate, how many replies each packet gets, and what runs keep. */
module ServerRuns {
  import opened Bytes
  import opened Packets
  import opened FileSystem
  import opened Listing
  import opened Uploads
  import opened UploadRuns
  import opened Server

  // ---- replies ----

  /** The requests that are answered by exactly one packet, whatever the state. */
  predicate OneReply(ptype: uint32) {
    ptype == PING || ptype == AUTH_REQUEST || ptype == LIST || IsTreeRequest(ptype)
    || ptype == UPLOAD_BEGIN || ptype == UPLOAD_END
  }

  /** The packet types that only a logged-in connection may send. */
  predicate NeedsLogin(ptype: uint32) {
    || ptype in {LIST, UPLOAD_BEGIN, UPLOAD_CHUNK, UPLOAD_END, DOWNLOAD_REQUEST}
    || ptype in {DELETE_REQUEST, RENAME_REQUEST, MKDIR_REQUEST, RMDIR_REQUEST}
    || ptype in {DELETE_FILE, RENAME_FILE, MKDIR}
  }

  /** Which types of packets answer which, in every state. */
  lemma EveryTypeIsAnswered(s: Setup, st: State, c: Conn, p: Packet, env: Env)
    ensures var rs := Step(s, st, c, p, env).replies;
      && (p.ptype == PING ==> rs == [Packet(PONG, 0, [])])
      && (p.ptype == AUTH_REQUEST ==> |rs| == 1 && rs[0].ptype in {AUTH_RESPONSE, ERROR})
      && (p.ptype == LIST ==> |rs| == 1 && rs[0].ptype in {LIST_RESPONSE, ERROR})
      && (p.ptype in {UPLOAD_BEGIN, UPLOAD_END} ==> |rs| == 1 && rs[0].ptype in {SUCCESS, ERROR})
      && (p.ptype == UPLOAD_CHUNK ==> rs == [] || (|rs| == 1 && rs[0].ptype == ERROR))
      && (p.ptype == DELETE_REQUEST ==> |rs| == 1 && rs[0].ptype == DELETE_RESPONSE)
      && (p.ptype == RENAME_REQUEST ==> |rs| == 1 && rs[0].ptype == RENAME_RESPONSE)
      && (p.ptype == MKDIR_REQUEST ==> |rs| == 1 && rs[0].ptype == MKDIR_RESPONSE)
      && (p.ptype == RMDIR_REQUEST ==> |rs| == 1 && rs[0].ptype == RMDIR_RESPONSE)
      && (p.ptype == DOWNLOAD_REQUEST ==>
            (|rs| == 1 && rs[0].ptype == ERROR) ||
            (|rs| >= 2 && rs[0].ptype == DOWNLOAD_BEGIN && rs[|rs| - 1].ptype == DOWNLOAD_END))
      && (p.ptype in {DELETE_FILE, RENAME_FILE, MKDIR} && c.authenticated ==> rs == [])
      && (p.ptype !in {PING, AUTH_REQUEST} && !NeedsLogin(p.ptype) ==> rs == [])
  {
    hide Apply, Decode, Resolve, SerializeEntries, Authenticate, ParseRequest, Prepare, ChunkPackets;
    assert Encode([]) == [];
  }

  /** Before login each of the types that need one is turned down, in the form of its own reply. */
  lemma LoginIsAskedFor(s: Setup, st: State, c: Conn, p: Packet, env: Env)
    requires !c.authenticated && NeedsLogin(p.ptype)
    ensures var text := Text(Ascii("Authentication required"));
      Step(s, st, c, p, env) == StepResult(st, c, [
        if p.ptype == DELETE_REQUEST then Message(DELETE_RESPONSE, [Flag(false), text])
        else if p.ptype == RENAME_REQUEST then Message(RENAME_RESPONSE, [Flag(false), text])
        else if p.ptype == MKDIR_REQUEST then Message(MKDIR_RESPONSE, [Flag(false), text])
        else if p.ptype == RMDIR_REQUEST then Message(RMDIR_RESPONSE, [Flag(false), text])
        else Message(ERROR, [text])])
  {
    hide Encode;
  }

  /** A packet whose payload does not parse changes nothing and is answered by its name. */
  lemma MalformedIsSaid(s: Setup, st: State, c: Conn, p: Packet, env: Env)
    requires c.authenticated || p.ptype == AUTH_REQUEST
    ensures var r := Step(s, st, c, p, env);
      var bad := (text: string) => StepResult(st, c, [Message(ERROR, [Text(Ascii(text))])]);
      var no := (ptype: uint32, text: string) => StepResult(st, c, [Message(ptype, [Flag(false), Text(Ascii(text))])]);
      && (p.ptype == AUTH_REQUEST && Decode([TextK, TextK], p.payload).Bad? ==>
            r == bad("Malformed AUTH_REQUEST packet"))
      && (p.ptype == LIST && Decode([TextK], p.payload).Bad? ==> r == bad("Malformed LIST packet"))
      && (p.ptype == UPLOAD_BEGIN && Decode([NumK, NumK, TextK, TextK, TextK], p.payload).Bad? ==>
            r == bad("Malformed UPLOAD_BEGIN packet"))
      && (p.ptype == UPLOAD_CHUNK && Decode([NumK, NumK, BlobK], p.payload).Bad? ==>
            r == bad("Malformed UPLOAD_CHUNK packet"))
      && (p.ptype == UPLOAD_END && Decode([NumK], p.payload).Bad? ==> r == bad("Malformed UPLOAD_END packet"))
      && (p.ptype == DOWNLOAD_REQUEST && Decode([TextK], p.payload).Bad? ==>
            r == bad("Malformed DOWNLOAD_REQUEST packet"))
      && (p.ptype == DELETE_REQUEST && Decode([TextK], p.payload).Bad? ==>
            r == no(DELETE_RESPONSE, "Malformed DELETE_REQUEST packet"))
      && (p.ptype == RENAME_REQUEST && Decode([TextK, TextK], p.payload).Bad? ==>
            r == no(RENAME_RESPONSE, "Malformed RENAME_REQUEST packet"))
      && (p.ptype == MKDIR_REQUEST && Decode([TextK], p.payload).Bad? ==>
            r == no(MKDIR_RESPONSE, "Malformed MKDIR_REQUEST packet"))
      && (p.ptype == RMDIR_REQUEST && Decode([TextK], p.payload).Bad? ==>
            r == no(RMDIR_RESPONSE, "Malformed RMDIR_REQUEST packet"))
  {
    hide Decode, Encode, Apply, Authenticate, ListReply, DownloadReplies;
  }

  lemma ExactlyOneReply(s: Setup, st: State, c: Conn, p: Packet, env: Env)
    requires OneReply(p.ptype)
    ensures |Step(s, st, c, p, env).replies| == 1
  {
    hide Apply, Decode, Resolve;
  }

  /** A chunk that is turned down gets one ERROR; an accepted one gets nothing. */
  lemma ChunkReplies(s: Setup, st: State, c: Conn, p: Packet, env: Env)
    requires p.ptype == UPLOAD_CHUNK
    ensures var r := Step(s, st, c, p, env);
      && (r.replies == [] || (|r.replies| == 1 && r.replies[0].ptype == ERROR && r.st == st))
      && r.conn == c
  {
  }

  /** How many of the packets are answered. */
  function Rejected(s: Setup, st: State, c: Conn, ps: seq<Packet>, env: nat -> Env, i: nat): nat
    decreases |ps|
  {
    if ps == [] then 0 else
    var r := Step(s, st, c, ps[0], env(i));
    (if r.replies == [] then 0 else 1) + Rejected(s, r.st, r.conn, ps[1..], env, i + 1)
  }

  predicate AllChunks(ps: seq<Packet>) {
    forall i | 0 <= i < |ps| :: ps[i].ptype == UPLOAD_CHUNK
  }

  predicate AllErrors(ps: seq<Packet>) {
    forall i | 0 <= i < |ps| :: ps[i].ptype == ERROR
  }

  /** A run of chunks is answered by one ERROR for each rejected chunk and nothing else. */
  lemma {:induction false} ChunksLeaveTheirRejections(s: Setup, st: State, c: Conn, ps: seq<Packet>, env: nat -> Env,
                                                      i: nat)
    requires AllChunks(ps)
    ensures var r := Serve(s, st, c, ps, env, i);
      |r.replies| == Rejected(s, st, c, ps, env, i) && AllErrors(r.replies) && r.conn == c
    decreases |ps|
  {
    hide Step;
    if ps != [] {
      ChunkReplies(s, st, c, ps[0], env(i));
      var r := Step(s, st, c, ps[0], env(i));
      ChunksLeaveTheirRejections(s, r.st, r.conn, ps[1..], env, i + 1);
    }
  }

  // ---- requests and connections ----

  /** The requests a connection hands to the services. */
  function RequestsOf(s: Setup, c: Conn, ps: seq<Packet>): seq<Request>
    decreases |ps|
  {
    if ps == [] then [] else
    var p := ps[0];
    var auth := c.authenticated || AuthOk(s, p);
    (if c.authenticated && (IsUploadRequest(p.ptype) || IsTreeRequest(p.ptype)) && ParseRequest(p).Some?
     then [ParseRequest(p).value] else [])
    + RequestsOf(s, c.(authenticated := auth), ps[1..])
  }

  /** To the disk and the sessions a connection is a run of requests: upload_runs speaks about every connection. */
  lemma {:induction false} ConnectionIsARun(s: Setup, st: State, c: Conn, ps: seq<Packet>, env: nat -> Env, i: nat)
    ensures Serve(s, st, c, ps, env, i).st == Run(s.cfg, st, RequestsOf(s, c, ps))
    decreases |ps|
  {
    hide Step;
    if ps != [] {
      var p := ps[0];
      var r := Step(s, st, c, p, env(i));
      StepIsAtMostOneRequest(s, st, c, p, env(i));
      ConnectionIsARun(s, r.st, r.conn, ps[1..], env, i + 1);
      RequestsIgnoreIdentity(s, r.conn, c.(authenticated := c.authenticated || AuthOk(s, p)), ps[1..]);
      var rest := RequestsOf(s, r.conn, ps[1..]);
      if c.authenticated && (IsUploadRequest(p.ptype) || IsTreeRequest(p.ptype)) && ParseRequest(p).Some? {
        var q := ParseRequest(p).value;
        assert ([q] + rest)[1..] == rest;
      } else {
        assert [] + rest == rest;
      }
    }
  }

  lemma StepIsAtMostOneRequest(s: Setup, st: State, c: Conn, p: Packet, env: Env)
    ensures Step(s, st, c, p, env).st ==
      if c.authenticated && (IsUploadRequest(p.ptype) || IsTreeRequest(p.ptype)) && ParseRequest(p).Some?
      then Apply(s.cfg, st, ParseRequest(p).value).st else st
    ensures Step(s, st, c, p, env).conn.authenticated == (c.authenticated || AuthOk(s, p))
  {
  }

  lemma {:induction false} RequestsIgnoreIdentity(s: Setup, a: Conn, b: Conn, ps: seq<Packet>)
    requires a.authenticated == b.authenticated
    ensures RequestsOf(s, a, ps) == RequestsOf(s, b, ps)
    decreases |ps|
  {
    if ps != [] {
      var auth := a.authenticated || AuthOk(s, ps[0]);
      RequestsIgnoreIdentity(s, a.(authenticated := auth), b.(authenticated := auth), ps[1..]);
    }
  }

  /** Chunk data that came out of a packet fits its 32-bit length field. */
  lemma ParsedChunksFit(p: Packet)
    requires ParseRequest(p).Some?
    ensures ChunkFits(ParseRequest(p).value)
  {
    if p.ptype == UPLOAD_CHUNK {
      RebuildGivesPrefix([NumK, NumK, BlobK], p.payload);
      var d := Decode([NumK, NumK, BlobK], p.payload);
      var fs := d.value;
      assert AllFit(fs) && AllFit(fs[1..]) && AllFit(fs[1..][1..]);
      assert |fs| > 2 ==> fs[1..][1..][0] == fs[2];
    }
  }

  lemma {:induction false} RequestsFit(s: Setup, c: Conn, ps: seq<Packet>)
    ensures ChunksFit(RequestsOf(s, c, ps))
    decreases |ps|
  {
    hide ParseRequest, ChunkFits, AuthOk;
    if ps != [] {
      var p := ps[0];
      RequestsFit(s, c.(authenticated := c.authenticated || AuthOk(s, p)), ps[1..]);
      if ParseRequest(p).Some? {
        ParsedChunksFit(p);
      }
    }
  }

  /** Any connection keeps all sessions consistent throughout exactly if each UPLOAD_BEGIN it sends opens cleanly. */
  lemma ConnectionKeepsSessionsExactly(s: Setup, st: State, c: Conn, ps: seq<Packet>, env: nat -> Env, i: nat)
    requires GoodConfig(s.cfg) && SessionInv(st, s.cfg.hasher)
    ensures var qs := RequestsOf(s, c, ps);
      && (ConsistentThroughout(s.cfg, st, qs) <==> CleanRun(s.cfg, st, qs))
      && (CleanRun(s.cfg, st, qs) ==> SessionInv(Serve(s, st, c, ps, env, i).st, s.cfg.hasher))
  {
    var qs := RequestsOf(s, c, ps);
    RequestsFit(s, c, ps);
    ConnectionIsARun(s, st, c, ps, env, i);
    RunKeepsInvariantExactly(s.cfg, st, qs);
    hide RequestsOf, SessionInv, Serve;
    if CleanRun(s.cfg, st, qs) {
      RunKeepsInvariant(s.cfg, st, qs);
    }
  }

  /** After any connection, with any packets, the tree is rooted and every file has its own inode. */
  lemma AnyConnectionKeepsTree(s: Setup, st: State, ps: seq<Packet>, env: nat -> Env)
    requires GoodConfig(s.cfg) && Valid(st.fs) && SessionsOpen(st)
    ensures Valid(Serve(s, st, NEW_CONN, ps, env, 0).st.fs)
  {
    ConnectionIsARun(s, st, NEW_CONN, ps, env, 0);
    TreeStaysValid(s.cfg, st, RequestsOf(s, NEW_CONN, ps));
  }
}
