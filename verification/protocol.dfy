/** Client and server together: replies stay in step, uploads and downloads arrive as they were sent. */
module Protocol {
  import opened Bytes
  import opened Digest
  import opened Packets
  import opened Framing
  import opened Paths
  import opened FileSystem
  import opened StorageServices
  import opened Listing
  import opened Uploads
  import opened UploadRuns
  import opened Server
  import opened Client

  // ---- packets on the wire ----

  lemma DecodeOfMessage(fs: seq<Field>, ks: seq<Kind>)
    requires Kinds(fs) == ks && AllFit(fs)
    ensures Decode(ks, Encode(fs)) == Good(fs, [])
  {
    RoundTripExactlyWhenItFits(fs, []);
    assert Encode(fs) + [] == Encode(fs);
  }

  lemma AllFitOf(fs: seq<Field>)
    requires forall i | 0 <= i < |fs| :: Fits(fs[i])
    ensures AllFit(fs)
  {
    if fs != [] {
      AllFitOf(fs[1..]);
    }
  }

  lemma {:induction false} EncodeLength(fs: seq<Field>)
    requires forall i | 0 <= i < |fs| :: |EncodeField(fs[i])| <= 0x2_0000_0000
    ensures |Encode(fs)| <= |fs| * 0x2_0000_0000
  {
    hide EncodeField;
    if fs != [] {
      EncodeLength(fs[1..]);
    }
  }

  /** A message of at most five fields, each under 2^33 bytes, has a size its header can hold. */
  lemma FewFieldsWellFormed(ptype: uint32, fs: seq<Field>)
    requires |fs| <= 5 && forall i | 0 <= i < |fs| :: |EncodeField(fs[i])| < 0x2_0000_0000
    ensures WellFormed(Message(ptype, fs))
  {
    EncodeLength(fs);
  }

  lemma StreamOfTwo(a: Packet, b: Packet)
    requires WellFormed(a) && WellFormed(b)
    ensures var s := SerializeAll([a, b]);
      ReadPacket(s).Good? && ReadPacket(s).value == a
      && ReadPacket(ReadPacket(s).rest) == Good(b, [])
  {
    var s := SerializeAll([a, b]);
    assert [a, b][1..] == [b] && [b][1..] == [];
    assert SerializeAll([b]) == Serialize(b) + SerializeAll([]) == Serialize(b) + [];
    assert s == Serialize(a) + SerializeAll([b]);
    PacketRoundTrip(a, SerializeAll([b]));
    PacketRoundTrip(b, []);
  }

  // ---- upload, end to end ----

  /** The state in which session id has stored exactly these bytes. */
  function Stored(st: State, h: Hasher, id: uint64, bytes: FileBytes): State
    requires id in st.sessions
  {
    var s := st.sessions[id];
    State(st.fs.(data := st.fs.data[s.ino := bytes]),
          st.sessions[id := s.(receivedBytes := |bytes|, pos := |bytes|, ctx := Absorb(h, bytes))])
  }

  /** A request to the services, from a packet that parses to it. */
  lemma RequestIsServed(s: Setup, st: State, c: Conn, p: Packet, q: Request, env: Env)
    requires c.authenticated && (IsUploadRequest(p.ptype) || IsTreeRequest(p.ptype)) && ParseRequest(p) == Some(q)
    ensures var r := Apply(s.cfg, st, q);
      Step(s, st, c, p, env) == StepResult(r.st, c, RepliesTo(p.ptype, r))
  {
    hide Apply, ParseRequest, RepliesTo, AuthStep, ListStep, DownloadStep;
  }

  lemma ParseChunkPacket(id: uint64, pos: uint64, data: seq<byte>)
    requires |data| < U32
    ensures ParseRequest(Message(UPLOAD_CHUNK, [Num(id), Num(pos), Blob(data)])) == Some(UploadChunk(id, pos, data))
    ensures WellFormed(Message(UPLOAD_CHUNK, [Num(id), Num(pos), Blob(data)]))
  {
    var fs := [Num(id), Num(pos), Blob(data)];
    AllFitOf(fs);
    DecodeOfMessage(fs, [NumK, NumK, BlobK]);
    FewFieldsWellFormed(UPLOAD_CHUNK, fs);
  }

  lemma ParseEndPacket(id: uint64)
    ensures ParseRequest(Message(UPLOAD_END, [Num(id)])) == Some(EndUpload(id))
    ensures WellFormed(Message(UPLOAD_END, [Num(id)]))
  {
    var fs := [Num(id)];
    AllFitOf(fs);
    DecodeOfMessage(fs, [NumK]);
    FewFieldsWellFormed(UPLOAD_END, fs);
  }

  lemma ParseBeginPacket(id: uint64, size: uint64, dir: Str, filename: Str, hash: Str)
    requires |dir| < U16 && |filename| < U16 && |hash| < U16
    ensures var p := Message(UPLOAD_BEGIN, [Num(id), Num(size), Text(dir), Text(filename), Text(hash)]);
      ParseRequest(p) == Some(BeginUpload(id, dir, filename, size, hash)) && WellFormed(p)
  {
    var fs := [Num(id), Num(size), Text(dir), Text(filename), Text(hash)];
    AllFitOf(fs);
    DecodeOfMessage(fs, [NumK, NumK, TextK, TextK, TextK]);
    FewFieldsWellFormed(UPLOAD_BEGIN, fs);
  }

  /** One chunk of the file, at its place, is stored without a reply. */
  lemma OneChunkIsStored(s: Setup, st: State, c: Conn, id: uint64, stored: seq<byte>, data: seq<byte>, env: Env)
    requires GoodConfig(s.cfg) && c.authenticated && id in st.sessions
    requires Tracks(st.fs, s.cfg.hasher, st.sessions[id])
    requires st.fs.data[st.sessions[id].ino] == stored && |data| < U32
    requires |stored| + |data| <= st.sessions[id].expectedSize
    ensures var p := Message(UPLOAD_CHUNK, [Num(id), Num(|stored|), Blob(data)]);
      Step(s, st, c, p, env) == StepResult(Stored(st, s.cfg.hasher, id, stored + data), c, [])
    ensures var st' := Stored(st, s.cfg.hasher, id, stored + data);
      id in st'.sessions && Tracks(st'.fs, s.cfg.hasher, st'.sessions[id])
  {
    hide WriteChunk, Step, ParseRequest, Encode;
    var h := s.cfg.hasher;
    var p := Message(UPLOAD_CHUNK, [Num(id), Num(|stored|), Blob(data)]);
    ParseChunkPacket(id, |stored|, data);
    RequestIsServed(s, st, c, p, UploadChunk(id, |stored|, data), env);
    OwnChunkAppends(st, h, id, |stored|, data);
    assert UpdateLaw(h, h.init, stored, data);
  }

  /** The chunks of a file, from any position the session has reached, are all accepted and complete it. */
  lemma {:induction false} ChunksAreStored(s: Setup, st: State, c: Conn, id: uint64, content: FileBytes, pos: nat,
                                           env: nat -> Env, i: nat)
    requires GoodConfig(s.cfg) && c.authenticated && id in st.sessions
    requires Tracks(st.fs, s.cfg.hasher, st.sessions[id])
    requires pos <= |content| && st.fs.data[st.sessions[id].ino] == content[..pos]
    requires st.sessions[id].expectedSize == |content|
    ensures Serve(s, st, c, ChunkPackets(UPLOAD_CHUNK, id, content, |content|, pos), env, i)
         == StepResult(Stored(st, s.cfg.hasher, id, content), c, [])
    ensures var st' := Stored(st, s.cfg.hasher, id, content);
      id in st'.sessions && Tracks(st'.fs, s.cfg.hasher, st'.sessions[id])
    decreases |content| - pos
  {
    hide Step, Tracks, Stored, Encode;
    var h := s.cfg.hasher;
    if pos == |content| {
      assert content[..pos] == content;
      StoredIsCurrent(st, h, id);
    } else {
      var n := Min(CHUNK_SIZE, |content| - pos);
      var ps := ChunkPackets(UPLOAD_CHUNK, id, content, |content|, pos);
      OneChunkIsStored(s, st, c, id, content[..pos], content[pos..pos + n], env(i));
      assert content[..pos] + content[pos..pos + n] == content[..pos + n];
      StoredTwice(st, h, id, content[..pos + n], content);
      ChunksAreStored(s, Stored(st, h, id, content[..pos + n]), c, id, content, pos + n, env, i + 1);
      assert ps[1..] == ChunkPackets(UPLOAD_CHUNK, id, content, |content|, pos + n);
      var r := ServeCons(s, st, c, ps, env, i);
    }
  }

  lemma StoredIsCurrent(st: State, h: Hasher, id: uint64)
    requires id in st.sessions && Tracks(st.fs, h, st.sessions[id])
    ensures Stored(st, h, id, st.fs.data[st.sessions[id].ino]) == st
  {
  }

  lemma StoredTwice(st: State, h: Hasher, id: uint64, a: FileBytes, b: FileBytes)
    requires id in st.sessions
    ensures id in Stored(st, h, id, a).sessions && Stored(Stored(st, h, id, a), h, id, b) == Stored(st, h, id, b)
    ensures Stored(st, h, id, a).sessions[id].expectedSize == st.sessions[id].expectedSize
    ensures Stored(st, h, id, a).sessions[id].ino in Stored(st, h, id, a).fs.data
    ensures Stored(st, h, id, a).fs.data[Stored(st, h, id, a).sessions[id].ino] == a
  {
  }

  const READY := "Upload session ready"
  const COMPLETED := "Upload verified and completed"

  /** An upload that the server can open: the request the client's UPLOAD_BEGIN parses to. */
  function BeginRequest(h: Hasher, id: uint64, content: FileBytes, filename: Str, remoteDir: Str): Request {
    BeginUpload(id, remoteDir, filename, |content|, Sha256Hex(h, content))
  }

  /** UPLOAD_END after all chunks: verified, and nothing of the disk changes. */
  lemma EndIsVerified(s: Setup, st: State, c: Conn, id: uint64, content: FileBytes, env: Env)
    requires GoodConfig(s.cfg) && c.authenticated && id in st.sessions
    requires Tracks(st.fs, s.cfg.hasher, st.sessions[id])
    requires st.fs.data[st.sessions[id].ino] == content && st.sessions[id].expectedSize == |content|
    requires st.sessions[id].expectedHash == Sha256Hex(s.cfg.hasher, content)
    ensures Step(s, st, c, Message(UPLOAD_END, [Num(id)]), env)
         == StepResult(st.(sessions := st.sessions - {id}), c, [SuccessReply(COMPLETED)])
  {
    hide Finish, Step, ParseRequest, Encode;
    var h := s.cfg.hasher;
    ParseEndPacket(id);
    RequestIsServed(s, st, c, Message(UPLOAD_END, [Num(id)]), EndUpload(id), env);
    assert NothingLaw(h, Absorb(h, content));
    OwnFinishVerifies(st, h, id);
  }

  /**
   * How UPLOAD_END is answered, whatever the other sessions are: SUCCESS exactly if the stored bytes have the announced
   * size and digest, ERROR otherwise; the session is gone either way. For an id that is not live, ERROR and no change.
   */
  lemma EndIsAnsweredExactly(s: Setup, st: State, c: Conn, id: uint64, env: Env)
    requires GoodConfig(s.cfg) && c.authenticated
    requires id in st.sessions ==> Tracks(st.fs, s.cfg.hasher, st.sessions[id])
    ensures var r := Step(s, st, c, Message(UPLOAD_END, [Num(id)]), env);
      && |r.replies| == 1 && r.conn == c
      && (r.replies[0].ptype == SUCCESS <==> id in st.sessions && Verified(st, s.cfg.hasher, id))
      && (r.replies[0].ptype == ERROR <==> !(id in st.sessions && Verified(st, s.cfg.hasher, id)))
      && r.st.sessions == st.sessions - {id}
      && (r.replies[0].ptype == SUCCESS || id !in st.sessions ==> r.st.fs == st.fs)
  {
    ParseEndPacket(id);
    RequestIsServed(s, st, c, Message(UPLOAD_END, [Num(id)]), EndUpload(id), env);
    if id in st.sessions {
      hide Step, ParseRequest, Encode, Finish, Verified, Tracks;
      OwnFinishVerifies(st, s.cfg.hasher, id);
    } else {
      hide Step, ParseRequest, Encode;
      assert st.sessions - {id} == st.sessions;
    }
  }

  /**
   * How a chunk is answered, whatever the other sessions are: silence exactly if it continues the stored bytes of a
   * live session and fits the announced size, and one ERROR with no change otherwise.
   */
  lemma ChunkIsAnsweredExactly(s: Setup, st: State, c: Conn, id: uint64, pos: uint64, data: seq<byte>, env: Env)
    requires GoodConfig(s.cfg) && c.authenticated && |data| < U32
    requires id in st.sessions ==>
      Tracks(st.fs, s.cfg.hasher, st.sessions[id]) && |st.fs.data[st.sessions[id].ino]| + |data| < U64
    ensures var r := Step(s, st, c, Message(UPLOAD_CHUNK, [Num(id), Num(pos), Blob(data)]), env);
      && r.conn == c
      && (r.replies == [] <==> Continues(st, id, pos, data))
      && (r.replies != [] ==> |r.replies| == 1 && r.replies[0].ptype == ERROR && r.st == st)
  {
    var p := Message(UPLOAD_CHUNK, [Num(id), Num(pos), Blob(data)]);
    ParseChunkPacket(id, pos, data);
    RequestIsServed(s, st, c, p, UploadChunk(id, pos, data), env);
    hide Step, ParseRequest, Encode;
    if id in st.sessions {
      hide WriteChunk, Continues;
      OwnChunkAppends(st, s.cfg.hasher, id, pos, data);
    }
  }

  /** The packets after an accepted UPLOAD_BEGIN, on the server. */
  lemma DataIsStored(s: Setup, st: State, c: Conn, id: uint64, content: FileBytes, env: nat -> Env, i: nat)
    requires GoodConfig(s.cfg) && c.authenticated && id in st.sessions
    requires Tracks(st.fs, s.cfg.hasher, st.sessions[id])
    requires st.fs.data[st.sessions[id].ino] == [] && st.sessions[id].expectedSize == |content|
    requires st.sessions[id].expectedHash == Sha256Hex(s.cfg.hasher, content)
    ensures Serve(s, st, c, DataPackets(id, content), env, i)
         == StepResult(State(st.fs.(data := st.fs.data[st.sessions[id].ino := content]), st.sessions - {id}), c,
                       [SuccessReply(COMPLETED)])
  {
    hide Step;
    var h := s.cfg.hasher;
    var chunks := ChunkPackets(UPLOAD_CHUNK, id, content, |content|, 0);
    var end := Message(UPLOAD_END, [Num(id)]);
    assert content[..0] == [];
    ChunksAreStored(s, st, c, id, content, 0, env, i);
    var st' := Stored(st, h, id, content);
    EndIsVerified(s, st', c, id, content, env(i + |chunks|));
    hide ChunkPackets, Tracks;
    assert st'.sessions - {id} == st.sessions - {id};
    ServeSnoc(s, st, c, chunks, end, env, i);
    assert [] + [SuccessReply(COMPLETED)] == [SuccessReply(COMPLETED)];
  }

  /** All packets of one upload. */
  function UploadPackets(h: Hasher, id: uint64, content: FileBytes, filename: Str, remoteDir: Str): seq<Packet> {
    [BeginPacket(h, id, content, filename, remoteDir)] + DataPackets(id, content)
  }

  /**
   * End to end, whatever the other sessions are, stale or sharing the target: an upload whose UPLOAD_BEGIN can be
   * opened is answered by two SUCCESS packets; the target then holds exactly the local bytes, the other sessions are as
   * before, and the client that reads those answers off its stream reports SAILOR_OK and has read them all.
   */
  lemma UploadArrives(s: Setup, st: State, c: Conn, id: uint64, content: FileBytes, filename: Str, remoteDir: Str,
                      env: nat -> Env, i: nat)
    returns (r: StepResult, target: Path)
    requires GoodConfig(s.cfg) && c.authenticated && Valid(st.fs)
    requires |filename| < U16 && |remoteDir| < U16
    requires Openable(st, s.cfg.root, id, remoteDir, filename)
    ensures r == Serve(s, st, c, UploadPackets(s.cfg.hasher, id, content, filename, remoteDir), env, i)
    ensures Resolve(st.fs, s.cfg.root, remoteDir).Some?
         && target == Resolve(st.fs, s.cfg.root, remoteDir).value.comps + [filename]
    ensures HoldsFile(r.st.fs, target, content)
    ensures r.st.fs.tree == Apply(s.cfg, st, BeginRequest(s.cfg.hasher, id, content, filename, remoteDir)).st.fs.tree
    ensures r.st.sessions == st.sessions && r.conn == c
    ensures r.replies == [SuccessReply(READY), SuccessReply(COMPLETED)]
    ensures UploadVerdict(BeginPacket(s.cfg.hasher, id, content, filename, remoteDir), DataPackets(id, content),
                          SerializeAll(r.replies))
         == Verdict(SAILOR_OK, UploadPackets(s.cfg.hasher, id, content, filename, remoteDir), 2)
  {
    hide Step, Apply, Resolve, SuccessReply, Openable, Valid, Tracks;
    var h := s.cfg.hasher;
    var begin := BeginPacket(h, id, content, filename, remoteDir);
    var data := DataPackets(id, content);
    var b := BeginStep(s, st, c, id, content, filename, remoteDir, env(i));
    DataIsStored(s, b, c, id, content, env, i + 1);
    assert ([begin] + data)[1..] == data;
    r := ServeCons(s, st, c, [begin] + data, env, i);
    r := Serve(s, st, c, [begin] + data, env, i);
    target := b.sessions[id].target;
    assert [SuccessReply(READY)] + [SuccessReply(COMPLETED)] == [SuccessReply(READY), SuccessReply(COMPLETED)];
    SuccessIsWellFormed(READY);
    SuccessIsWellFormed(COMPLETED);
    StreamOfTwo(SuccessReply(READY), SuccessReply(COMPLETED));
  }

  lemma SuccessIsWellFormed(message: string)
    requires |message| < U16
    ensures WellFormed(SuccessReply(message)) && SuccessReply(message).ptype == SUCCESS
  {
    FewFieldsWellFormed(SUCCESS, [Text(Ascii(message))]);
  }

  lemma BeginStep(s: Setup, st: State, c: Conn, id: uint64, content: FileBytes, filename: Str, remoteDir: Str, env: Env)
    returns (b: State)
    requires GoodConfig(s.cfg) && c.authenticated && Valid(st.fs)
    requires |filename| < U16 && |remoteDir| < U16
    requires Openable(st, s.cfg.root, id, remoteDir, filename)
    ensures b == Apply(s.cfg, st, BeginRequest(s.cfg.hasher, id, content, filename, remoteDir)).st
    ensures id in b.sessions && Tracks(b.fs, s.cfg.hasher, b.sessions[id])
    ensures Step(s, st, c, BeginPacket(s.cfg.hasher, id, content, filename, remoteDir), env)
         == StepResult(b, c, [SuccessReply(READY)])
    ensures id !in st.sessions && id in b.sessions && b.sessions - {id} == st.sessions
    ensures b.sessions[id].expectedSize == |content| && b.sessions[id].expectedHash == Sha256Hex(s.cfg.hasher, content)
    ensures Resolve(st.fs, s.cfg.root, remoteDir).Some?
         && b.sessions[id].target == Resolve(st.fs, s.cfg.root, remoteDir).value.comps + [filename]
    ensures b.sessions[id].ino in b.fs.data && b.fs.data[b.sessions[id].ino] == []
    ensures b.sessions[id].target in b.fs.tree && b.fs.tree[b.sessions[id].target] == File(b.sessions[id].ino)
  {
    hide Step, Apply, Resolve, ParseRequest, Encode, Openable, Valid;
    var h := s.cfg.hasher;
    var hash := Sha256Hex(h, content);
    assert NothingLaw(h, Absorb(h, content));
    ParseBeginPacket(id, |content|, remoteDir, filename, hash);
    var q := BeginRequest(h, id, content, filename, remoteDir);
    RequestIsServed(s, st, c, BeginPacket(h, id, content, filename, remoteDir), q, env);
    b := BeginOpens(s.cfg, st, q);
  }

  /** Any other UPLOAD_BEGIN gets one ERROR, at which the client stops with nothing unread and the table as it was. */
  lemma UploadIsRefused(s: Setup, st: State, c: Conn, id: uint64, content: FileBytes, filename: Str, remoteDir: Str,
                        env: Env, tail: seq<byte>)
    requires GoodConfig(s.cfg) && c.authenticated && Valid(st.fs)
    requires |filename| < U16 && |remoteDir| < U16
    requires !Openable(st, s.cfg.root, id, remoteDir, filename)
    ensures var begin := BeginPacket(s.cfg.hasher, id, content, filename, remoteDir);
      var r := Step(s, st, c, begin, env);
      && r.st.sessions == st.sessions && r.st.fs.data == st.fs.data && r.conn == c
      && |r.replies| == 1 && r.replies[0].ptype == ERROR
      && var inbox := Serialize(r.replies[0]) + tail;
      && UploadVerdict(begin, DataPackets(id, content), inbox) == Verdict(SAILOR_OPERATION_FAILED, [begin], 1)
      && StreamAfter(inbox, 1) == tail
  {
    var h := s.cfg.hasher;
    var q := BeginRequest(h, id, content, filename, remoteDir);
    BeginShape(s.cfg, st, q);
    BeginAcceptsExactly(st, s.cfg.root, h, id, remoteDir, filename, |content|, Sha256Hex(h, content));
    assert !Apply(s.cfg, st, q).ok;
    BeginErrorIsShort(st, s.cfg.root, h, id, remoteDir, filename, |content|, Sha256Hex(h, content));
    assert NothingLaw(h, Absorb(h, content));
    ParseBeginPacket(id, |content|, remoteDir, filename, Sha256Hex(h, content));
    hide Step, Apply, Resolve, ParseRequest, Encode, Openable, Valid, ReadPacket, Serialize;
    RequestIsServed(s, st, c, BeginPacket(h, id, content, filename, remoteDir), q, env);
    var reply := ErrorReply(Apply(s.cfg, st, q).error);
    FewFieldsWellFormed(ERROR, [Text(Apply(s.cfg, st, q).error)]);
    PacketRoundTrip(reply, tail);
    assert StreamAfter(tail, 0) == tail;
  }

  lemma BeginErrorIsShort(st: State, root: Path, h: Hasher, id: uint64, remoteDir: Str, filename: Str, size: uint64,
                          hash: Str)
    ensures |Begin(st, root, h, id, remoteDir, filename, size, hash).error| < U16
  {
    hide Resolve, WithDirectory, OpenTrunc, BadFilename, Ascii;
  }

  /** The same upload through the wire: the server's receive loop sees exactly the packets the client sent. */
  lemma UploadCrossesTheWire(h: Hasher, id: uint64, content: FileBytes, filename: Str, remoteDir: Str, tail: seq<byte>)
    requires Streaming(h) && |filename| < U16 && |remoteDir| < U16
    ensures var ps := UploadPackets(h, id, content, filename, remoteDir);
      Frames(SerializeAll(ps) + tail) == ps + Frames(tail)
  {
    var ps := UploadPackets(h, id, content, filename, remoteDir);
    assert NothingLaw(h, Absorb(h, content));
    ParseBeginPacket(id, |content|, remoteDir, filename, Sha256Hex(h, content));
    ParseEndPacket(id);
    ChunksWellFormed(UPLOAD_CHUNK, id, content, |content|, 0);
    FramesOfStream(ps, tail);
  }

  lemma {:induction false} ChunksWellFormed(ptype: uint32, id: uint64, content: seq<byte>, size: uint64, pos: nat)
    ensures AllWellFormed(ChunkPackets(ptype, id, content, size, pos))
    decreases |content| - pos
  {
    if pos < size && pos < |content| {
      var n := Min(CHUNK_SIZE, |content| - pos);
      FewFieldsWellFormed(ptype, [Num(id), Num(pos), Blob(content[pos..pos + n])]);
      ChunksWellFormed(ptype, id, content, size, pos + n);
    }
  }

  /**
   * A whole connection, from the bytes on: after a matching AUTH_REQUEST the receive loop turns the client's upload
   * bytes into a file with the local contents.
   */
  lemma ConnectionUploads(s: Setup, st: State, auth: Packet, id: uint64, content: FileBytes, filename: Str,
                          remoteDir: Str, env: nat -> Env)
    returns (r: StepResult, target: Path)
    requires GoodConfig(s.cfg) && Valid(st.fs) && AuthOk(s, auth) && WellFormed(auth)
    requires |filename| < U16 && |remoteDir| < U16
    requires Openable(st, s.cfg.root, id, remoteDir, filename)
    ensures var ps := [auth] + UploadPackets(s.cfg.hasher, id, content, filename, remoteDir);
      r == Serve(s, st, NEW_CONN, Frames(SerializeAll(ps)), env, 0)
    ensures HoldsFile(r.st.fs, target, content) && r.st.sessions == st.sessions
    ensures |r.replies| == 3 && r.replies[0].ptype == AUTH_RESPONSE
    ensures r.replies[1..] == [SuccessReply(READY), SuccessReply(COMPLETED)]
  {
    var ps := UploadPackets(s.cfg.hasher, id, content, filename, remoteDir);
    UploadCrossesTheWire(s.cfg.hasher, id, content, filename, remoteDir, []);
    OneMoreFrame(auth, ps);
    AuthStepSucceeds(s, st, auth, env(0));
    hide Step, Frames, SerializeAll, AuthOk, SuccessReply, Openable, Valid;
    var a := ServeCons(s, st, NEW_CONN, [auth] + ps, env, 0);
    assert ([auth] + ps)[1..] == ps;
    var u;
    u, target := UploadArrives(s, st, a.conn, id, content, filename, remoteDir, env, 1);
    r := Serve(s, st, NEW_CONN, [auth] + ps, env, 0);
    assert r.replies == a.replies + u.replies;
  }

  lemma OneMoreFrame(p: Packet, ps: seq<Packet>)
    requires WellFormed(p) && Frames(SerializeAll(ps) + []) == ps + Frames([])
    ensures Frames(SerializeAll([p] + ps)) == [p] + ps
  {
    assert ([p] + ps)[1..] == ps;
    assert SerializeAll(ps) + [] == SerializeAll(ps) && ps + Frames([]) == ps;
    FramesStep(p, SerializeAll(ps));
  }

  lemma AuthStepSucceeds(s: Setup, st: State, auth: Packet, env: Env)
    requires AuthOk(s, auth)
    ensures var r := Step(s, st, NEW_CONN, auth, env);
      r.st == st && r.conn.authenticated && |r.replies| == 1 && r.replies[0].ptype == AUTH_RESPONSE
  {
  }

  // ---- download ----

  /** The chunk packets of a received file: each carries the id and continues the bytes before it, modulo 2^64. */
  ghost predicate GapFree(id: uint64, ps: seq<Packet>, datas: seq<seq<byte>>) {
    && |ps| == |datas|
    && forall k | 0 <= k < |ps| ::
         && ps[k].ptype == DOWNLOAD_CHUNK
         && var d := Decode([NumK, NumK, BlobK], ps[k].payload);
         d.Good? && d.value == [Num(id), Num(|Concat(datas[..k])| % U64), Blob(datas[k])]
  }

  /** One turn of a receive loop that will reach DOWNLOAD_END. */
  lemma LoopCases(id: uint64, content: seq<byte>, inbox: seq<byte>)
    requires DownloadLoop(id, content, inbox).ended
    ensures ReadPacket(inbox).Good? && WellFormed(ReadPacket(inbox).value)
    ensures inbox == Serialize(ReadPacket(inbox).value) + ReadPacket(inbox).rest && |ReadPacket(inbox).rest| < |inbox|
    ensures var p, rest := ReadPacket(inbox).value, ReadPacket(inbox).rest;
      if p.ptype == DOWNLOAD_CHUNK then
        ChunkData(p, id, |content|).Some?
        && DownloadLoop(id, content, inbox) == DownloadLoop(id, content + ChunkData(p, id, |content|).value, rest)
      else p.ptype == DOWNLOAD_END && DownloadLoop(id, content, inbox) == LoopEnd(true, false, content, rest)
  {
    ReadPacketRebuild(inbox);
    hide ChunkData, Serialize;
  }

  lemma GapFreeSnoc(id: uint64, ps: seq<Packet>, datas: seq<seq<byte>>, p: Packet, data: seq<byte>)
    requires GapFree(id, ps, datas) && p.ptype == DOWNLOAD_CHUNK && ChunkData(p, id, |Concat(datas)|) == Some(data)
    ensures GapFree(id, ps + [p], datas + [data])
  {
    ChunkTakenExactly(p, id, |Concat(datas)|, data);
    hide ChunkData, Concat, Decode;
    assert forall k | 0 <= k <= |ps| :: (datas + [data])[..k] == datas[..k];
    assert datas[..|ps|] == datas;
  }

  /** Whatever the stream holds, a loop that reached DOWNLOAD_END has read gap-free chunks and nothing else. */
  lemma {:induction false} LoopReadsGapFreeChunks(id: uint64, ps: seq<Packet>, datas: seq<seq<byte>>, inbox: seq<byte>)
    returns (all: seq<Packet>, pieces: seq<seq<byte>>, end: Packet, rest: seq<byte>)
    requires GapFree(id, ps, datas) && DownloadLoop(id, Concat(datas), inbox).ended
    ensures GapFree(id, all, pieces) && end.ptype == DOWNLOAD_END
    ensures DownloadLoop(id, Concat(datas), inbox) == LoopEnd(true, false, Concat(pieces), rest)
    ensures SerializeAll(ps) + inbox == SerializeAll(all) + Serialize(end) + rest
    decreases |inbox|
  {
    hide ChunkData, Serialize, SerializeAll, ReadPacket, DownloadLoop, GapFree, Concat;
    LoopCases(id, Concat(datas), inbox);
    var p, behind := ReadPacket(inbox).value, ReadPacket(inbox).rest;
    Associate(SerializeAll(ps), Serialize(p), behind);
    if p.ptype == DOWNLOAD_CHUNK {
      var data := ChunkData(p, id, |Concat(datas)|).value;
      GapFreeSnoc(id, ps, datas, p, data);
      ConcatSnoc(datas, data);
      SerializeAllSnoc(ps, p);
      all, pieces, end, rest := LoopReadsGapFreeChunks(id, ps + [p], datas + [data], behind);
    } else {
      all, pieces, end, rest := ps, datas, p, behind;
    }
  }

  /** What a successful download rests on. */
  lemma OkVerdict(h: Hasher, dest: Str, destIsDirectory: bool, opens: bool, inbox: seq<byte>)
    returns (first: Packet, a: Announced, rest: seq<byte>)
    requires dest != [] && DownloadVerdict(h, dest, destIsDirectory, opens, inbox).status == SAILOR_OK
    ensures ReadPacket(inbox) == Good(first, rest) && inbox == Serialize(first) + rest
    ensures first.ptype == DOWNLOAD_BEGIN && ParseAnnounced(first) == Some(a)
    ensures var end := DownloadLoop(a.id, [], rest);
      && end.ended && |end.content| % U64 == a.size && Sha256Hex(h, end.content) == a.hash
      && (AfterDownload(opens, inbox) == if end.cut then None else Some(end.unread))
      && DownloadVerdict(h, dest, destIsDirectory, opens, inbox).effect
         == Written(TargetOf(dest, destIsDirectory, a.filename), end.content)
  {
    ReadPacketRebuild(inbox);
    hide ParseAnnounced, DownloadLoop, Serialize, ReadPacket, Sha256Hex, TargetOf;
    first, a, rest := ReadPacket(inbox).value, ParseAnnounced(ReadPacket(inbox).value).value, ReadPacket(inbox).rest;
  }

  /**
   * Download soundness, for any server: SAILOR_OK means that the stream began with an announcement, gap-free chunks of
   * the announced id and DOWNLOAD_END, and that the file is their concatenation, with the announced size and digest.
   */
  lemma DownloadIsSound(h: Hasher, dest: Str, destIsDirectory: bool, opens: bool, inbox: seq<byte>)
    returns (first: Packet, a: Announced, all: seq<Packet>, pieces: seq<seq<byte>>, end: Packet, rest: seq<byte>)
    requires dest != [] && DownloadVerdict(h, dest, destIsDirectory, opens, inbox).status == SAILOR_OK
    ensures first.ptype == DOWNLOAD_BEGIN && ParseAnnounced(first) == Some(a) && end.ptype == DOWNLOAD_END
    ensures GapFree(a.id, all, pieces)
    ensures inbox == Serialize(first) + SerializeAll(all) + Serialize(end) + rest
    ensures DownloadVerdict(h, dest, destIsDirectory, opens, inbox).effect
         == Written(TargetOf(dest, destIsDirectory, a.filename), Concat(pieces))
    ensures |Concat(pieces)| % U64 == a.size && Sha256Hex(h, Concat(pieces)) == a.hash
    ensures AfterDownload(opens, inbox) == Some(rest)
  {
    var behind;
    first, a, behind := OkVerdict(h, dest, destIsDirectory, opens, inbox);
    assert GapFree(a.id, [], []) && Concat([]) == [] && SerializeAll([]) + behind == behind;
    hide ParseAnnounced, DownloadLoop, Serialize, SerializeAll, ReadPacket, Sha256Hex, DownloadVerdict, GapFree, Concat;
    all, pieces, end, rest := LoopReadsGapFreeChunks(a.id, [], [], behind);
    Associate(Serialize(first), SerializeAll(all) + Serialize(end), rest);
    Associate(Serialize(first), SerializeAll(all), Serialize(end));
  }

  /** Once the target was opened it is there afterwards exactly if the status is SAILOR_OK; no other file is touched. */
  lemma FailedDownloadLeavesNothing(h: Hasher, dest: Str, destIsDirectory: bool, inbox: seq<byte>, local: map<Str,
                                    seq<byte>>)
    requires dest != [] && ReadPacket(inbox).Good?
    requires ReadPacket(inbox).value.ptype == DOWNLOAD_BEGIN && ParseAnnounced(ReadPacket(inbox).value).Some?
    ensures var target := TargetOf(dest, destIsDirectory, ParseAnnounced(ReadPacket(inbox).value).value.filename);
      var v := DownloadVerdict(h, dest, destIsDirectory, true, inbox);
      var after := AfterEffect(local, v.effect);
      && (target in after <==> v.status == SAILOR_OK)
      && forall p | p != target :: (p in after <==> p in local) && (p in local ==> after[p] == local[p])
  {
    hide DownloadLoop, Sha256Hex, TargetOf;
  }

  lemma DownloadChunkParses(id: uint64, pos: uint64, data: seq<byte>)
    requires |data| < U32
    ensures ChunkData(Message(DOWNLOAD_CHUNK, [Num(id), Num(pos), Blob(data)]), id, pos) == Some(data)
    ensures WellFormed(Message(DOWNLOAD_CHUNK, [Num(id), Num(pos), Blob(data)]))
  {
    var fs := [Num(id), Num(pos), Blob(data)];
    AllFitOf(fs);
    DecodeOfMessage(fs, [NumK, NumK, BlobK]);
    FewFieldsWellFormed(DOWNLOAD_CHUNK, fs);
  }

  /** The server's chunks, read off any stream that starts with them, rebuild the file. */
  lemma {:induction false} StreamedChunksRebuild(id: uint64, content: FileBytes, pos: nat, tail: seq<byte>)
    requires pos <= |content|
    ensures var chunks := ChunkPackets(DOWNLOAD_CHUNK, id, content, |content|, pos);
      DownloadLoop(id, content[..pos], SerializeAll(chunks) + tail) == DownloadLoop(id, content, tail)
    decreases |content| - pos
  {
    hide DownloadLoop, ReadPacket, Serialize, Encode, ChunkData;
    var ps := ChunkPackets(DOWNLOAD_CHUNK, id, content, |content|, pos);
    if pos == |content| {
      assert content[..pos] == content && SerializeAll(ps) + tail == tail;
    } else {
      var n := Min(CHUNK_SIZE, |content| - pos);
      var data := content[pos..pos + n];
      var more := ChunkPackets(DOWNLOAD_CHUNK, id, content, |content|, pos + n);
      var p := Message(DOWNLOAD_CHUNK, [Num(id), Num(pos), Blob(data)]);
      assert ps[1..] == more;
      assert SerializeAll(ps) + tail == Serialize(p) + (SerializeAll(more) + tail);
      DownloadChunkParses(id, pos, data);
      assert content[..pos] + data == content[..pos + n];
      LoopStep(id, content[..pos], p, data, SerializeAll(more) + tail);
      StreamedChunksRebuild(id, content, pos + n, tail);
    }
  }

  /** The reports of a download of the server's stream are those of an upload of the same file. */
  lemma {:induction false} StreamedChunksAreReported(id: uint64, content: FileBytes, pos: nat, end: Packet,
                                                     tail: seq<byte>)
    requires pos <= |content| && WellFormed(end) && end.ptype == DOWNLOAD_END
    ensures var chunks := ChunkPackets(DOWNLOAD_CHUNK, id, content, |content|, pos);
      LoopReports(id, content[..pos], SerializeAll(chunks) + (Serialize(end) + tail)) == Reports(content, pos)
    decreases |content| - pos
  {
    hide LoopReports, ReadPacket, Serialize, Encode, ChunkData, Reports;
    var chunks := ChunkPackets(DOWNLOAD_CHUNK, id, content, |content|, pos);
    var behind := Serialize(end) + tail;
    if pos == |content| {
      assert SerializeAll(chunks) + behind == behind;
      NoReportAtEnd(id, content[..pos], end, tail);
      LastReport(content, pos);
    } else {
      var n := Min(CHUNK_SIZE, |content| - pos);
      var data := content[pos..pos + n];
      var p := Message(DOWNLOAD_CHUNK, [Num(id), Num(pos), Blob(data)]);
      var more := ChunkPackets(DOWNLOAD_CHUNK, id, content, |content|, pos + n);
      assert chunks == [p] + more && chunks[1..] == more;
      DownloadChunkParses(id, pos, data);
      assert content[..pos] + data == content[..pos + n] && |content[..pos]| == pos;
      Associate(Serialize(p), SerializeAll(more), behind);
      var rest := SerializeAll(more) + behind;
      PacketRoundTrip(p, rest);
      NextLoopReport(id, content[..pos], Serialize(p) + rest, data, rest, []);
      StreamedChunksAreReported(id, content, pos + n, end, tail);
      FirstReport(content, pos);
      var later := LoopReports(id, content[..pos + n], SerializeAll(more) + behind);
      assert [] + LoopReports(id, content[..pos], SerializeAll(chunks) + behind)
          == LoopReports(id, content[..pos], SerializeAll(chunks) + behind);
      assert [] + [pos + n] == [pos + n];
    }
  }

  lemma NoReportAtEnd(id: uint64, content: seq<byte>, end: Packet, tail: seq<byte>)
    requires WellFormed(end) && end.ptype == DOWNLOAD_END
    ensures LoopReports(id, content, Serialize(end) + tail) == []
  {
    PacketRoundTrip(end, tail);
  }

  lemma LoopStep(id: uint64, content: seq<byte>, p: Packet, data: seq<byte>, rest: seq<byte>)
    requires WellFormed(p) && p.ptype == DOWNLOAD_CHUNK && ChunkData(p, id, |content|) == Some(data)
    ensures DownloadLoop(id, content, Serialize(p) + rest) == DownloadLoop(id, content + data, rest)
  {
    hide ChunkData;
    PacketRoundTrip(p, rest);
  }

  lemma LoopAtEnd(id: uint64, content: seq<byte>, p: Packet, rest: seq<byte>)
    requires WellFormed(p) && p.ptype == DOWNLOAD_END
    ensures DownloadLoop(id, content, Serialize(p) + rest) == LoopEnd(true, false, content, rest)
  {
    PacketRoundTrip(p, rest);
  }

  lemma AnnouncementParses(m: Meta)
    requires |m.filename| < U16 && |m.hash| < U16
    ensures var p := Message(DOWNLOAD_BEGIN, [Num(m.id), Num(m.size), Text(m.filename), Text(m.hash)]);
      WellFormed(p) && ParseAnnounced(p) == Some(Announced(m.id, m.size, m.filename, m.hash))
  {
    var fs := [Num(m.id), Num(m.size), Text(m.filename), Text(m.hash)];
    AllFitOf(fs);
    DecodeOfMessage(fs, [NumK, NumK, TextK, TextK]);
    FewFieldsWellFormed(DOWNLOAD_BEGIN, fs);
  }

  /** What the server does with the client's DOWNLOAD_REQUEST. */
  lemma DownloadIsAnswered(s: Setup, st: State, c: Conn, path: Str, env: Env)
    requires c.authenticated && |path| < U16
    ensures Step(s, st, c, Message(DOWNLOAD_REQUEST, [Text(path)]), env)
         == StepResult(st, c, DownloadReplies(s.cfg, st.fs, path, env.rnd))
  {
    hide AuthStep, ListStep, ServiceStep, Resolve;
    var fs := [Text(path)];
    AllFitOf(fs);
    assert Kinds(fs) == [TextK];
    DecodeOfMessage(fs, [TextK]);
    hide Decode, Encode, DownloadReplies;
  }

  /** An announcement, the file in blocks of 64 KB at their places, and the end, all under one id. */
  ghost predicate StreamsFile(rs: seq<Packet>, id: uint64, name: Str, hash: Str, content: FileBytes) {
    var n := ChunkCount(|content|);
    && |rs| == n + 2
    && rs[0] == Message(DOWNLOAD_BEGIN, [Num(id), Num(|content|), Text(name), Text(hash)])
    && (forall k | 0 <= k < n ::
          && k * 65536 <= |content|
          && rs[k + 1] == Message(DOWNLOAD_CHUNK, [Num(id), Num(k * 65536), Blob(ChunkAt(content, k))]))
    && rs[n + 1] == Message(DOWNLOAD_END, [Num(id)])
  }

  lemma ChunksFromStart(ptype: uint32, id: uint64, content: FileBytes)
    ensures var ps := ChunkPackets(ptype, id, content, |content|, 0);
      && |ps| == ChunkCount(|content|)
      && forall k | 0 <= k < |ps| ::
           k * 65536 < |content| && ps[k] == Message(ptype, [Num(id), Num(k * 65536), Blob(ChunkAt(content, k))])
  {
    ChunksByIndex(ptype, id, content, 0);
    hide ChunkPackets, Encode, ChunkCount, ChunkAt;
    var ps := ChunkPackets(ptype, id, content, |content|, 0);
    forall k | 0 <= k < |ps|
      ensures k * 65536 < |content|
      ensures ps[k] == Message(ptype, [Num(id), Num(k * 65536), Blob(ChunkAt(content, k))])
    {
      assert 0 + k == k;
    }
  }

  lemma StreamShape(m: Meta, content: FileBytes)
    requires m.size == |content|
    ensures StreamsFile(StreamPackets(m, content), m.id, m.filename, m.hash, content)
  {
    hide ChunkPackets, Encode, ChunkCount, ChunkAt, Message;
    var chunks := ChunkPackets(DOWNLOAD_CHUNK, m.id, content, m.size, 0);
    ChunksFromStart(DOWNLOAD_CHUNK, m.id, content);
    Between(Message(DOWNLOAD_BEGIN, [Num(m.id), Num(m.size), Text(m.filename), Text(m.hash)]), chunks,
            Message(DOWNLOAD_END, [Num(m.id)]));
  }

  /** What the server sends for a path that names a file. */
  lemma DownloadIsStreamed(s: Setup, st: State, c: Conn, path: Str, env: Env) returns (content: FileBytes, name: Str)
    requires GoodConfig(s.cfg) && c.authenticated && |path| < U16 && Downloadable(st.fs, s.cfg.root, path)
    requires |Content(st.fs, st.fs.tree[Resolve(st.fs, s.cfg.root, path).value.comps].ino)| < U64
    ensures var p := Resolve(st.fs, s.cfg.root, path).value.comps;
      p == Parent(p) + [name] && content == Content(st.fs, st.fs.tree[p].ino)
    ensures var h := s.cfg.hasher;
      var r := Step(s, st, c, Message(DOWNLOAD_REQUEST, [Text(path)]), env);
      && r.st == st
      && StreamsFile(r.replies, env.rnd, name, Hex(h.final(h.update(h.init, content))), content)
  {
    AcceptedIsNoAncestor(st.fs, s.cfg.root, path);
    DownloadIsAnswered(s, st, c, path, env);
    PreparesExactly(s.cfg, st.fs, path, env.rnd);
    hide Step, Prepare, Resolve, StreamPackets, StreamsFile, Streaming, Hex, Encode;
    var m := Prepare(s.cfg, st.fs, path, env.rnd).meta;
    hide Downloadable;
    content, name := DescribedStream(s.cfg.hasher, st.fs, Resolve(st.fs, s.cfg.root, path).value.comps, m);
  }

  lemma DescribedStream(h: Hasher, fs: FS, p: Path, m: Meta) returns (content: FileBytes, name: Str)
    requires Describes(m, fs, h, p) && p != [] && |Content(fs, fs.tree[p].ino)| < U64
    ensures p == Parent(p) + [name] && content == Content(fs, fs.tree[p].ino) == Content(fs, m.ino)
    ensures var hash := Hex(h.final(h.update(h.init, content)));
      StreamsFile(StreamPackets(m, Content(fs, m.ino)), m.id, name, hash, content)
  {
    hide StreamPackets, StreamsFile, Hex;
    content, name := Content(fs, m.ino), m.filename;
    StreamShape(m, content);
  }

  /**
   * Download end to end, from the request on: for a path that names a file the server leaves its state alone, and the
   * client that reads its stream has the same bytes and reads no more.
   */
  lemma DownloadArrives(s: Setup, st: State, c: Conn, path: Str, env: Env, dest: Str, destIsDirectory: bool,
                        tail: seq<byte>)
    returns (p: Path, content: seq<byte>, target: Str)
    requires GoodConfig(s.cfg) && c.authenticated && dest != [] && |path| < U16
    requires Downloadable(st.fs, s.cfg.root, path)
    requires var p := Resolve(st.fs, s.cfg.root, path).value.comps;
      |Content(st.fs, st.fs.tree[p].ino)| < U64 && (p != [] ==> |p[|p| - 1]| < U16)
    ensures p == Resolve(st.fs, s.cfg.root, path).value.comps && p != []
    ensures content == Content(st.fs, st.fs.tree[p].ino)
    ensures var r := Step(s, st, c, Message(DOWNLOAD_REQUEST, [Text(path)]), env);
      var inbox := SerializeAll(r.replies) + tail;
      && r.st == st && r.conn == c
      && DownloadVerdict(s.cfg.hasher, dest, destIsDirectory, true, inbox)
         == DownloadOutcome(SAILOR_OK, Written(target, content))
      && AfterDownload(true, inbox) == Some(tail)
    ensures LandsAt(dest, destIsDirectory, p[|p| - 1], target)
  {
    p := Resolve(st.fs, s.cfg.root, path).value.comps;
    AcceptedIsNoAncestor(st.fs, s.cfg.root, path);
    DownloadIsAnswered(s, st, c, path, env);
    PreparesExactly(s.cfg, st.fs, path, env.rnd);
    var m := Prepare(s.cfg, st.fs, path, env.rnd).meta;
    content := Content(st.fs, m.ino);
    hide Step, Prepare, Resolve, Downloadable, DownloadVerdict, AfterDownload, StreamPackets, Streaming;
    assert p[|p| - 1] == m.filename;
    DescribedStreamIsReceived(s.cfg.hasher, st.fs, p, m, dest, destIsDirectory, tail);
    target := TargetOf(dest, destIsDirectory, m.filename);
    TargetExactly(dest, destIsDirectory, m.filename, target);
  }

  lemma DescribedStreamIsReceived(h: Hasher, fs: FS, p: Path, m: Meta, dest: Str, destIsDirectory: bool,
                                  tail: seq<byte>)
    requires Streaming(h) && dest != [] && Describes(m, fs, h, p)
    requires |Content(fs, m.ino)| < U64 && |m.filename| < U16
    ensures var inbox := SerializeAll(StreamPackets(m, Content(fs, m.ino))) + tail;
      && DownloadVerdict(h, dest, destIsDirectory, true, inbox)
         == DownloadOutcome(SAILOR_OK, Written(TargetOf(dest, destIsDirectory, m.filename), Content(fs, m.ino)))
      && AfterDownload(true, inbox) == Some(tail)
  {
    var content: FileBytes := Content(fs, m.ino);
    assert NothingLaw(h, Absorb(h, content));
    assert m.size == |content| && |m.hash| == 64;
    hide DownloadVerdict, AfterDownload, StreamPackets, Streaming;
    StreamIsReceived(h, m, content, dest, destIsDirectory, tail);
  }

  /** For any other path there is one ERROR, which the client takes as SAILOR_FILE_NOT_FOUND without touching a file. */
  lemma DownloadIsRefused(s: Setup, st: State, c: Conn, path: Str, env: Env, dest: Str, destIsDirectory: bool,
                          opens: bool,
                          tail: seq<byte>)
    requires c.authenticated && dest != [] && |path| < U16 && !Downloadable(st.fs, s.cfg.root, path)
    ensures var r := Step(s, st, c, Message(DOWNLOAD_REQUEST, [Text(path)]), env);
      var inbox := SerializeAll(r.replies) + tail;
      && r.st == st && r.conn == c
      && DownloadVerdict(s.cfg.hasher, dest, destIsDirectory, opens, inbox)
         == DownloadOutcome(SAILOR_FILE_NOT_FOUND, Untouched)
      && AfterDownload(opens, inbox) == Some(tail)
  {
    DownloadIsAnswered(s, st, c, path, env);
    PreparesExactly(s.cfg, st.fs, path, env.rnd);
    var error := Prepare(s.cfg, st.fs, path, env.rnd).error;
    assert |error| < U16 by { hide Resolve; }
    assert DownloadReplies(s.cfg, st.fs, path, env.rnd) == [ErrorReply(Ascii(error))];
    hide Step, Prepare, Resolve, Downloadable, DownloadVerdict, AfterDownload, DownloadReplies;
    RefusalIsRead(s.cfg.hasher, Ascii(error), dest, destIsDirectory, opens, tail);
  }

  lemma RefusalIsRead(h: Hasher, error: Str, dest: Str, destIsDirectory: bool, opens: bool, tail: seq<byte>)
    requires dest != [] && |error| < U16
    ensures var inbox := SerializeAll([ErrorReply(error)]) + tail;
      && DownloadVerdict(h, dest, destIsDirectory, opens, inbox) == DownloadOutcome(SAILOR_FILE_NOT_FOUND, Untouched)
      && AfterDownload(opens, inbox) == Some(tail)
  {
    var reply := ErrorReply(error);
    FewFieldsWellFormed(ERROR, [Text(error)]);
    hide Serialize, Encode, ReadPacket;
    OnePacket([], reply);
    assert [] + Serialize(reply) == Serialize(reply) && [] + SerializeAll([reply]) == SerializeAll([reply]);
    PacketRoundTrip(reply, tail);
  }

  lemma StreamIsReceived(h: Hasher, m: Meta, content: FileBytes, dest: Str, destIsDirectory: bool, tail: seq<byte>)
    requires dest != [] && m.size == |content| && m.hash == Sha256Hex(h, content)
    requires |m.hash| < U16 && |m.filename| < U16
    ensures DownloadVerdict(h, dest, destIsDirectory, true, SerializeAll(StreamPackets(m, content)) + tail)
         == DownloadOutcome(SAILOR_OK, Written(TargetOf(dest, destIsDirectory, m.filename), content))
    ensures AfterDownload(true, SerializeAll(StreamPackets(m, content)) + tail) == Some(tail)
  {
    hide ParseAnnounced, DownloadLoop, ReadPacket, Serialize, SerializeAll, ChunkPackets, Encode;
    var begin := Message(DOWNLOAD_BEGIN, [Num(m.id), Num(m.size), Text(m.filename), Text(m.hash)]);
    var chunks := ChunkPackets(DOWNLOAD_CHUNK, m.id, content, m.size, 0);
    var end := Message(DOWNLOAD_END, [Num(m.id)]);
    AnnouncementParses(m);
    FewFieldsWellFormed(DOWNLOAD_END, [Num(m.id)]);
    var behind := Serialize(end) + tail;
    StreamSplit(begin, chunks, end, tail);
    PacketRoundTrip(begin, SerializeAll(chunks) + behind);
    assert content[..0] == [];
    StreamedChunksRebuild(m.id, content, 0, behind);
    LoopAtEnd(m.id, content, end, tail);
    assert |content| % U64 == |content|;
  }

  lemma StreamSplit(begin: Packet, chunks: seq<Packet>, end: Packet, tail: seq<byte>)
    ensures SerializeAll([begin] + chunks + [end]) + tail
         == Serialize(begin) + (SerializeAll(chunks) + (Serialize(end) + tail))
  {
    SerializeAllSnoc([begin] + chunks, end);
    SerializeAllAppend([begin], chunks);
    assert SerializeAll([begin]) == Serialize(begin) + SerializeAll([begin][1..]);
    var a, b, c := Serialize(begin), SerializeAll(chunks), Serialize(end);
    assert SerializeAll([begin] + chunks + [end]) == a + b + c;
    assert (a + b + c) + tail == a + (b + (c + tail));
  }

  // ---- tree requests and listings, end to end ----

  predicate IsTree(q: Request) {
    q.Mkdir? || q.Rmdir? || q.DeletePath? || q.RenamePath?
  }

  /** What the client sends for a request on the tree. */
  function TreePacket(q: Request): Packet
    requires IsTree(q)
  {
    match q
    case Mkdir(path) => Message(MKDIR_REQUEST, [Text(path)])
    case Rmdir(path) => Message(RMDIR_REQUEST, [Text(path)])
    case DeletePath(path) => Message(DELETE_REQUEST, [Text(path)])
    case RenamePath(a, b) => Message(RENAME_REQUEST, [Text(a), Text(b)])
  }

  predicate PathsFit(q: Request)
    requires IsTree(q)
  {
    if q.RenamePath? then |q.source| < U16 && |q.destination| < U16 else |q.path| < U16
  }

  lemma TreePacketParses(q: Request)
    requires IsTree(q) && PathsFit(q)
    ensures ParseRequest(TreePacket(q)) == Some(q)
    ensures IsTreeRequest(TreePacket(q).ptype)
  {
    if q.RenamePath? {
      var fs := [Text(q.source), Text(q.destination)];
      AllFitOf(fs);
      assert Kinds(fs) == [TextK, TextK];
      DecodeOfMessage(fs, [TextK, TextK]);
    } else {
      var fs := [Text(q.path)];
      AllFitOf(fs);
      assert Kinds(fs) == [TextK];
      DecodeOfMessage(fs, [TextK]);
    }
  }

  lemma TreeMessagesAreShort(cfg: Config, st: State, q: Request)
    requires IsTree(q)
    ensures |Apply(cfg, st, q).error| < U16
  {
    hide Resolve, Remove, CreateDirectories, OsRename, Exists, IsDirectory;
    hide HasChild, IntoItself, ParentPath, Ascii, NamesRoot;
  }

  lemma StatusIsRead(ptype: uint32, ok: bool, message: Str, tail: seq<byte>)
    requires |message| < U16
    ensures var s := Serialize(StatusReply(ptype, ok, message)) + tail;
      StatusVerdict(s) == (if ok then SAILOR_OK else SAILOR_OPERATION_FAILED) && StreamAfter(s, 1) == tail
  {
    var fs := [Flag(ok), Text(message)];
    AllFitOf(fs);
    assert Kinds(fs) == [FlagK, TextK];
    DecodeOfMessage(fs, [FlagK, TextK]);
    FewFieldsWellFormed(ptype, fs);
    PacketRoundTrip(StatusReply(ptype, ok, message), tail);
    hide Decode, Encode, ReadPacket, Serialize;
    assert StreamAfter(tail, 0) == tail;
  }

  /**
   * mkdir, rmdir, delete and rename: the server does what the client asked for, and the client reads SAILOR_OK off its
   * stream exactly if that succeeded; nothing else is read.
   */
  lemma TreeRequestArrives(s: Setup, st: State, c: Conn, q: Request, env: Env, tail: seq<byte>)
    requires c.authenticated && IsTree(q) && PathsFit(q)
    ensures var r := Step(s, st, c, TreePacket(q), env);
      && r.st == Apply(s.cfg, st, q).st && r.conn == c && |r.replies| == 1
      && var inbox := Serialize(r.replies[0]) + tail;
      && StatusVerdict(inbox) == (if Apply(s.cfg, st, q).ok then SAILOR_OK else SAILOR_OPERATION_FAILED)
      && StreamAfter(inbox, 1) == tail
  {
    TreePacketParses(q);
    TreeMessagesAreShort(s.cfg, st, q);
    hide Step, Apply, ParseRequest, StatusVerdict, StreamAfter, Serialize, StatusReply, Encode;
    var r := Apply(s.cfg, st, q);
    RequestIsServed(s, st, c, TreePacket(q), q, env);
    assert RepliesTo(TreePacket(q).ptype, r) == [StatusReply(ResponseType(TreePacket(q).ptype), r.ok, r.error)];
    StatusIsRead(ResponseType(TreePacket(q).ptype), r.ok, r.error, tail);
  }

  /**
   * mkdir end to end, in terms of the tree: the client gets SAILOR_OK exactly if the place is missing and no file is on
   * the way; exactly the missing prefixes are then there.
   */
  lemma MkdirArrives(s: Setup, st: State, c: Conn, path: Str, env: Env, tail: seq<byte>)
    requires GoodConfig(s.cfg) && Valid(st.fs) && c.authenticated && |path| < U16
    ensures var r := Step(s, st, c, Message(MKDIR_REQUEST, [Text(path)]), env);
      && |r.replies| == 1
      && StatusVerdict(Serialize(r.replies[0]) + tail)
         == (if CreatableAt(st.fs, s.cfg.root, path) then SAILOR_OK else SAILOR_OPERATION_FAILED)
      && r.st.sessions == st.sessions
      && if CreatableAt(st.fs, s.cfg.root, path)
         then PrefixesAdded(st.fs, r.st.fs, Resolve(st.fs, s.cfg.root, path).value.comps)
         else r.st.fs == st.fs
  {
    hide Step, MakeDir, Resolve, CreatableAt, Valid, StatusVerdict, Serialize, Encode;
    MakeDirAddsMissingPrefixes(st.fs, s.cfg.root, path);
    TreeRequestArrives(s, st, c, Mkdir(path), env, tail);
  }

  /** rmdir end to end: SAILOR_OK exactly for an existing empty directory other than the plain root; it is then gone. */
  lemma RmdirArrives(s: Setup, st: State, c: Conn, path: Str, env: Env, tail: seq<byte>)
    requires GoodConfig(s.cfg) && Valid(st.fs) && c.authenticated && |path| < U16
    ensures var r := Step(s, st, c, Message(RMDIR_REQUEST, [Text(path)]), env);
      var goes := RemovableAt(st.fs, s.cfg.root, path) && IsDirectory(st.fs, Resolve(st.fs, s.cfg.root, path).value);
      && |r.replies| == 1
      && StatusVerdict(Serialize(r.replies[0]) + tail) == (if goes then SAILOR_OK else SAILOR_OPERATION_FAILED)
      && r.st.sessions == st.sessions
      && r.st.fs == if goes then Without(st.fs, s.cfg.root, path) else st.fs
  {
    hide Step, RemoveDir, Delete, Resolve, RemovableAt, Valid, StatusVerdict, Serialize, Encode;
    DeleteRemovesOneChildlessEntry(st.fs, s.cfg.root, path);
    RemoveDirIsDeleteOfDirectory(st.fs, s.cfg.root, path);
    TreeRequestArrives(s, st, c, Rmdir(path), env, tail);
  }

  /** delete end to end: SAILOR_OK exactly for an existing childless entry other than the plain root, then gone. */
  lemma DeleteArrives(s: Setup, st: State, c: Conn, path: Str, env: Env, tail: seq<byte>)
    requires GoodConfig(s.cfg) && Valid(st.fs) && c.authenticated && |path| < U16
    ensures var r := Step(s, st, c, Message(DELETE_REQUEST, [Text(path)]), env);
      var goes := RemovableAt(st.fs, s.cfg.root, path);
      && |r.replies| == 1
      && StatusVerdict(Serialize(r.replies[0]) + tail) == (if goes then SAILOR_OK else SAILOR_OPERATION_FAILED)
      && r.st.sessions == st.sessions
      && r.st.fs == if goes then Without(st.fs, s.cfg.root, path) else st.fs
  {
    hide Step, Delete, Resolve, RemovableAt, Valid, StatusVerdict, Serialize, Encode;
    DeleteRemovesOneChildlessEntry(st.fs, s.cfg.root, path);
    TreeRequestArrives(s, st, c, DeletePath(path), env, tail);
  }

  /** rename end to end: SAILOR_OK exactly for an allowed subtree move, which is then made. */
  lemma RenameArrives(s: Setup, st: State, c: Conn, source: Str, destination: Str, env: Env, tail: seq<byte>)
    requires GoodConfig(s.cfg) && Valid(st.fs) && c.authenticated && |source| < U16 && |destination| < U16
    ensures var r := Step(s, st, c, Message(RENAME_REQUEST, [Text(source), Text(destination)]), env);
      var moves := RenameAllowed(st.fs, s.cfg.root, source, destination);
      && |r.replies| == 1
      && StatusVerdict(Serialize(r.replies[0]) + tail) == (if moves then SAILOR_OK else SAILOR_OPERATION_FAILED)
      && r.st.sessions == st.sessions
      && r.st.fs == if moves then AfterMove(st.fs, s.cfg.root, source, destination) else st.fs
  {
    hide Step, Rename, Resolve, RenameAllowed, AfterMove, Valid, StatusVerdict, Serialize, Encode;
    RenameIsSubtreeMove(st.fs, s.cfg.root, source, destination);
    TreeRequestArrives(s, st, c, RenamePath(source, destination), env, tail);
  }

  /** The client gets the server's listing exactly if its length and its names fit their fields. */
  lemma ListingArrives(s: Setup, st: State, c: Conn, path: Str, dir: Path, env: Env, tail: seq<byte>)
    requires c.authenticated && |path| < U16
    requires Resolve(st.fs, s.cfg.root, path).Some? && Resolve(st.fs, s.cfg.root, path).value.comps == dir
    requires IsDir(st.fs, dir)
    requires |SerializeEntries(Sort(Entries(st.fs, dir, env.order, s.clock)))| < U64
    ensures var es := Sort(Entries(st.fs, dir, env.order, s.clock));
      var r := Step(s, st, c, Message(LIST, [Text(path)]), env);
      && r.st == st && r.conn == c && |r.replies| == 1
      && (ListVerdict(Serialize(r.replies[0]) + tail) == (SAILOR_OK, es) <==> |es| < U32 && NamesFit(es))
  {
    var fs := [Text(path)];
    AllFitOf(fs);
    assert Kinds(fs) == [TextK];
    DecodeOfMessage(fs, [TextK]);
    var es := Sort(Entries(st.fs, dir, env.order, s.clock));
    var reply := Packet(LIST_RESPONSE, |SerializeEntries(es)|, SerializeEntries(es));
    hide Decode, Encode, SerializeEntries, Resolve, Sort, Entries;
    assert ListReply(s, st.fs, path, env) == reply;
    assert Step(s, st, c, Message(LIST, fs), env) == StepResult(st, c, [reply]);
    hide Step, ReadPacket, Serialize, DeserializeEntries;
    ListingRoundTripsExactly(es);
    PacketRoundTrip(reply, tail);
  }

  /** The path names an existing directory. */
  predicate Listable(fs: FS, root: Path, path: Str) {
    Resolve(fs, root, path).Some? && IsDir(fs, Resolve(fs, root, path).value.comps)
  }

  /** Any other path gets one ERROR, which the client takes as SAILOR_OPERATION_FAILED. */
  lemma ListingIsRefused(s: Setup, st: State, c: Conn, path: Str, env: Env, tail: seq<byte>)
    requires c.authenticated && |path| < U16 && !Listable(st.fs, s.cfg.root, path)
    ensures var r := Step(s, st, c, Message(LIST, [Text(path)]), env);
      && r.st == st && r.conn == c
      && r.replies == [Message(ERROR, [Text(Ascii(
           if Resolve(st.fs, s.cfg.root, path) == None then "Path traversal attack detected"
           else "Directory not found"))])]
      && ListVerdict(Serialize(r.replies[0]) + tail) == (SAILOR_OPERATION_FAILED, [])
  {
    var fs := [Text(path)];
    AllFitOf(fs);
    assert Kinds(fs) == [TextK];
    DecodeOfMessage(fs, [TextK]);
    var reply := ListReply(s, st.fs, path, env);
    assert reply in {ErrorReply(Ascii("Path traversal attack detected")), ErrorReply(Ascii("Directory not found"))};
    assert Step(s, st, c, Message(LIST, fs), env) == StepResult(st, c, [reply]);
    hide Step, ReadPacket, Serialize, Encode, ListReply;
    FewFieldsWellFormed(ERROR, [Text(Ascii("Path traversal attack detected"))]);
    FewFieldsWellFormed(ERROR, [Text(Ascii("Directory not found"))]);
    PacketRoundTrip(reply, tail);
  }

  /**
   * Listing end to end: the client gets SAILOR_OK with the server's sorted entries exactly if the path names an
   * existing directory and the listing fits its fields.
   */
  lemma ListSucceedsExactly(s: Setup, st: State, c: Conn, path: Str, env: Env, tail: seq<byte>)
    returns (es: seq<DirectoryEntry>)
    requires c.authenticated && |path| < U16
    requires Listable(st.fs, s.cfg.root, path) ==>
      |SerializeEntries(Sort(Entries(st.fs, Resolve(st.fs, s.cfg.root, path).value.comps, env.order, s.clock)))| < U64
    ensures Listable(st.fs, s.cfg.root, path) ==>
      es == Sort(Entries(st.fs, Resolve(st.fs, s.cfg.root, path).value.comps, env.order, s.clock))
    ensures var r := Step(s, st, c, Message(LIST, [Text(path)]), env);
      && |r.replies| == 1
      && (ListVerdict(Serialize(r.replies[0]) + tail) == (SAILOR_OK, es) <==>
            Listable(st.fs, s.cfg.root, path) && |es| < U32 && NamesFit(es))
  {
    if Listable(st.fs, s.cfg.root, path) {
      var dir := Resolve(st.fs, s.cfg.root, path).value.comps;
      es := Sort(Entries(st.fs, dir, env.order, s.clock));
      hide Resolve, Step, SerializeEntries, Sort, Entries, Serialize;
      ListingArrives(s, st, c, path, dir, env, tail);
    } else {
      es := [];
      ListingIsRefused(s, st, c, path, env, tail);
    }
  }
}
