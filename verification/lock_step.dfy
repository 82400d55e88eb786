/** Requests and replies in step: what the client leaves unread, operation by operation and over whole runs. */
module LockStep {
  import opened Bytes
  import opened Digest
  import opened Packets
  import opened Framing
  import opened FileSystem
  import opened Listing
  import opened Uploads
  import opened UploadRuns
  import opened Server
  import opened ServerRuns
  import opened Client
  import opened Protocol

  /** The server with one client attached; unread holds the replies that the client has not taken yet. */
  datatype System = System(st: State, conn: Conn, unread: seq<Packet>)

  /** The client sends packets; env(i) belongs to the first of them. */
  function Send(s: Setup, y: System, ps: seq<Packet>, env: nat -> Env, i: nat): System {
    var r := Serve(s, y.st, y.conn, ps, env, i);
    System(r.st, r.conn, y.unread + r.replies)
  }

  function Take(y: System): System
    requires y.unread != []
  {
    y.(unread := y.unread[1..])
  }

  /**
   * One operation of the client: a request with one reply, an upload, or a download whose target can be opened or not.
   * The packets are those it builds.
   */
  datatype Operation =
    | Ask(request: Packet)
    | Upload(begin: Packet, chunks: seq<Packet>, end: Packet)
    | Download(request: Packet, opens: bool)

  predicate GoodOperation(o: Operation) {
    match o
    case Ask(p) => OneReply(p.ptype)
    case Upload(begin, chunks, end) => begin.ptype == UPLOAD_BEGIN && AllChunks(chunks) && end.ptype == UPLOAD_END
    case Download(p, _) => p.ptype == DOWNLOAD_REQUEST
  }

  // ---- the client on packets ----

  function ReplyStatus(request: Packet, reply: Packet): SailorStatus {
    if request.ptype == LIST then ListingOf(reply).0 else StatusOf(reply)
  }

  /** How the receive loop of a download ends, on packets; cut when there are none left. */
  datatype PacketsEnd = PacketsEnd(ended: bool, cut: bool, content: seq<byte>, unread: seq<Packet>)

  function ReadChunks(id: uint64, content: seq<byte>, ps: seq<Packet>): PacketsEnd
    decreases |ps|
  {
    if ps == [] then PacketsEnd(false, true, content, [])
    else if ps[0].ptype == DOWNLOAD_CHUNK then
      match ChunkData(ps[0], id, |content|)
      case None => PacketsEnd(false, false, content, ps[1..])
      case Some(data) => ReadChunks(id, content + data, ps[1..])
    else PacketsEnd(ps[0].ptype == DOWNLOAD_END, false, content, ps[1..])
  }

  /** Waiting is a client that waits for a reply which does not come. */
  datatype Progress = Waiting | Done(y: System, status: SailorStatus)

  function ReadUpload(s: Setup, y: System, rest: seq<Packet>, env: nat -> Env): Progress {
    if y.unread == [] then Waiting
    else if y.unread[0].ptype != SUCCESS then Done(Take(y), SAILOR_OPERATION_FAILED)
    else
      var y' := Send(s, Take(y), rest, env, 1);
      if y'.unread == [] then Waiting
      else Done(Take(y'), if y'.unread[0].ptype == SUCCESS then SAILOR_OK else SAILOR_INTERNAL_ERROR)
  }

  function ReadDownload(h: Hasher, y: System, opens: bool): Progress {
    if y.unread == [] then Waiting
    else if y.unread[0].ptype != DOWNLOAD_BEGIN then Done(Take(y), SAILOR_FILE_NOT_FOUND)
    else
      match ParseAnnounced(y.unread[0])
      case None => Done(Take(y), SAILOR_INTERNAL_ERROR)
      case Some(a) =>
        if !opens then Done(Take(y), SAILOR_PERMISSION_DENIED) else
        var e := ReadChunks(a.id, [], y.unread[1..]);
        if e.cut then Waiting else Done(y.(unread := e.unread), FileStatus(h, a, e.ended, e.content))
  }

  function Perform(s: Setup, y: System, o: Operation, env: nat -> Env): Progress {
    match o
    case Ask(p) =>
      var y1 := Send(s, y, [p], env, 0);
      if y1.unread == [] then Waiting else Done(Take(y1), ReplyStatus(p, y1.unread[0]))
    case Upload(begin, chunks, end) => ReadUpload(s, Send(s, y, [begin], env, 0), chunks + [end], env)
    case Download(p, opens) => ReadDownload(s.cfg.hasher, Send(s, y, [p], env, 0), opens)
  }

  // ---- what the server sends for one operation ----

  lemma SendOne(s: Setup, y: System, p: Packet, env: nat -> Env)
    requires y.unread == []
    ensures var r := Step(s, y.st, y.conn, p, env(0));
      Send(s, y, [p], env, 0) == System(r.st, r.conn, r.replies)
  {
    hide Step;
    var r := ServeCons(s, y.st, y.conn, [p], env, 0);
    assert [p][1..] == [];
    assert r.replies + [] == r.replies && [] + r.replies == r.replies;
  }

  /** After chunks and UPLOAD_END the replies are one ERROR per rejected chunk, then the answer to UPLOAD_END. */
  lemma SendData(s: Setup, y: System, chunks: seq<Packet>, end: Packet, env: nat -> Env, i: nat)
    requires y.unread == [] && AllChunks(chunks) && end.ptype == UPLOAD_END
    ensures var y' := Send(s, y, chunks + [end], env, i);
      var n := Rejected(s, y.st, y.conn, chunks, env, i);
      |y'.unread| == n + 1 && AllErrors(y'.unread[..n])
  {
    ChunksLeaveTheirRejections(s, y.st, y.conn, chunks, env, i);
    var a := Serve(s, y.st, y.conn, chunks, env, i);
    ExactlyOneReply(s, a.st, a.conn, end, env(i + |chunks|));
    hide Step, Rejected;
    ServeSnoc(s, y.st, y.conn, chunks, end, env, i);
    var r := Step(s, a.st, a.conn, end, env(i + |chunks|));
    assert [] + (a.replies + r.replies) == a.replies + r.replies;
  }

  /** The path that a DOWNLOAD_REQUEST asks for. */
  function RequestedPath(p: Packet): Option<Str> {
    match Decode([TextK], p.payload)
    case Bad => None
    case Good(fs, _) => Some(TextAt(fs, 0))
  }

  /** The server answers the request with a stream. */
  predicate Streams(s: Setup, y: System, p: Packet) {
    y.conn.authenticated && RequestedPath(p).Some? && Downloadable(y.st.fs, s.cfg.root, RequestedPath(p).value)
  }

  function StreamedMeta(s: Setup, y: System, p: Packet, rnd: uint64): Meta
    requires Streams(s, y, p)
  {
    PreparesExactly(s.cfg, y.st.fs, RequestedPath(p).value, rnd);
    Prepare(s.cfg, y.st.fs, RequestedPath(p).value, rnd).meta
  }

  function Announcement(m: Meta): Packet {
    Message(DOWNLOAD_BEGIN, [Num(m.id), Num(m.size), Text(m.filename), Text(m.hash)])
  }

  lemma DownloadReplyIs(s: Setup, y: System, p: Packet, env: Env)
    requires p.ptype == DOWNLOAD_REQUEST
    ensures var r := Step(s, y.st, y.conn, p, env);
      && r.st == y.st && r.conn == y.conn
      && if Streams(s, y, p) then
           var m := StreamedMeta(s, y, p, env.rnd);
           r.replies == StreamPackets(m, Content(y.st.fs, m.ino))
         else |r.replies| == 1 && r.replies[0].ptype == ERROR
  {
    hide Decode, Downloadable, Prepare, StreamPackets;
    if RequestedPath(p).Some? {
      PreparesExactly(s.cfg, y.st.fs, RequestedPath(p).value, env.rnd);
    }
  }

  /** The first two fields of an announcement are read back, whatever the length of the name. */
  lemma AnnouncementKeepsId(m: Meta)
    ensures ParseAnnounced(Announcement(m)).Some? ==> ParseAnnounced(Announcement(m)).value.id == m.id
  {
    var fs := [Num(m.id), Num(m.size), Text(m.filename), Text(m.hash)];
    var ks := [NumK, NumK, TextK, TextK];
    assert fs[0] == Num(m.id) && ks[0] == NumK;
    assert Encode(fs) == EncodeField(fs[0]) + Encode(fs[1..]);
    FieldRoundTrip(fs[0], Encode(fs[1..]));
    hide EncodeField, Encode, DecodeField;
    var d := Decode(ks, Encode(fs));
    if d.Good? {
      assert d.value[0] == Num(m.id);
    }
  }

  lemma TakeOne(id: uint64, content: seq<byte>, p: Packet, data: seq<byte>, tail: seq<Packet>)
    requires p.ptype == DOWNLOAD_CHUNK && ChunkData(p, id, |content|) == Some(data)
    ensures ReadChunks(id, content, [p] + tail) == ReadChunks(id, content + data, tail)
  {
    hide ChunkData;
    assert ([p] + tail)[1..] == tail;
  }

  /** The client that reads the server's chunks takes all of them, and goes on behind them. */
  lemma {:induction false} ChunksAreTaken(id: uint64, file: seq<byte>, size: uint64, pos: nat, tail: seq<Packet>)
    returns (content: seq<byte>)
    requires pos <= |file|
    ensures ReadChunks(id, file[..pos], ChunkPackets(DOWNLOAD_CHUNK, id, file, size, pos) + tail)
         == ReadChunks(id, content, tail)
    decreases |file| - pos
  {
    hide ChunkData, Encode;
    var ps := ChunkPackets(DOWNLOAD_CHUNK, id, file, size, pos);
    if pos >= size || pos >= |file| {
      assert [] + tail == tail;
      content := file[..pos];
    } else {
      var n := Min(CHUNK_SIZE, |file| - pos);
      var data := file[pos..pos + n];
      var p := Message(DOWNLOAD_CHUNK, [Num(id), Num(pos), Blob(data)]);
      var more := ChunkPackets(DOWNLOAD_CHUNK, id, file, size, pos + n);
      content := ChunksAreTaken(id, file, size, pos + n, tail);
      DownloadChunkParses(id, pos, data);
      assert file[..pos] + data == file[..pos + n];
      assert |file[..pos]| == pos;
      Associate([p], more, tail);
      assert ps + tail == [p] + (more + tail);
      TakeOne(id, file[..pos], p, data, more + tail);
    }
  }

  lemma StreamIsTaken(m: Meta, file: seq<byte>, id: uint64)
    requires id == m.id
    ensures var e := ReadChunks(id, [], StreamPackets(m, file)[1..]);
      e.ended && !e.cut && e.unread == []
  {
    var chunks := ChunkPackets(DOWNLOAD_CHUNK, m.id, file, m.size, 0);
    var end := Message(DOWNLOAD_END, [Num(m.id)]);
    assert StreamPackets(m, file)[1..] == chunks + [end];
    assert file[..0] == [];
    var content := ChunksAreTaken(id, file, m.size, 0, [end]);
    hide ChunkPackets;
    assert [end][1..] == [];
  }

  // ---- streams of replies ----

  /** Behind every announcement that the client can take there is the end of a stream, or a packet that it stops at. */
  ghost predicate Flowing(ps: seq<Packet>) {
    forall k | 0 <= k < |ps| && ps[k].ptype == DOWNLOAD_BEGIN && ParseAnnounced(ps[k]).Some? ::
      !ReadChunks(ParseAnnounced(ps[k]).value.id, [], ps[k + 1..]).cut
  }

  /** What is left unread lies at the end of what there was. */
  lemma {:induction false} UnreadIsTail(id: uint64, content: seq<byte>, ps: seq<Packet>) returns (k: nat)
    ensures k <= |ps| && ReadChunks(id, content, ps).unread == ps[k..]
    decreases |ps|
  {
    hide ChunkData;
    k := if ps == [] then 0 else 1;
    if ps != [] && ps[0].ptype == DOWNLOAD_CHUNK && ChunkData(ps[0], id, |content|).Some? {
      var j := UnreadIsTail(id, content + ChunkData(ps[0], id, |content|).value, ps[1..]);
      assert ps[1..][j..] == ps[j + 1..];
      k := j + 1;
    }
  }

  /** A loop that comes to an end does not mind what comes in behind it. */
  lemma {:induction false} ReadChunksAppend(id: uint64, content: seq<byte>, ps: seq<Packet>, qs: seq<Packet>)
    requires !ReadChunks(id, content, ps).cut
    ensures var e := ReadChunks(id, content, ps);
      ReadChunks(id, content, ps + qs) == e.(unread := e.unread + qs)
    decreases |ps|
  {
    hide ChunkData;
    assert ps != [];
    assert (ps + qs)[0] == ps[0] && (ps + qs)[1..] == ps[1..] + qs;
    if ps[0].ptype == DOWNLOAD_CHUNK && ChunkData(ps[0], id, |content|).Some? {
      ReadChunksAppend(id, content + ChunkData(ps[0], id, |content|).value, ps[1..], qs);
    }
  }

  lemma FlowingTail(ps: seq<Packet>, j: nat)
    requires Flowing(ps) && j <= |ps|
    ensures Flowing(ps[j..])
  {
    hide ReadChunks, ParseAnnounced;
    var qs := ps[j..];
    forall k | 0 <= k < |qs|
      ensures qs[k] == ps[j + k] && qs[k + 1..] == ps[j + k + 1..]
    {
    }
  }

  lemma FlowingAppend(ps: seq<Packet>, qs: seq<Packet>)
    requires Flowing(ps) && Flowing(qs)
    ensures Flowing(ps + qs)
  {
    hide ReadChunks, ParseAnnounced;
    var all := ps + qs;
    forall k | 0 <= k < |all| && all[k].ptype == DOWNLOAD_BEGIN && ParseAnnounced(all[k]).Some?
      ensures !ReadChunks(ParseAnnounced(all[k]).value.id, [], all[k + 1..]).cut
    {
      if k < |ps| {
        assert all[k + 1..] == ps[k + 1..] + qs;
        ReadChunksAppend(ParseAnnounced(all[k]).value.id, [], ps[k + 1..], qs);
      } else {
        assert all[k] == qs[k - |ps|] && all[k + 1..] == qs[k - |ps| + 1..];
      }
    }
  }

  lemma {:induction false} ChunksAnnounceNothing(ptype: uint32, id: uint64, file: seq<byte>, size: uint64, pos: nat)
    ensures forall k | 0 <= k < |ChunkPackets(ptype, id, file, size, pos)| ::
              ChunkPackets(ptype, id, file, size, pos)[k].ptype == ptype
    decreases |file| - pos
  {
    if pos < size && pos < |file| {
      ChunksAnnounceNothing(ptype, id, file, size, pos + Min(CHUNK_SIZE, |file| - pos));
    }
  }

  lemma StreamFlows(m: Meta, file: seq<byte>)
    ensures Flowing(StreamPackets(m, file))
  {
    var ps := StreamPackets(m, file);
    ChunksAnnounceNothing(DOWNLOAD_CHUNK, m.id, file, m.size, 0);
    AnnouncementKeepsId(m);
    StreamIsTaken(m, file, m.id);
    assert ps[0] == Announcement(m);
    hide ReadChunks, ParseAnnounced, ChunkPackets;
    assert forall k | 1 <= k < |ps| :: ps[k].ptype != DOWNLOAD_BEGIN;
  }

  /** The replies to any one packet flow. */
  lemma RepliesFlow(s: Setup, y: System, p: Packet, env: Env)
    ensures Flowing(Step(s, y.st, y.conn, p, env).replies)
    ensures OneReply(p.ptype) || p.ptype == DOWNLOAD_REQUEST ==> Step(s, y.st, y.conn, p, env).replies != []
  {
    var r := Step(s, y.st, y.conn, p, env);
    if p.ptype == DOWNLOAD_REQUEST {
      DownloadReplyIs(s, y, p, env);
      if Streams(s, y, p) {
        var m := StreamedMeta(s, y, p, env.rnd);
        StreamFlows(m, Content(y.st.fs, m.ino));
      }
      hide Step, Streams, ReadChunks, ParseAnnounced;
    } else {
      OthersAnnounceNothing(s, y, p, env);
      hide Step, ReadChunks, ParseAnnounced;
    }
  }

  lemma OthersAnnounceNothing(s: Setup, y: System, p: Packet, env: Env)
    requires p.ptype != DOWNLOAD_REQUEST
    ensures var r := Step(s, y.st, y.conn, p, env);
      && (forall k | 0 <= k < |r.replies| :: r.replies[k].ptype != DOWNLOAD_BEGIN)
      && (OneReply(p.ptype) ==> r.replies != [])
  {
    hide Apply, Decode, ParseRequest, DownloadStep, Encode, Resolve, SerializeEntries, Authenticate;
  }

  lemma {:induction false} ServedRepliesFlow(s: Setup, y: System, ps: seq<Packet>, env: nat -> Env, i: nat)
    ensures Flowing(Serve(s, y.st, y.conn, ps, env, i).replies)
    decreases |ps|
  {
    hide Step, ReadChunks, ParseAnnounced;
    if ps != [] {
      RepliesFlow(s, y, ps[0], env(i));
      var r := ServeCons(s, y.st, y.conn, ps, env, i);
      ServedRepliesFlow(s, System(r.st, r.conn, []), ps[1..], env, i + 1);
      FlowingAppend(r.replies, Serve(s, r.st, r.conn, ps[1..], env, i + 1).replies);
    }
  }

  /** Sending keeps what is unread flowing, and what was unread in front. */
  lemma SendFlows(s: Setup, y: System, ps: seq<Packet>, env: nat -> Env, i: nat)
    requires Flowing(y.unread)
    ensures Flowing(Send(s, y, ps, env, i).unread) && y.unread <= Send(s, y, ps, env, i).unread
  {
    ServedRepliesFlow(s, y, ps, env, i);
    FlowingAppend(y.unread, Serve(s, y.st, y.conn, ps, env, i).replies);
  }

  /** A packet that is always answered leaves more unread than there was. */
  lemma SendAnswered(s: Setup, y: System, ps: seq<Packet>, p: Packet, env: nat -> Env, i: nat)
    requires OneReply(p.ptype) || p.ptype == DOWNLOAD_REQUEST
    ensures |Send(s, y, ps + [p], env, i).unread| > |y.unread|
  {
    ServeSnoc(s, y.st, y.conn, ps, p, env, i);
    var a := Serve(s, y.st, y.conn, ps, env, i);
    RepliesFlow(s, System(a.st, a.conn, []), p, env(i + |ps|));
    hide Step, Serve, Flowing;
  }

  /**
   * From any stream that flows, drained or not, the client never waits in vain; the stream flows on, and a stream with
   * something unread keeps something unread.
   */
  lemma OperationsNeverWait(s: Setup, y: System, o: Operation, env: nat -> Env)
    requires Flowing(y.unread) && GoodOperation(o)
    ensures var r := Perform(s, y, o, env);
      && r.Done? && Flowing(r.y.unread)
      && (y.unread != [] ==> r.y.unread != [])
  {
    match o
    case Ask(p) =>
      assert [] + [p] == [p];
      SendFlows(s, y, [p], env, 0);
      SendAnswered(s, y, [], p, env, 0);
      FlowingTail(Send(s, y, [p], env, 0).unread, 1);
    case Upload(begin, chunks, end) => UploadNeverWaits(s, y, begin, chunks, end, env);
    case Download(p, opens) => DownloadNeverWaits(s, y, p, opens, env);
  }

  lemma UploadNeverWaits(s: Setup, y: System, begin: Packet, chunks: seq<Packet>, end: Packet, env: nat -> Env)
    requires Flowing(y.unread) && GoodOperation(Upload(begin, chunks, end))
    ensures var r := Perform(s, y, Upload(begin, chunks, end), env);
      && r.Done? && Flowing(r.y.unread)
      && (y.unread != [] ==> r.y.unread != [])
  {
    hide Flowing, Serve;
    assert [] + [begin] == [begin];
    SendFlows(s, y, [begin], env, 0);
    SendAnswered(s, y, [], begin, env, 0);
    var y1 := Send(s, y, [begin], env, 0);
    FlowingTail(y1.unread, 1);
    if y1.unread[0].ptype == SUCCESS {
      var y2 := Take(y1);
      SendFlows(s, y2, chunks + [end], env, 1);
      SendAnswered(s, y2, chunks, end, env, 1);
      FlowingTail(Send(s, y2, chunks + [end], env, 1).unread, 1);
    }
  }

  lemma DownloadNeverWaits(s: Setup, y: System, p: Packet, opens: bool, env: nat -> Env)
    requires Flowing(y.unread) && p.ptype == DOWNLOAD_REQUEST
    ensures var r := Perform(s, y, Download(p, opens), env);
      && r.Done? && Flowing(r.y.unread)
      && (y.unread != [] ==> r.y.unread != [])
  {
    hide ReadChunks, ParseAnnounced, FileStatus, Serve;
    assert [] + [p] == [p];
    SendFlows(s, y, [p], env, 0);
    SendAnswered(s, y, [], p, env, 0);
    var ps := Send(s, y, [p], env, 0).unread;
    FlowingTail(ps, 1);
    if ps[0].ptype == DOWNLOAD_BEGIN && ParseAnnounced(ps[0]).Some? {
      var id := ParseAnnounced(ps[0]).value.id;
      assert !ReadChunks(id, [], ps[1..]).cut;
      var k := UnreadIsTail(id, [], ps[1..]);
      FlowingTail(ps[1..], k);
      if y.unread != [] {
        assert ps[0] == y.unread[0];
        var more := ps[|y.unread|..];
        assert ps[1..] == y.unread[1..] + more;
        ReadChunksAppend(id, [], y.unread[1..], more);
      }
    }
  }

  // ---- lock step ----

  /** The server accepts the UPLOAD_BEGIN. */
  predicate Begins(s: Setup, y: System, p: Packet) {
    y.conn.authenticated && ParseRequest(p).Some? && Apply(s.cfg, y.st, ParseRequest(p).value).ok
  }

  /**
   * How many replies an operation leaves unread: for an upload that has begun one for each rejected chunk, and for a
   * download that the server streams and the client turns away the whole stream behind the announcement.
   */
  function LeftOver(s: Setup, y: System, o: Operation, env: nat -> Env): nat {
    match o
    case Ask(_) => 0
    case Upload(begin, chunks, _) =>
      if Begins(s, y, begin) then Rejected(s, Step(s, y.st, y.conn, begin, env(0)).st, y.conn, chunks, env, 1) else 0
    case Download(p, opens) =>
      if !Streams(s, y, p) then 0 else
      var m := StreamedMeta(s, y, p, env(0).rnd);
      if opens && ParseAnnounced(Announcement(m)).Some? then 0 else |StreamPackets(m, Content(y.st.fs, m.ino))| - 1
  }

  /**
   * Lock step, for every operation from a drained stream: the client never waits in vain, it leaves exactly the
   * left-over replies unread, and SAILOR_OK means that there are none.
   */
  lemma OperationsStayInStep(s: Setup, y: System, o: Operation, env: nat -> Env)
    requires y.unread == [] && GoodOperation(o)
    ensures var r := Perform(s, y, o, env);
      && r.Done?
      && |r.y.unread| == LeftOver(s, y, o, env)
      && (r.status == SAILOR_OK ==> r.y.unread == [])
  {
    match o
    case Ask(p) =>
      SendOne(s, y, p, env);
      ExactlyOneReply(s, y.st, y.conn, p, env(0));
    case Upload(begin, chunks, end) => UploadStaysInStep(s, y, begin, chunks, end, env);
    case Download(p, opens) => DownloadStaysInStep(s, y, p, opens, env);
  }

  lemma BeginIsAnswered(s: Setup, y: System, begin: Packet, env: Env)
    requires begin.ptype == UPLOAD_BEGIN
    ensures var r := Step(s, y.st, y.conn, begin, env);
      && r.conn == y.conn && |r.replies| == 1
      && (r.replies[0].ptype == SUCCESS <==> Begins(s, y, begin))
  {
    hide Apply, ParseRequest;
  }

  lemma UploadStaysInStep(s: Setup, y: System, begin: Packet, chunks: seq<Packet>, end: Packet, env: nat -> Env)
    requires y.unread == [] && GoodOperation(Upload(begin, chunks, end))
    ensures var o := Upload(begin, chunks, end);
      var r := Perform(s, y, o, env);
      && r.Done?
      && |r.y.unread| == LeftOver(s, y, o, env)
      && (r.status == SAILOR_OK ==> r.y.unread == [])
  {
    SendOne(s, y, begin, env);
    BeginIsAnswered(s, y, begin, env(0));
    hide Step, Begins;
    var y1 := Send(s, y, [begin], env, 0);
    if Begins(s, y, begin) {
      var y2 := Take(y1);
      SendData(s, y2, chunks, end, env, 1);
      var n := Rejected(s, y2.st, y2.conn, chunks, env, 1);
      var y3 := Send(s, y2, chunks + [end], env, 1);
      assert n > 0 ==> y3.unread[..n][0].ptype == ERROR;
    }
  }

  lemma DownloadStaysInStep(s: Setup, y: System, p: Packet, opens: bool, env: nat -> Env)
    requires y.unread == [] && p.ptype == DOWNLOAD_REQUEST
    ensures var o := Download(p, opens);
      var r := Perform(s, y, o, env);
      && r.Done?
      && |r.y.unread| == LeftOver(s, y, o, env)
      && (r.status == SAILOR_OK ==> r.y.unread == [])
  {
    SendOne(s, y, p, env);
    DownloadReplyIs(s, y, p, env(0));
    hide Step, Streams, ParseAnnounced, ReadChunks, FileStatus;
    if Streams(s, y, p) {
      var m := StreamedMeta(s, y, p, env(0).rnd);
      var file := Content(y.st.fs, m.ino);
      assert StreamPackets(m, file)[0] == Announcement(m);
      AnnouncementKeepsId(m);
      StreamIsTaken(m, file, m.id);
    }
  }

  /** The left-over of a denied download in numbers: all chunks of the file, and DOWNLOAD_END. */
  lemma DeniedDownloadLeavesTheStream(s: Setup, y: System, p: Packet, env: nat -> Env)
    requires Streams(s, y, p) && |Content(y.st.fs, StreamedMeta(s, y, p, env(0).rnd).ino)| < U64
    ensures LeftOver(s, y, Download(p, false), env)
         == ChunkCount(|Content(y.st.fs, StreamedMeta(s, y, p, env(0).rnd).ino)|) + 1
  {
    hide Prepare;
    PreparesExactly(s.cfg, y.st.fs, RequestedPath(p).value, env(0).rnd);
    var m := StreamedMeta(s, y, p, env(0).rnd);
    var file: FileBytes := Content(y.st.fs, m.ino);
    assert m.size == |file|;
    ChunksByIndex(DOWNLOAD_CHUNK, m.id, file, 0);
  }

  // ---- whole runs ----

  datatype Course = Stuck | Finished(y: System, statuses: seq<SailorStatus>)

  /** The operations in turn, whatever becomes of each; env(k) is the outside world of the k-th. */
  function PerformAll(s: Setup, y: System, os: seq<Operation>, env: nat -> (nat -> Env), k: nat): Course
    decreases |os|
  {
    if os == [] then Finished(y, []) else
    match Perform(s, y, os[0], env(k))
    case Waiting => Stuck
    case Done(y', status) =>
      match PerformAll(s, y', os[1..], env, k + 1)
      case Stuck => Stuck
      case Finished(end, statuses) => Finished(end, [status] + statuses)
  }

  /** No operation of the run leaves anything over. */
  predicate NothingLeftOver(s: Setup, y: System, os: seq<Operation>, env: nat -> (nat -> Env), k: nat)
    decreases |os|
  {
    os == [] ||
    (LeftOver(s, y, os[0], env(k)) == 0 &&
     match Perform(s, y, os[0], env(k))
     case Waiting => false
     case Done(y', _) => NothingLeftOver(s, y', os[1..], env, k + 1))
  }

  /** From any stream that flows no operation of any run waits in vain, and a connection out of step stays so. */
  lemma {:induction false} RunsNeverWait(s: Setup, y: System, os: seq<Operation>, env: nat -> (nat -> Env), k: nat)
    requires Flowing(y.unread) && forall j | 0 <= j < |os| :: GoodOperation(os[j])
    ensures var r := PerformAll(s, y, os, env, k);
      && r.Finished? && |r.statuses| == |os|
      && (y.unread != [] ==> r.y.unread != [])
    decreases |os|
  {
    if os != [] {
      OperationsNeverWait(s, y, os[0], env(k));
      hide Perform, Flowing;
      RunsNeverWait(s, Perform(s, y, os[0], env(k)).y, os[1..], env, k + 1);
    }
  }

  /**
   * Over any run of operations from a drained stream, those behind a failure included: every one gets its answer, and
   * the run ends drained exactly if no operation ever left anything over; so it does if all of them report SAILOR_OK.
   */
  lemma {:induction false} RunsStayInStep(s: Setup, y: System, os: seq<Operation>, env: nat -> (nat -> Env), k: nat)
    requires y.unread == [] && forall j | 0 <= j < |os| :: GoodOperation(os[j])
    ensures var r := PerformAll(s, y, os, env, k);
      && r.Finished? && |r.statuses| == |os|
      && (r.y.unread == [] <==> NothingLeftOver(s, y, os, env, k))
      && (AllOk(r.statuses) ==> r.y.unread == [])
    decreases |os|
  {
    RunsNeverWait(s, y, os, env, k);
    if os != [] {
      OperationsStayInStep(s, y, os[0], env(k));
      OperationsNeverWait(s, y, os[0], env(k));
      var first := Perform(s, y, os[0], env(k));
      hide Perform, LeftOver, Flowing;
      RunsNeverWait(s, first.y, os[1..], env, k + 1);
      var rest := PerformAll(s, first.y, os[1..], env, k + 1);
      FirstOfRun(s, y, os, env, k);
      hide PerformAll;
      AllOkCons(first.status, rest.statuses);
      if first.y.unread == [] {
        RunsStayInStep(s, first.y, os[1..], env, k + 1);
      }
    }
  }

  predicate AllOk(statuses: seq<SailorStatus>) {
    forall j | 0 <= j < |statuses| :: statuses[j] == SAILOR_OK
  }

  lemma AllOkCons(first: SailorStatus, rest: seq<SailorStatus>)
    ensures AllOk([first] + rest) <==> first == SAILOR_OK && AllOk(rest)
  {
    var all := [first] + rest;
    assert all[0] == first;
    assert forall j | 0 <= j < |rest| :: rest[j] == all[j + 1];
  }

  lemma FirstOfRun(s: Setup, y: System, os: seq<Operation>, env: nat -> (nat -> Env), k: nat)
    requires os != [] && Perform(s, y, os[0], env(k)).Done?
    requires PerformAll(s, Perform(s, y, os[0], env(k)).y, os[1..], env, k + 1).Finished?
    ensures var first := Perform(s, y, os[0], env(k));
      var rest := PerformAll(s, first.y, os[1..], env, k + 1);
      PerformAll(s, y, os, env, k) == Finished(rest.y, [first.status] + rest.statuses)
  {
    hide Perform;
  }

  // ---- uploads, both ways ----

  /**
   * From a drained stream an upload reports SAILOR_OK exactly if the server can open it, whatever other sessions there
   * are; the target then holds the local bytes and nothing is unread.
   */
  lemma UploadSucceedsExactly(s: Setup, y: System, id: uint64, content: FileBytes, filename: Str, remoteDir: Str,
                              env: nat -> Env)
    returns (r: Progress)
    requires GoodConfig(s.cfg) && y.conn.authenticated && Valid(y.st.fs) && y.unread == []
    requires |filename| < U16 && |remoteDir| < U16
    ensures var h := s.cfg.hasher;
      var chunks := ChunkPackets(UPLOAD_CHUNK, id, content, |content|, 0);
      var o := Upload(BeginPacket(h, id, content, filename, remoteDir), chunks, Message(UPLOAD_END, [Num(id)]));
      r == Perform(s, y, o, env) && r.Done?
    ensures r.status == SAILOR_OK <==> Openable(y.st, s.cfg.root, id, remoteDir, filename)
    ensures r.status != SAILOR_OK ==> r.status == SAILOR_OPERATION_FAILED
    ensures r.y.unread == [] && r.y.st.sessions == y.st.sessions
    ensures r.status == SAILOR_OK ==>
      HoldsFile(r.y.st.fs, Resolve(y.st.fs, s.cfg.root, remoteDir).value.comps + [filename], content)
  {
    var h := s.cfg.hasher;
    var begin := BeginPacket(h, id, content, filename, remoteDir);
    var chunks := ChunkPackets(UPLOAD_CHUNK, id, content, |content|, 0);
    var end := Message(UPLOAD_END, [Num(id)]);
    r := Perform(s, y, Upload(begin, chunks, end), env);
    SendOne(s, y, begin, env);
    hide Step, Serve, Openable, Resolve, Valid, ChunkPackets, Encode;
    if Openable(y.st, s.cfg.root, id, remoteDir, filename) {
      OpenedUploadIsPerformed(s, y, id, content, filename, remoteDir, env);
    } else {
      UploadIsRefused(s, y.st, y.conn, id, content, filename, remoteDir, env(0), []);
    }
  }

  lemma OpenedUploadIsPerformed(s: Setup, y: System, id: uint64, content: FileBytes, filename: Str, remoteDir: Str,
                                env: nat -> Env)
    requires GoodConfig(s.cfg) && y.conn.authenticated && Valid(y.st.fs) && y.unread == []
    requires |filename| < U16 && |remoteDir| < U16 && Openable(y.st, s.cfg.root, id, remoteDir, filename)
    ensures var begin := BeginPacket(s.cfg.hasher, id, content, filename, remoteDir);
      var chunks := ChunkPackets(UPLOAD_CHUNK, id, content, |content|, 0);
      var r := Perform(s, y, Upload(begin, chunks, Message(UPLOAD_END, [Num(id)])), env);
      && r.Done? && r.status == SAILOR_OK && r.y.unread == [] && r.y.st.sessions == y.st.sessions
      && Resolve(y.st.fs, s.cfg.root, remoteDir).Some?
      && HoldsFile(r.y.st.fs, Resolve(y.st.fs, s.cfg.root, remoteDir).value.comps + [filename], content)
  {
    var h := s.cfg.hasher;
    var begin := BeginPacket(h, id, content, filename, remoteDir);
    hide Step, Openable, Resolve, Valid, ChunkPackets, Encode, Sha256Hex, Tracks, GoodConfig;
    SendOne(s, y, begin, env);
    var b := BeginStep(s, y.st, y.conn, id, content, filename, remoteDir, env(0));
    DataIsStored(s, b, y.conn, id, content, env, 1);
    hide Serve, Tracks;
    var one := [SuccessReply(READY)];
    assert one[1..] == [] && [SuccessReply(COMPLETED)][1..] == [];
    assert [] + [SuccessReply(COMPLETED)] == [SuccessReply(COMPLETED)];
  }

  // ---- where the client gets out of step ----

  lemma TopByte()
    ensures ToBE(0x100_0000_0000_0000, 8) == [1, 0, 0, 0, 0, 0, 0, 0]
  {
    assert ToBE(1, 1) == [1];
    assert ToBE(0x100, 2) == [1, 0];
    assert ToBE(0x1_0000, 3) == [1, 0, 0];
    assert ToBE(0x100_0000, 4) == [1, 0, 0, 0];
    assert ToBE(0x1_0000_0000, 5) == [1, 0, 0, 0, 0];
    assert ToBE(0x100_0000_0000, 6) == [1, 0, 0, 0, 0, 0];
    assert ToBE(0x1_0000_0000_0000, 7) == [1, 0, 0, 0, 0, 0, 0];
  }

  /** A chunk whose id is 2^56 is, read as a status reply, a success. */
  lemma ChunkReadAsStatus(pos: uint64, data: seq<byte>)
    ensures StatusOf(Message(DOWNLOAD_CHUNK, [Num(0x100_0000_0000_0000), Num(pos), Blob(data)])) == SAILOR_OK
  {
    var fs := [Num(0x100_0000_0000_0000), Num(pos), Blob(data)];
    var p := Encode(fs);
    TopByte();
    assert fs[0] == Num(0x100_0000_0000_0000);
    assert p == EncodeField(fs[0]) + Encode(fs[1..]);
    assert p[..8] == [1, 0, 0, 0, 0, 0, 0, 0];
    hide ToBE, Encode;
    assert p[0] == p[..8][0] && p[1] == p[..8][1] && p[2] == p[..8][2];
    var ks := [FlagK, TextK];
    assert DecodeField(FlagK, p) == Good(Flag(true), p[1..]);
    var q := p[1..];
    assert q[..2] == [0, 0];
    assert FromBE([0, 0]) == 0 by { assert [0, 0][..1] == [0] && [0][..0] == []; }
    assert DecodeField(TextK, q).Good?;
    assert ks[0] == FlagK && ks[1..] == [TextK] && [TextK][1..] == [];
    assert Decode([TextK], q).Good?;
  }

  /**
   * The failing input: a download with id 2^56 of a file that is not empty, whose local target cannot be opened, and
   * then a delete of "/". The server refuses the delete, and the client reports SAILOR_OK.
   */
  lemma DeniedDownloadFoolsTheNextRequest(s: Setup, y: System, p: Packet, env: nat -> Env, env': nat -> Env)
    returns (y1: System, y2: System)
    requires y.unread == [] && p.ptype == DOWNLOAD_REQUEST && Streams(s, y, p)
    requires env(0).rnd == 0x100_0000_0000_0000 && StreamedMeta(s, y, p, env(0).rnd).size > 0
    ensures Perform(s, y, Download(p, false), env).Done? && Perform(s, y, Download(p, false), env).y == y1
    ensures Perform(s, y1, Ask(TreePacket(DeletePath([47]))), env') == Done(y2, SAILOR_OK)
    ensures !Apply(s.cfg, y1.st, DeletePath([47])).ok && y2.st == y1.st == y.st
  {
    hide Step, StreamPackets, StatusOf, Downloadable, ParseRequest, Decode;
    SendOne(s, y, p, env);
    DownloadReplyIs(s, y, p, env(0));
    PreparesExactly(s.cfg, y.st.fs, RequestedPath(p).value, env(0).rnd);
    var m := StreamedMeta(s, y, p, env(0).rnd);
    var file := Content(y.st.fs, m.ino);
    var replies := StreamPackets(m, file);
    var chunk := FirstOfStream(m, file);
    y1 := System(y.st, y.conn, replies[1..]);
    var delete := TreePacket(DeletePath([47]));
    DeleteOfRootIsRefused(s, y1, env'(0));
    var r := ServeCons(s, y1.st, y1.conn, [delete], env', 0);
    assert [delete][1..] == [];
    ChunkReadAsStatus(0, chunk);
    hide Streams;
    y2 := Take(Send(s, y1, [delete], env', 0));
  }

  lemma FirstOfStream(m: Meta, file: seq<byte>) returns (data: seq<byte>)
    requires 0 < m.size && file != []
    ensures |StreamPackets(m, file)| > 1 && StreamPackets(m, file)[0] == Announcement(m)
    ensures StreamPackets(m, file)[1] == Message(DOWNLOAD_CHUNK, [Num(m.id), Num(0), Blob(data)])
  {
    data := file[0..Min(CHUNK_SIZE, |file|)];
    var chunks := ChunkPackets(DOWNLOAD_CHUNK, m.id, file, m.size, 0);
    assert chunks[0] == Message(DOWNLOAD_CHUNK, [Num(m.id), Num(0), Blob(data)]);
  }

  lemma DeleteOfRootIsRefused(s: Setup, y: System, env: Env)
    ensures !Apply(s.cfg, y.st, DeletePath([47])).ok
    ensures Step(s, y.st, y.conn, TreePacket(DeletePath([47])), env).st == y.st
    ensures TreePacket(DeletePath([47])).ptype == DELETE_REQUEST
  {
    TreePacketParses(DeletePath([47]));
    hide ParseRequest;
  }

  // ---- the same on the byte stream ----

  lemma FirstOfBytes(ps: seq<Packet>)
    requires AllWellFormed(ps)
    ensures ReadPacket(SerializeAll(ps)) == if ps == [] then Bad else Good(ps[0], SerializeAll(ps[1..]))
  {
    if ps != [] {
      PacketRoundTrip(ps[0], SerializeAll(ps[1..]));
    }
  }

  lemma {:induction false} ChunksOfBytes(id: uint64, content: seq<byte>, ps: seq<Packet>)
    requires AllWellFormed(ps)
    ensures var e := ReadChunks(id, content, ps);
      DownloadLoop(id, content, SerializeAll(ps)) == LoopEnd(e.ended, e.cut, e.content, SerializeAll(e.unread))
    decreases |ps|
  {
    hide ReadPacket, SerializeAll, ChunkData;
    FirstOfBytes(ps);
    if ps == [] {
    } else if ps[0].ptype == DOWNLOAD_CHUNK && ChunkData(ps[0], id, |content|).Some? {
      ChunksOfBytes(id, content + ChunkData(ps[0], id, |content|).value, ps[1..]);
    }
  }

  /** All packets that come in for the client during the operation. */
  function Incoming(s: Setup, y: System, o: Operation, env: nat -> Env): seq<Packet> {
    match o
    case Ask(p) => Send(s, y, [p], env, 0).unread
    case Download(p, _) => Send(s, y, [p], env, 0).unread
    case Upload(begin, chunks, end) =>
      var y1 := Send(s, y, [begin], env, 0);
      if y1.unread == [] || y1.unread[0].ptype != SUCCESS then y1.unread
      else [y1.unread[0]] + Send(s, Take(y1), chunks + [end], env, 1).unread
  }

  /**
   * Perform is the client of the byte stream: on the serialized replies its status, what it reads and what it leaves
   * are those of the verdicts that InternalClient is proved against.
   */
  lemma PerformIsTheClient(s: Setup, y: System, o: Operation, env: nat -> Env, dest: Str, destIsDirectory: bool)
    requires GoodOperation(o) && Perform(s, y, o, env).Done? && dest != []
    requires AllWellFormed(Incoming(s, y, o, env))
    ensures var r := Perform(s, y, o, env);
      var inbox, left := SerializeAll(Incoming(s, y, o, env)), SerializeAll(r.y.unread);
      match o
      case Ask(p) =>
        && r.status == (if p.ptype == LIST then ListVerdict(inbox).0 else StatusVerdict(inbox))
        && StreamAfter(inbox, 1) == left
      case Upload(begin, chunks, end) =>
        var v := UploadVerdict(begin, chunks + [end], inbox);
        r.status == v.status && StreamAfter(inbox, v.read) == left
      case Download(_, opens) =>
        && r.status == DownloadVerdict(s.cfg.hasher, dest, destIsDirectory, opens, inbox).status
        && AfterDownload(opens, inbox) == Some(left)
  {
    hide ReadPacket, SerializeAll;
    var ps := Incoming(s, y, o, env);
    FirstOfBytes(ps);
    match o
    case Ask(p) =>
      assert StreamAfter(SerializeAll(ps), 1) == StreamAfter(SerializeAll(ps[1..]), 0);
    case Upload(begin, chunks, end) => UploadOfBytes(s, y, begin, chunks, end, env);
    case Download(p, opens) =>
      if ps[0].ptype == DOWNLOAD_BEGIN && ParseAnnounced(ps[0]).Some? {
        ChunksOfBytes(ParseAnnounced(ps[0]).value.id, [], ps[1..]);
      }
  }

  lemma UploadOfBytes(s: Setup, y: System, begin: Packet, chunks: seq<Packet>, end: Packet, env: nat -> Env)
    requires var o := Upload(begin, chunks, end);
      GoodOperation(o) && Perform(s, y, o, env).Done? && AllWellFormed(Incoming(s, y, o, env))
    ensures var o := Upload(begin, chunks, end);
      var r := Perform(s, y, o, env);
      var inbox := SerializeAll(Incoming(s, y, o, env));
      var v := UploadVerdict(begin, chunks + [end], inbox);
      r.status == v.status && StreamAfter(inbox, v.read) == SerializeAll(r.y.unread)
  {
    hide ReadPacket, SerializeAll, Serve;
    var ps := Incoming(s, y, Upload(begin, chunks, end), env);
    FirstOfBytes(ps);
    FirstOfBytes(ps[1..]);
    var inbox := SerializeAll(ps);
    assert StreamAfter(inbox, 1) == SerializeAll(ps[1..]);
    AfterTwo(inbox);
    var y1 := Send(s, y, [begin], env, 0);
    if y1.unread[0].ptype == SUCCESS {
      var y2 := Send(s, Take(y1), chunks + [end], env, 1);
      assert ps[1..] == y2.unread && ps[1..][1..] == y2.unread[1..];
    }
  }
}
