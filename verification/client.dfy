/** InternalClient: the upload and download loops and the one-request operations, over a byte stream. */
module Client {
  import opened Bytes
  import opened Digest
  import opened Packets
  import PacketBuilder
  import opened Framing
  import opened Paths
  import opened Listing
  import opened Server

  datatype SailorStatus =
    | SAILOR_OK | SAILOR_CONNECTION_FAILED | SAILOR_FILE_NOT_FOUND | SAILOR_PERMISSION_DENIED
    | SAILOR_INTERNAL_ERROR | SAILOR_NOT_CONNECTED | SAILOR_OPERATION_FAILED

  /** A file whose size std::filesystem::file_size can report. */
  type FileBytes = s: seq<byte> | |s| < U64

  // ---- upload ----

  function BeginPacket(h: Hasher, id: uint64, content: FileBytes, filename: Str, remoteDir: Str): Packet {
    Message(UPLOAD_BEGIN, [Num(id), Num(|content|), Text(remoteDir), Text(filename), Text(Sha256Hex(h, content))])
  }

  /** Everything after UPLOAD_BEGIN. */
  function DataPackets(id: uint64, content: FileBytes): seq<Packet> {
    ChunkPackets(UPLOAD_CHUNK, id, content, |content|, 0) + [Message(UPLOAD_END, [Num(id)])]
  }

  /** The counts handed to the progress callback. */
  function Reports(content: seq<byte>, pos: nat): seq<nat>
    decreases |content| - pos
  {
    if pos >= |content| then [] else
    var n := Min(CHUNK_SIZE, |content| - pos);
    [pos + n] + Reports(content, pos + n)
  }

  /** The outcome of an operation: its status, what it sent, and how many replies it read. */
  datatype Verdict = Verdict(status: SailorStatus, sent: seq<Packet>, read: nat)

  function UploadVerdict(begin: Packet, data: seq<Packet>, inbox: seq<byte>): Verdict {
    match ReadPacket(inbox)
    case Bad => Verdict(SAILOR_OPERATION_FAILED, [begin], 0)
    case Good(first, rest) =>
      if first.ptype != SUCCESS then Verdict(SAILOR_OPERATION_FAILED, [begin], 1) else
      match ReadPacket(rest)
      case Bad => Verdict(SAILOR_INTERNAL_ERROR, [begin] + data, 1)
      case Good(last, _) =>
        Verdict(if last.ptype == SUCCESS then SAILOR_OK else SAILOR_INTERNAL_ERROR, [begin] + data, 2)
  }

  /** The stream behind its first n packets. */
  function StreamAfter(inbox: seq<byte>, n: nat): seq<byte> {
    if n == 0 then inbox else
    match ReadPacket(inbox)
    case Bad => inbox
    case Good(_, rest) => StreamAfter(rest, n - 1)
  }

  // ---- download ----

  /** What one DOWNLOAD_CHUNK adds, if it carries the right id and continues the received bytes. */
  function ChunkData(p: Packet, id: uint64, received: nat): Option<seq<byte>> {
    match Decode([NumK, NumK, BlobK], p.payload)
    case Bad => None
    case Good(fs, _) => if NumAt(fs, 0) == id && NumAt(fs, 1) == received % U64 then Some(BlobAt(fs, 2)) else None
  }

  /**
   * How the receive loop ends: at DOWNLOAD_END, where the stream is cut short, or at a packet it does not take; what it
   * has received, and what is then still on the stream.
   */
  datatype LoopEnd = LoopEnd(ended: bool, cut: bool, content: seq<byte>, unread: seq<byte>)

  function DownloadLoop(id: uint64, content: seq<byte>, inbox: seq<byte>): LoopEnd
    decreases |inbox|
  {
    match ReadPacket(inbox)
    case Bad => LoopEnd(false, true, content, inbox)
    case Good(p, rest) =>
      if p.ptype == DOWNLOAD_CHUNK then
        match ChunkData(p, id, |content|)
        case None => LoopEnd(false, false, content, rest)
        case Some(data) => DownloadLoop(id, content + data, rest)
      else LoopEnd(p.ptype == DOWNLOAD_END, false, content, rest)
  }

  /** The counts handed to the progress callback by the receive loop: one after each chunk that is not empty. */
  function LoopReports(id: uint64, content: seq<byte>, inbox: seq<byte>): seq<nat>
    decreases |inbox|
  {
    match ReadPacket(inbox)
    case Bad => []
    case Good(p, rest) =>
      if p.ptype != DOWNLOAD_CHUNK then [] else
      match ChunkData(p, id, |content|)
      case None => []
      case Some(data) =>
        (if data == [] then [] else [(|content| + |data|) % U64]) + LoopReports(id, content + data, rest)
  }

  /** The fields of DOWNLOAD_BEGIN. */
  datatype Announced = Announced(id: uint64, size: uint64, filename: Str, hash: Str)

  function ParseAnnounced(p: Packet): Option<Announced> {
    match Decode([NumK, NumK, TextK, TextK], p.payload)
    case Bad => None
    case Good(fs, _) => Some(Announced(NumAt(fs, 0), NumAt(fs, 1), TextAt(fs, 2), TextAt(fs, 3)))
  }

  /** path / name: a name that is itself absolute replaces the path. */
  function JoinPath(path: Str, name: Str): Str {
    if name != [] && name[0] == SLASH then name
    else if path != [] && path[|path| - 1] == SLASH then path + name
    else path + SEP + name
  }

  function TargetOf(dest: Str, destIsDirectory: bool, filename: Str): Str
    requires dest != []
  {
    var last := dest[|dest| - 1];
    if destIsDirectory || last == SLASH || last == BACKSLASH then JoinPath(dest, filename) else dest
  }

  /**
   * Where a download lands. A destination that is no directory and does not end in a separator is the target itself;
   * in any other one the target is the announced name, behind exactly one slash; a name that starts with a slash
   * replaces the destination.
   */
  ghost predicate LandsAt(dest: Str, destIsDirectory: bool, name: Str, target: Str) {
    dest != [] &&
    var last := dest[|dest| - 1];
    if !destIsDirectory && last != SLASH && last != BACKSLASH then target == dest
    else if name != [] && name[0] == SLASH then target == name
    else target == dest + (if last == SLASH then [] else SEP) + name
  }

  lemma TargetExactly(dest: Str, destIsDirectory: bool, name: Str, target: Str)
    requires dest != []
    ensures LandsAt(dest, destIsDirectory, name, target) <==> target == TargetOf(dest, destIsDirectory, name)
  {
    assert dest + [] + name == dest + name;
  }

  /** The local disk after a download: untouched, or with the target written or removed. */
  datatype Effect = Untouched | Written(target: Str, content: seq<byte>) | Removed(target: Str)

  function AfterEffect(local: map<Str, seq<byte>>, e: Effect): map<Str, seq<byte>> {
    match e
    case Untouched => local
    case Written(target, content) => local[target := content]
    case Removed(target) => local - {target}
  }

  datatype DownloadOutcome = DownloadOutcome(status: SailorStatus, effect: Effect)

  function FileStatus(h: Hasher, a: Announced, ended: bool, content: seq<byte>): SailorStatus {
    if !ended || |content| % U64 != a.size then SAILOR_OPERATION_FAILED
    else if Sha256Hex(h, content) != a.hash then SAILOR_INTERNAL_ERROR
    else SAILOR_OK
  }

  function FileOutcome(h: Hasher, target: Str, a: Announced, end: LoopEnd): DownloadOutcome {
    var status := FileStatus(h, a, end.ended, end.content);
    DownloadOutcome(status, if status == SAILOR_OK then Written(target, end.content) else Removed(target))
  }

  function DownloadVerdict(h: Hasher, dest: Str, destIsDirectory: bool, opens: bool, inbox: seq<byte>): DownloadOutcome
    requires dest != []
  {
    match ReadPacket(inbox)
    case Bad => DownloadOutcome(SAILOR_FILE_NOT_FOUND, Untouched)
    case Good(first, rest) =>
      if first.ptype != DOWNLOAD_BEGIN then DownloadOutcome(SAILOR_FILE_NOT_FOUND, Untouched) else
      match ParseAnnounced(first)
      case None => DownloadOutcome(SAILOR_INTERNAL_ERROR, Untouched)
      case Some(a) =>
        if !opens then DownloadOutcome(SAILOR_PERMISSION_DENIED, Untouched) else
        FileOutcome(h, TargetOf(dest, destIsDirectory, a.filename), a, DownloadLoop(a.id, [], rest))
  }

  /** Which status a download ends with, from the packets alone; nothing is touched before the target is opened. */
  lemma DownloadStatusExactly(h: Hasher, dest: Str, destIsDirectory: bool, opens: bool, inbox: seq<byte>)
    requires dest != []
    ensures var v := DownloadVerdict(h, dest, destIsDirectory, opens, inbox);
      match ReadPacket(inbox)
      case Bad => v == DownloadOutcome(SAILOR_FILE_NOT_FOUND, Untouched)
      case Good(first, rest) =>
        if first.ptype != DOWNLOAD_BEGIN then v == DownloadOutcome(SAILOR_FILE_NOT_FOUND, Untouched) else
        match Decode([NumK, NumK, TextK, TextK], first.payload)
        case Bad => v == DownloadOutcome(SAILOR_INTERNAL_ERROR, Untouched)
        case Good(fs, _) =>
          && |fs| == 4 && fs[0].Num? && fs[1].Num? && fs[2].Text? && fs[3].Text?
          && if !opens then v == DownloadOutcome(SAILOR_PERMISSION_DENIED, Untouched) else
             var end := DownloadLoop(fs[0].v, [], rest);
             if !end.ended || |end.content| % U64 != fs[1].v then
               v.status == SAILOR_OPERATION_FAILED && v.effect.Removed?
             else if Hex(h.final(h.update(h.init, end.content))) != fs[3].s then
               v.status == SAILOR_INTERNAL_ERROR && v.effect.Removed?
             else v.status == SAILOR_OK && v.effect.Written? && v.effect.content == end.content
  {
    if ReadPacket(inbox).Good? && Decode([NumK, NumK, TextK, TextK], ReadPacket(inbox).value.payload).Good? {
      DecodedKinds([NumK, NumK, TextK, TextK], ReadPacket(inbox).value.payload);
    }
    hide Decode, DownloadLoop, ReadPacket, TargetOf, Hex;
  }

  /** A chunk is taken exactly if it carries the id and the position; it is then the data in it. */
  lemma ChunkTakenExactly(p: Packet, id: uint64, received: nat, data: seq<byte>)
    ensures ChunkData(p, id, received) == Some(data) <==>
            && Decode([NumK, NumK, BlobK], p.payload).Good?
            && Decode([NumK, NumK, BlobK], p.payload).value == [Num(id), Num(received % U64), Blob(data)]
  {
    var ks := [NumK, NumK, BlobK];
    if Decode(ks, p.payload).Good? {
      DecodedKinds(ks, p.payload);
    }
    hide Decode;
  }

  /** An upload succeeds exactly if the first two packets that come back are both of type SUCCESS. */
  lemma UploadSucceedsByReplies(begin: Packet, data: seq<Packet>, inbox: seq<byte>)
    ensures var v := UploadVerdict(begin, data, inbox);
      && (v.status == SAILOR_OK <==> TwoSuccesses(inbox))
      && (v.status == SAILOR_OPERATION_FAILED <==> ReadPacket(inbox).Bad? || ReadPacket(inbox).value.ptype != SUCCESS)
      && (v.status == SAILOR_INTERNAL_ERROR <==>
            v.status != SAILOR_OPERATION_FAILED && !TwoSuccesses(inbox))
  {
    hide ReadPacket;
  }

  ghost predicate TwoSuccesses(inbox: seq<byte>) {
    && ReadPacket(inbox).Good? && ReadPacket(inbox).value.ptype == SUCCESS
    && ReadPacket(ReadPacket(inbox).rest).Good? && ReadPacket(ReadPacket(inbox).rest).value.ptype == SUCCESS
  }

  /** The stream behind a download; None when it was cut short. */
  function AfterDownload(opens: bool, inbox: seq<byte>): Option<seq<byte>> {
    match ReadPacket(inbox)
    case Bad => None
    case Good(first, rest) =>
      if first.ptype != DOWNLOAD_BEGIN then Some(rest) else
      match ParseAnnounced(first)
      case None => Some(rest)
      case Some(a) =>
        if !opens then Some(rest) else
        var end := DownloadLoop(a.id, [], rest);
        if end.cut then None else Some(end.unread)
  }

  // ---- one request, one reply ----

  /** A status reply is taken from any packet whose payload parses: its type is not looked at. */
  function StatusOf(reply: Packet): SailorStatus {
    match Decode([FlagK, TextK], reply.payload)
    case Bad => SAILOR_OPERATION_FAILED
    case Good(fs, _) => if FlagAt(fs, 0) then SAILOR_OK else SAILOR_OPERATION_FAILED
  }

  function StatusVerdict(inbox: seq<byte>): SailorStatus {
    match ReadPacket(inbox)
    case Bad => SAILOR_CONNECTION_FAILED
    case Good(reply, _) => StatusOf(reply)
  }

  function ListingOf(reply: Packet): (SailorStatus, seq<DirectoryEntry>) {
    if reply.ptype != LIST_RESPONSE then (SAILOR_OPERATION_FAILED, []) else
    match DeserializeEntries(reply.payload)
    case None => (SAILOR_INTERNAL_ERROR, [])
    case Some(es) => (SAILOR_OK, es)
  }

  function ListVerdict(inbox: seq<byte>): (SailorStatus, seq<DirectoryEntry>) {
    match ReadPacket(inbox)
    case Bad => (SAILOR_CONNECTION_FAILED, [])
    case Good(reply, _) => ListingOf(reply)
  }

  lemma AfterTwo(inbox: seq<byte>)
    ensures ReadPacket(inbox).Good? && ReadPacket(ReadPacket(inbox).rest).Good? ==>
      StreamAfter(inbox, 2) == ReadPacket(ReadPacket(inbox).rest).rest
  {
    if ReadPacket(inbox).Good? {
      var rest := ReadPacket(inbox).rest;
      assert StreamAfter(inbox, 2) == StreamAfter(rest, 1);
      if ReadPacket(rest).Good? {
        assert StreamAfter(rest, 1) == StreamAfter(ReadPacket(rest).rest, 0);
      }
    }
  }

  lemma OnePacket(start: seq<byte>, p: Packet)
    ensures start + Serialize(p) == start + SerializeAll([p])
  {
    assert SerializeAll([p]) == Serialize(p) + SerializeAll([p][1..]);
  }

  lemma NextLoopReport(id: uint64, content: seq<byte>, stream: seq<byte>, data: seq<byte>, rest: seq<byte>,
                       done: seq<nat>)
    requires ReadPacket(stream).Good? && ReadPacket(stream).rest == rest
    requires ReadPacket(stream).value.ptype == DOWNLOAD_CHUNK
    requires ChunkData(ReadPacket(stream).value, id, |content|) == Some(data)
    ensures done + LoopReports(id, content, stream)
         == (if data == [] then done else done + [(|content| + |data|) % U64]) + LoopReports(id, content + data, rest)
  {
    var more := LoopReports(id, content + data, rest);
    assert [] + more == more;
    Associate(done, [(|content| + |data|) % U64], more);
  }

  lemma WrapSum(a: nat, b: nat)
    ensures (a % U64 + b) % U64 == (a + b) % U64
  {
    var q := a / U64;
    assert a == q * U64 + a % U64;
    var s := a % U64 + b;
    assert (q * U64 + s) % U64 == s % U64 by {
      AddMultiple(q, s);
    }
  }

  lemma {:induction false} AddMultiple(q: nat, s: nat)
    ensures (q * U64 + s) % U64 == s % U64
  {
    if q > 0 {
      AddMultiple(q - 1, s);
      assert q * U64 + s == (q - 1) * U64 + s + U64;
    }
  }

  // ---- arithmetic of the chunk loop ----

  /** ceil(n / 65536) */
  function ChunkCount(n: nat): nat {
    (n + 65535) / 65536
  }

  /** The k-th chunk of a file. */
  function ChunkAt(content: seq<byte>, k: nat): seq<byte>
    requires k * 65536 <= |content|
  {
    content[k * 65536..Min((k + 1) * 65536, |content|)]
  }

  /** ceil(n / 65536) chunks at consecutive multiples of 65536; only the last may be short. */
  lemma {:induction false} ChunksByIndex(ptype: uint32, id: uint64, content: FileBytes, from: nat)
    requires from * 65536 <= |content| || from == ChunkCount(|content|)
    ensures var ps := ChunkPackets(ptype, id, content, |content|, from * 65536);
      && |ps| == ChunkCount(|content|) - from
      && forall k | 0 <= k < |ps| ::
           && (from + k) * 65536 < |content|
           && ps[k] == Message(ptype, [Num(id), Num((from + k) * 65536), Blob(ChunkAt(content, from + k))])
    decreases |content| - from * CHUNK_SIZE
  {
    var pos := from * CHUNK_SIZE;
    var ps := ChunkPackets(ptype, id, content, |content|, pos);
    if pos < |content| {
      var next := (from + 1) * CHUNK_SIZE;
      assert next == pos + CHUNK_SIZE;
      var n := Min(CHUNK_SIZE, |content| - pos);
      if n < CHUNK_SIZE {
        assert ChunkPackets(ptype, id, content, |content|, pos + n) == [];
        assert ChunkCount(|content|) == from + 1;
      } else {
        ChunksByIndex(ptype, id, content, from + 1);
        var tail := ChunkPackets(ptype, id, content, |content|, next);
        assert ps == [ps[0]] + tail;
        forall k | 1 <= k < |ps|
          ensures ps[k] == tail[k - 1] && from + k == from + 1 + (k - 1)
        {
        }
      }
    }
  }

  lemma LastReport(content: seq<byte>, pos: nat)
    requires pos >= |content|
    ensures Reports(content, pos) == []
  {
  }

  lemma FirstReport(content: seq<byte>, pos: nat)
    requires pos < |content|
    ensures var n := Min(CHUNK_SIZE, |content| - pos);
      Reports(content, pos) == [pos + n] + Reports(content, pos + n)
  {
  }

  /** Progress reports grow strictly and end at the file size. */
  lemma {:induction false} ReportsGrowToSize(content: seq<byte>, pos: nat)
    requires pos <= |content|
    ensures var rs := Reports(content, pos);
      && (forall i | 0 <= i < |rs| :: pos < rs[i] <= |content|)
      && (forall i, j | 0 <= i < j < |rs| :: rs[i] < rs[j])
      && (pos < |content| ==> rs != [] && rs[|rs| - 1] == |content|)
    decreases |content| - pos
  {
    if pos < |content| {
      var n := Min(CHUNK_SIZE, |content| - pos);
      ReportsGrowToSize(content, pos + n);
      hide Reports;
      var rest := Reports(content, pos + n);
      var rs := Reports(content, pos);
      FirstReport(content, pos);
      assert forall i | 1 <= i < |rs| :: rs[i] == rest[i - 1];
    }
  }

  /** The reports by index: one for each chunk, with the count of bytes sent up to its end. */
  lemma {:induction false} ReportsByIndex(content: seq<byte>, from: nat)
    requires from * 65536 <= |content| || from == ChunkCount(|content|)
    ensures var rs := Reports(content, from * 65536);
      && |rs| == ChunkCount(|content|) - from
      && forall k | 0 <= k < |rs| :: rs[k] == Min((from + k + 1) * 65536, |content|)
    decreases |content| - from * 65536
  {
    var pos := from * 65536;
    if pos < |content| {
      FirstReport(content, pos);
      var n := Min(CHUNK_SIZE, |content| - pos);
      if n < CHUNK_SIZE {
        LastReport(content, pos + n);
        assert ChunkCount(|content|) == from + 1;
      } else {
        assert (from + 1) * 65536 == pos + n;
        ReportsByIndex(content, from + 1);
        var rest := Reports(content, pos + n);
        assert forall k | 1 <= k < |Reports(content, pos)| :: Reports(content, pos)[k] == rest[k - 1];
      }
    }
  }

  // ---- the client itself ----

  class InternalClient {
    const transport: TcpTransport
    const hasher: Hasher
    var authenticated: bool
    /** The local disk: files by path; directories are not in it. */
    var local: map<Str, seq<byte>>
    var progress: seq<nat>

    constructor (transport: TcpTransport, hasher: Hasher, local: map<Str, seq<byte>>)
      requires Streaming(hasher)
      ensures this.transport == transport && this.hasher == hasher && this.local == local
      ensures authenticated && progress == [] && Streaming(hasher)
    {
      this.transport, this.hasher, this.local, this.authenticated, this.progress := transport, hasher, local, true, [];
    }

    /** The chunk loop and UPLOAD_END. */
    method SendData(id: uint64, content: FileBytes) returns (ok: bool)
      modifies transport`sent, this`progress
      ensures ok ==> transport.sent == old(transport.sent) + SerializeAll(DataPackets(id, content))
      ensures ok ==> progress == old(progress) + Reports(content, 0)
      ensures transport.reliable ==> ok
    {
      hide Encode, Serialize, Reports, SerializeAll;
      NothingToSend();
      LastReport(content, |content|);
      var fileSize := |content|;
      ghost var all := ChunkPackets(UPLOAD_CHUNK, id, content, fileSize, 0);
      ghost var done: seq<Packet> := [];
      ghost var start := transport.sent;
      var totalSent := 0;
      var good := true;
      assert start + [] == start && [] + all == all;
      assert progress + Reports(content, 0) == old(progress) + Reports(content, 0);
      while good && totalSent < fileSize
        invariant 0 <= totalSent <= fileSize && (!good ==> totalSent == fileSize)
        invariant transport.sent == start + SerializeAll(done)
        invariant all == done + ChunkPackets(UPLOAD_CHUNK, id, content, fileSize, totalSent)
        invariant progress + Reports(content, totalSent) == old(progress) + Reports(content, 0)
        decreases good, fileSize - totalSent
      {
        var bytesRead := Min(CHUNK_SIZE, fileSize - totalSent);
        good := bytesRead == CHUNK_SIZE;
        if bytesRead <= 0 {
          break;
        }
        var chunk := PacketBuilder.Chunk(UPLOAD_CHUNK, id, totalSent, content[totalSent..totalSent + bytesRead]);
        ok := SendPacket(transport, chunk);
        if !ok {
          return;
        }
        SentSnoc(start, done, chunk);
        Associate(done, [chunk], ChunkPackets(UPLOAD_CHUNK, id, content, fileSize, totalSent + bytesRead));
        done := done + [chunk];
        FirstReport(content, totalSent);
        Associate(progress, [totalSent + bytesRead], Reports(content, totalSent + bytesRead));
        totalSent := totalSent + bytesRead;
        progress := progress + [totalSent];
      }
      assert done + [] == done && progress + [] == progress;
      var end := PacketBuilder.End(UPLOAD_END, id);
      ok := SendPacket(transport, end);
      SentSnoc(start, done, end);
    }

    /** id is the random number drawn for the upload. */
    method Upload(localFile: Str, filename: Str, remoteDir: Str, id: uint64) returns (status: SailorStatus)
      requires Streaming(hasher)
      requires localFile in local ==> |local[localFile]| < U64
      modifies transport, this`progress
      ensures !authenticated ==> status == SAILOR_NOT_CONNECTED && transport.sent == old(transport.sent)
      ensures authenticated && localFile !in local ==>
        status == SAILOR_FILE_NOT_FOUND && transport.sent == old(transport.sent)
      ensures authenticated && localFile in local ==>
        var content: FileBytes := local[localFile];
        var begin, data := BeginPacket(hasher, id, content, filename, remoteDir), DataPackets(id, content);
        var v := UploadVerdict(begin, data, old(transport.inbox));
        && (transport.reliable ==> status == v.status && transport.sent == old(transport.sent) + SerializeAll(v.sent))
        && (transport.reliable && (v.read == 2 || (v.status == SAILOR_OPERATION_FAILED && v.read == 1)) ==>
              transport.inbox == StreamAfter(old(transport.inbox), v.read))
        && (status == SAILOR_OK ==> v.status == SAILOR_OK && transport.inbox == StreamAfter(old(transport.inbox), 2))
        && (status == SAILOR_OK ==> transport.sent == old(transport.sent) + SerializeAll(v.sent))
        && (status == SAILOR_OK ==> TwoSuccesses(old(transport.inbox)))
        && (status == SAILOR_OK ==> progress == old(progress) + Reports(content, 0))
        && status in {SAILOR_OK, SAILOR_CONNECTION_FAILED, SAILOR_OPERATION_FAILED, SAILOR_INTERNAL_ERROR}
        && (status == SAILOR_CONNECTION_FAILED ==> !transport.reliable)
        && (status == SAILOR_OPERATION_FAILED ==> transport.sent == old(transport.sent) + Serialize(v.sent[0]))
        && (status == SAILOR_INTERNAL_ERROR ==>
              v.status != SAILOR_OPERATION_FAILED && transport.sent == old(transport.sent) + SerializeAll(v.sent))
    {
      hide Encode, DataPackets, Reports, ReadPacket, SerializeAll;
      if !authenticated {
        return SAILOR_NOT_CONNECTED;
      }
      if localFile !in local {
        return SAILOR_FILE_NOT_FOUND;
      }
      var content: FileBytes := local[localFile];
      ghost var start, stream := transport.sent, transport.inbox;
      var hash := Sha256File(hasher, content);
      if hash == [] && |content| > 0 {
        return SAILOR_INTERNAL_ERROR;
      }
      var begin := PacketBuilder.UploadBegin(id, |content|, remoteDir, filename, hash);
      OnePacket(start, begin);
      var ok := SendPacket(transport, begin);
      if !ok {
        return SAILOR_CONNECTION_FAILED;
      }
      var got, reply := ReceivePacket(transport);
      if !got || reply.ptype != SUCCESS {
        return SAILOR_OPERATION_FAILED;
      }
      ok := SendData(id, content);
      if !ok {
        return SAILOR_CONNECTION_FAILED;
      }
      SentAppend(start, [begin], DataPackets(id, content));
      got, reply := ReceivePacket(transport);
      AfterTwo(stream);
      if !got || reply.ptype != SUCCESS {
        return SAILOR_INTERNAL_ERROR;
      }
      return SAILOR_OK;
    }

    /** The receive loop: every chunk is appended to the target as it arrives. */
    method ReceiveFile(id: uint64, fileSize: uint64, target: Str) returns (ok: bool)
      requires target in local && local[target] == []
      modifies transport`inbox, this`progress, this`local
      ensures target in local && local == old(local)[target := local[target]]
      ensures var end := DownloadLoop(id, [], old(transport.inbox));
        && (ok ==> && end.ended && !end.cut && |end.content| % U64 == fileSize
                   && local[target] == end.content && transport.inbox == end.unread)
        && (transport.reliable ==> ok == (end.ended && |end.content| % U64 == fileSize))
        && (transport.reliable && !end.cut ==> transport.inbox == end.unread)
      ensures ok || transport.reliable ==> progress == old(progress) + LoopReports(id, [], old(transport.inbox))
    {
      hide Decode, Encode, ReadPacket;
      var receivedBytes := 0;
      ghost var reports := LoopReports(id, [], transport.inbox);
      assert progress + LoopReports(id, local[target], transport.inbox) == old(progress) + reports;
      ghost var whole := DownloadLoop(id, [], transport.inbox);
      while true
        invariant target in local && local == old(local)[target := local[target]]
        invariant receivedBytes == |local[target]| % U64
        invariant whole == DownloadLoop(id, local[target], transport.inbox)
        invariant progress + LoopReports(id, local[target], transport.inbox) == old(progress) + reports
        decreases |transport.inbox|
      {
        ghost var stream, before := transport.inbox, local[target];
        assert progress + [] == progress;
        var got, packet := ReceivePacket(transport);
        if !got {
          return false;
        }
        if packet.ptype == DOWNLOAD_CHUNK {
          var parsed, chunkId, offset, data := PacketBuilder.ParseChunk(packet.payload);
          if !parsed || chunkId != id || offset != receivedBytes {
            return false;
          }
          WrapSum(|local[target]|, |data|);
          NextLoopReport(id, before, stream, data, transport.inbox, progress);
          if |data| > 0 {
            local := local[target := local[target] + data];
            receivedBytes := (receivedBytes + |data|) % U64;
            progress := progress + [receivedBytes];
          } else {
            assert local[target] + data == local[target];
          }
        } else if packet.ptype == DOWNLOAD_END {
          return receivedBytes == fileSize;
        } else {
          return false;
        }
      }
    }

    /** From opening the target on: receive, check the size, check the digest, and remove the file on any failure. */
    method FillFile(target: Str, a: Announced) returns (status: SailorStatus)
      requires Streaming(hasher)
      modifies transport`inbox, this`progress, this`local
      ensures status == SAILOR_OK ==> target in local && local == old(local)[target := local[target]]
      ensures status == SAILOR_OK ==> progress == old(progress) + LoopReports(a.id, [], old(transport.inbox))
      ensures var o := FileOutcome(hasher, target, a, DownloadLoop(a.id, [], old(transport.inbox)));
        && (transport.reliable ==> status == o.status && local == AfterEffect(old(local), o.effect))
        && (status == SAILOR_OK ==> o.status == SAILOR_OK && local == AfterEffect(old(local), o.effect))
      ensures var end := DownloadLoop(a.id, [], old(transport.inbox));
        && (status == SAILOR_OK ==> !end.cut && transport.inbox == end.unread)
        && (transport.reliable && !end.cut ==> transport.inbox == end.unread)
      ensures status != SAILOR_OK ==> local == AfterEffect(old(local), Removed(target))
    {
      hide DownloadLoop, LoopReports, Streaming, Sha256Hex;
      local := local[target := []];
      var ok := ReceiveFile(a.id, a.size, target);
      if !ok {
        local := local - {target};
        return SAILOR_OPERATION_FAILED;
      }
      var actual := Sha256File(hasher, local[target]);
      if actual != a.hash {
        local := local - {target};
        return SAILOR_INTERNAL_ERROR;
      }
      return SAILOR_OK;
    }

    /** opens says whether the target can be opened for writing; writes to it do not fail. */
    method Download(remoteFile: Str, dest: Str, destIsDirectory: bool, opens: bool) returns (status: SailorStatus)
      requires Streaming(hasher) && dest != []
      modifies transport, this`progress, this`local
      ensures !authenticated ==> status == SAILOR_NOT_CONNECTED && local == old(local)
      ensures authenticated ==>
        var v := DownloadVerdict(hasher, dest, destIsDirectory, opens, old(transport.inbox));
        && (transport.reliable ==> status == v.status && local == AfterEffect(old(local), v.effect))
        && (transport.reliable ==>
              transport.sent == old(transport.sent) + Serialize(Message(DOWNLOAD_REQUEST, [Text(remoteFile)])))
        && (status == SAILOR_OK ==> v.status == SAILOR_OK && local == AfterEffect(old(local), v.effect)
                                    && AfterDownload(opens, old(transport.inbox)) == Some(transport.inbox))
        && (transport.reliable && AfterDownload(opens, old(transport.inbox)).Some? ==>
              AfterDownload(opens, old(transport.inbox)) == Some(transport.inbox))
        && (status != SAILOR_OK ==>
              local == old(local) || (exists target :: local == AfterEffect(old(local), Removed(target))))
      ensures status == SAILOR_OK ==>
        && ReadPacket(old(transport.inbox)).Good? && ReadPacket(old(transport.inbox)).value.ptype == DOWNLOAD_BEGIN
        && var d := Decode([NumK, NumK, TextK, TextK], ReadPacket(old(transport.inbox)).value.payload);
        && d.Good?
        && exists target ::
             && LandsAt(dest, destIsDirectory, TextAt(d.value, 2), target)
             && target in local && local == old(local)[target := local[target]]
      ensures status == SAILOR_OK ==>
        && ReadPacket(old(transport.inbox)).Good?
        && var first := ReadPacket(old(transport.inbox));
        && ParseAnnounced(first.value).Some?
        && progress == old(progress) + LoopReports(ParseAnnounced(first.value).value.id, [], first.rest)
    {
      hide Decode, Encode, DownloadLoop, ReadPacket, Serialize, FileOutcome;
      if !authenticated {
        return SAILOR_NOT_CONNECTED;
      }
      var req := PacketBuilder.OneText(DOWNLOAD_REQUEST, remoteFile);
      var sent := SendPacket(transport, req);
      if !sent {
        return SAILOR_CONNECTION_FAILED;
      }
      var got, begin := ReceivePacket(transport);
      if !got || begin.ptype != DOWNLOAD_BEGIN {
        return SAILOR_FILE_NOT_FOUND;
      }
      var parsed, id, fileSize, filename, expected := PacketBuilder.ParseDownloadBegin(begin.payload);
      if !parsed {
        return SAILOR_INTERNAL_ERROR;
      }
      if !opens {
        return SAILOR_PERMISSION_DENIED;
      }
      var target := TargetOf(dest, destIsDirectory, filename);
      TargetExactly(dest, destIsDirectory, filename, target);
      status := FillFile(target, Announced(id, fileSize, filename, expected));
      assert status == SAILOR_OK ==> target in local && local == old(local)[target := local[target]];
    }

    /** What deletePath, rename, mkdir and rmdir share: one request out, one status reply in. */
    twostate predicate Asked(req: Packet, status: SailorStatus)
      reads this, transport
    {
      && (!old(authenticated) ==>
            && status == SAILOR_NOT_CONNECTED
            && transport.sent == old(transport.sent) && transport.inbox == old(transport.inbox))
      && (status == SAILOR_OK ==> StatusVerdict(old(transport.inbox)) == SAILOR_OK)
      && (status in {SAILOR_OK, SAILOR_OPERATION_FAILED} ==>
            && transport.sent == old(transport.sent) + Serialize(req)
            && transport.inbox == StreamAfter(old(transport.inbox), 1))
      && (old(authenticated) && transport.reliable ==>
            status == StatusVerdict(old(transport.inbox)) && transport.sent == old(transport.sent) + Serialize(req))
    }

    method AskStatus(req: Packet) returns (status: SailorStatus)
      modifies transport
      ensures Asked(req, status)
    {
      if !authenticated {
        return SAILOR_NOT_CONNECTED;
      }
      var sent := SendPacket(transport, req);
      if !sent {
        return SAILOR_CONNECTION_FAILED;
      }
      var got, resp := ReceivePacket(transport);
      if !got {
        return SAILOR_CONNECTION_FAILED;
      }
      var parsed, ok, message := PacketBuilder.ParseStatusText(resp.payload);
      if parsed && ok {
        return SAILOR_OK;
      }
      return SAILOR_OPERATION_FAILED;
    }

    method DeletePath(path: Str) returns (status: SailorStatus)
      modifies transport
      ensures Asked(Message(DELETE_REQUEST, [Text(path)]), status)
    {
      var req := PacketBuilder.OneText(DELETE_REQUEST, path);
      status := AskStatus(req);
    }

    method Rename(source: Str, destination: Str) returns (status: SailorStatus)
      modifies transport
      ensures Asked(Message(RENAME_REQUEST, [Text(source), Text(destination)]), status)
    {
      var req := PacketBuilder.TwoTexts(RENAME_REQUEST, source, destination);
      status := AskStatus(req);
    }

    method Mkdir(path: Str) returns (status: SailorStatus)
      modifies transport
      ensures Asked(Message(MKDIR_REQUEST, [Text(path)]), status)
    {
      var req := PacketBuilder.OneText(MKDIR_REQUEST, path);
      status := AskStatus(req);
    }

    method Rmdir(path: Str) returns (status: SailorStatus)
      modifies transport
      ensures Asked(Message(RMDIR_REQUEST, [Text(path)]), status)
    {
      var req := PacketBuilder.OneText(RMDIR_REQUEST, path);
      status := AskStatus(req);
    }

    method List(path: Str) returns (status: SailorStatus, entries: seq<DirectoryEntry>)
      modifies transport
      ensures !authenticated ==> status == SAILOR_NOT_CONNECTED && transport.sent == old(transport.sent)
      ensures authenticated && transport.reliable ==>
        status == ListVerdict(old(transport.inbox)).0
        && transport.sent == old(transport.sent) + Serialize(Message(LIST, [Text(path)]))
      ensures status == SAILOR_OK ==> ListVerdict(old(transport.inbox)) == (SAILOR_OK, entries)
      ensures status == SAILOR_OK ==>
        && ReadPacket(old(transport.inbox)).Good?
        && var reply := ReadPacket(old(transport.inbox)).value;
        reply.ptype == LIST_RESPONSE && DeserializeEntries(reply.payload) == Some(entries)
      ensures status != SAILOR_OK ==> entries == []
      ensures authenticated && transport.reliable ==>
        match ReadPacket(old(transport.inbox))
        case Bad => status == SAILOR_CONNECTION_FAILED
        case Good(reply, _) =>
          && (reply.ptype != LIST_RESPONSE ==> status == SAILOR_OPERATION_FAILED)
          && (reply.ptype == LIST_RESPONSE ==>
                status == if DeserializeEntries(reply.payload).Some? then SAILOR_OK else SAILOR_INTERNAL_ERROR)
      ensures status in {SAILOR_OK, SAILOR_INTERNAL_ERROR, SAILOR_OPERATION_FAILED} ==>
        transport.inbox == StreamAfter(old(transport.inbox), 1)
    {
      entries := [];
      if !authenticated {
        return SAILOR_NOT_CONNECTED, entries;
      }
      var req := PacketBuilder.OneText(LIST, path);
      var sent := SendPacket(transport, req);
      if !sent {
        return SAILOR_CONNECTION_FAILED, entries;
      }
      var got, resp := ReceivePacket(transport);
      if !got {
        return SAILOR_CONNECTION_FAILED, entries;
      }
      if resp.ptype == LIST_RESPONSE {
        var ok, es := DeserializeListing(resp.payload);
        if ok {
          return SAILOR_OK, es;
        }
        return SAILOR_INTERNAL_ERROR, entries;
      }
      return SAILOR_OPERATION_FAILED, entries;
    }
  }
}
