/**
 * PacketBuilder: payload buffers filled at a moving offset, and the parsers that read them back.
 * Every builder is proved to produce Message of its field list, every parser to be Decode of its kinds.
 */
module PacketBuilder {
  import opened Bytes
  import opened Packets

  /** memcpy of src into the buffer at offset; the write position moves past it. */
  method Copy(buf: array<byte>, offset: nat, src: seq<byte>) returns (next: nat)
    requires offset + |src| <= buf.Length
    modifies buf
    ensures next == offset + |src|
    ensures buf[..next] == old(buf[..offset]) + src
  {
    forall i | 0 <= i < |src| {
      buf[offset + i] := src[i];
    }
    next := offset + |src|;
  }

  /** htobe and memcpy of a number. */
  method CopyNum(buf: array<byte>, offset: nat, ghost done: seq<Field>, v: uint64)
    returns (next: nat, ghost now: seq<Field>)
    requires offset + 8 <= buf.Length && buf[..offset] == Encode(done)
    modifies buf
    ensures next == offset + 8
    ensures now == done + [Num(v)] && buf[..next] == Encode(now)
  {
    next := Copy(buf, offset, ToBE(v, 8));
    EncodeSnoc(done, Num(v));
    now := done + [Num(v)];
  }

  /** The narrowed length of a string, then all of its bytes. */
  method CopyText(buf: array<byte>, offset: nat, ghost done: seq<Field>, s: Str)
    returns (next: nat, ghost now: seq<Field>)
    requires offset + 2 + |s| <= buf.Length && buf[..offset] == Encode(done)
    modifies buf
    ensures next == offset + 2 + |s|
    ensures now == done + [Text(s)] && buf[..next] == Encode(now)
  {
    var len := ToBE(|s| % U16, 2);
    next := Copy(buf, offset, len);
    next := Copy(buf, next, s);
    EncodeSnocText(done, s);
    now := done + [Text(s)];
  }

  method CopyFlag(buf: array<byte>, offset: nat, ghost done: seq<Field>, on: bool)
    returns (next: nat, ghost now: seq<Field>)
    requires offset + 1 <= buf.Length && buf[..offset] == Encode(done)
    modifies buf
    ensures next == offset + 1
    ensures now == done + [Flag(on)] && buf[..next] == Encode(now)
  {
    next := Copy(buf, offset, [if on then 1 else 0]);
    EncodeSnoc(done, Flag(on));
    now := done + [Flag(on)];
  }

  /** The payload vector is complete: the header takes its size. */
  method Seal(ptype: uint32, buf: array<byte>, ghost done: seq<Field>, ghost fs: seq<Field>) returns (p: Packet)
    requires buf[..buf.Length] == Encode(done) && done == fs
    ensures p == Message(ptype, fs)
  {
    assert buf[..buf.Length] == buf[..];
    p := Packet(ptype, buf.Length, buf[..]);
  }

  // ---- builders ----

  method Pong() returns (p: Packet)
    ensures p == Message(PONG, [])
  {
    p := Packet(PONG, 0, []);
  }

  /** error, success, listRequest, downloadRequest, deleteRequest, mkdirRequest, rmdirRequest. */
  method OneText(ptype: uint32, s: Str) returns (p: Packet)
    ensures p == Message(ptype, [Text(s)])
  {
    var buf := new byte[2 + |s|];
    var offset, done := CopyText(buf, 0, [], s);
    p := Seal(ptype, buf, done, [Text(s)]);
  }

  /** authRequest and renameRequest. */
  method TwoTexts(ptype: uint32, a: Str, b: Str) returns (p: Packet)
    ensures p == Message(ptype, [Text(a), Text(b)])
  {
    var buf := new byte[2 + |a| + 2 + |b|];
    var offset, done := CopyText(buf, 0, [], a);
    offset, done := CopyText(buf, offset, done, b);
    p := Seal(ptype, buf, done, [Text(a), Text(b)]);
  }

  /** deleteResponse, renameResponse, mkdirResponse, rmdirResponse. */
  method StatusText(ptype: uint32, success: bool, message: Str) returns (p: Packet)
    ensures p == Message(ptype, [Flag(success), Text(message)])
  {
    var buf := new byte[1 + 2 + |message|];
    var offset, done := CopyFlag(buf, 0, [], success);
    offset, done := CopyText(buf, offset, done, message);
    p := Seal(ptype, buf, done, [Flag(success), Text(message)]);
  }

  method AuthResponse(success: bool, sessionId: uint64, message: Str) returns (p: Packet)
    ensures p == Message(AUTH_RESPONSE, [Flag(success), Num(sessionId), Text(message)])
  {
    var buf := new byte[1 + 8 + 2 + |message|];
    var offset, done := CopyFlag(buf, 0, [], success);
    offset, done := CopyNum(buf, offset, done, sessionId);
    offset, done := CopyText(buf, offset, done, message);
    p := Seal(AUTH_RESPONSE, buf, done, [Flag(success), Num(sessionId), Text(message)]);
  }

  method UploadBegin(id: uint64, size: uint64, path: Str, filename: Str, hash: Str) returns (p: Packet)
    ensures p == Message(UPLOAD_BEGIN, [Num(id), Num(size), Text(path), Text(filename), Text(hash)])
  {
    var buf := new byte[8 + 8 + 2 + |path| + 2 + |filename| + 2 + |hash|];
    var offset, done := CopyNum(buf, 0, [], id);
    offset, done := CopyNum(buf, offset, done, size);
    offset, done := CopyText(buf, offset, done, path);
    offset, done := CopyText(buf, offset, done, filename);
    offset, done := CopyText(buf, offset, done, hash);
    p := Seal(UPLOAD_BEGIN, buf, done, [Num(id), Num(size), Text(path), Text(filename), Text(hash)]);
  }

  /** uploadChunk and downloadChunk. */
  method Chunk(ptype: uint32, id: uint64, position: uint64, data: seq<byte>) returns (p: Packet)
    ensures p == Message(ptype, [Num(id), Num(position), Blob(data)])
  {
    var buf := new byte[8 + 8 + 4 + |data|];
    var pos, done := CopyNum(buf, 0, [], id);
    pos, done := CopyNum(buf, pos, done, position);
    var len := ToBE(|data| % U32, 4);
    pos := Copy(buf, pos, len);
    pos := Copy(buf, pos, data);
    EncodeSnocBlob(done, data);
    done := done + [Blob(data)];
    p := Seal(ptype, buf, done, [Num(id), Num(position), Blob(data)]);
  }

  /** uploadEnd and downloadEnd. */
  method End(ptype: uint32, id: uint64) returns (p: Packet)
    ensures p == Message(ptype, [Num(id)])
  {
    var buf := new byte[8];
    var offset, done := CopyNum(buf, 0, [], id);
    p := Seal(ptype, buf, done, [Num(id)]);
  }

  method DownloadBegin(id: uint64, size: uint64, filename: Str, hash: Str) returns (p: Packet)
    ensures p == Message(DOWNLOAD_BEGIN, [Num(id), Num(size), Text(filename), Text(hash)])
  {
    var buf := new byte[8 + 8 + 2 + |filename| + 2 + |hash|];
    var offset, done := CopyNum(buf, 0, [], id);
    offset, done := CopyNum(buf, offset, done, size);
    offset, done := CopyText(buf, offset, done, filename);
    offset, done := CopyText(buf, offset, done, hash);
    p := Seal(DOWNLOAD_BEGIN, buf, done, [Num(id), Num(size), Text(filename), Text(hash)]);
  }

  // ---- parsers ----

  /** memcpy of the next eight bytes and be64toh, where the size has been checked before. */
  method ReadNum(ghost ks: seq<Kind>, p: seq<byte>, ghost done: seq<Field>, pos: nat)
    returns (v: uint64, next: nat, ghost now: seq<Field>)
    requires Reached(ks, p, done, pos) && |done| < |ks| && ks[|done|] == NumK && pos + 8 <= |p|
    ensures next == pos + 8 && now == done + [Num(v)] && Reached(ks, p, now, next)
  {
    FromBEBounds(p[pos..pos + 8]);
    v := FromBE(p[pos..pos + 8]);
    next := pos + 8;
    assert p[pos..][..8] == p[pos..pos + 8] && p[pos..][8..] == p[next..];
    Advance(ks, p, done, pos, Num(v), next);
    now := done + [Num(v)];
  }

  /**
   * Reads a 16-bit length, checks that the string and `after` more bytes are there, and takes the string.
   * `after` is the head of the next field, or nothing.
   */
  method ReadText(ghost ks: seq<Kind>, p: seq<byte>, ghost done: seq<Field>, pos: nat, after: nat)
    returns (ok: bool, s: Str, next: nat, ghost now: seq<Field>)
    requires Reached(ks, p, done, pos) && |done| < |ks| && ks[|done|] == TextK && pos + 2 <= |p|
    requires after <= MinSize(ks[|done| + 1..])
    ensures ok ==> next + after <= |p| && now == done + [Text(s)] && Reached(ks, p, now, next)
    ensures !ok ==> Decode(ks, p).Bad?
  {
    hide Decode, DecodeField, Reached, FromBE;
    var len := FromBE(p[pos..pos + 2]);
    s, next, now := [], pos, done;
    DecodeAt(TextK, p, pos, 2);
    ok := |p| >= pos + 2 + len + after;
    if pos + 2 + len > |p| {
      Stuck(ks, p, done, pos);
      return;
    }
    ghost var text := Text(p[pos + 2..pos + 2 + len]);
    Advance(ks, p, done, pos, text, pos + 2 + len);
    if !ok {
      assert ks[|done| + 1..] == [] ==> after == 0;
      Stuck(ks, p, done + [text], pos + 2 + len);
      return;
    }
    next := pos + 2 + len;
    s := p[pos + 2..next];
    now := done + [text];
  }

  /** parseError, parseSuccess, parseListRequest, parseDownloadRequest, and the delete, mkdir and rmdir requests. */
  method ParseOneText(p: seq<byte>) returns (ok: bool, s: Str)
    ensures ok == Decode([TextK], p).Good?
    ensures ok ==> Decode([TextK], p).value == [Text(s)]
  {
    ghost var ks := [TextK];
    s := [];
    ghost var done: seq<Field> := [];
    Start(ks, p);
    if |p| < 2 { Stuck(ks, p, [], 0); return false, s; }
    var next;
    ok, s, next, done := ReadText(ks, p, done, 0, 0);
    if ok { ParsedAll(ks, p, done, [Text(s)], next); }
  }

  /** parseAuthRequest and parseRenameRequest. */
  method ParseTwoTexts(p: seq<byte>) returns (ok: bool, a: Str, b: Str)
    ensures ok == Decode([TextK, TextK], p).Good?
    ensures ok ==> Decode([TextK, TextK], p).value == [Text(a), Text(b)]
  {
    ghost var ks := [TextK, TextK];
    a, b := [], [];
    ghost var done: seq<Field> := [];
    Start(ks, p);
    if |p| < 4 { Stuck(ks, p, [], 0); return false, a, b; }
    var offset;
    ok, a, offset, done := ReadText(ks, p, done, 0, 2);
    if !ok { return; }
    ok, b, offset, done := ReadText(ks, p, done, offset, 0);
    if ok { ParsedAll(ks, p, done, [Text(a), Text(b)], offset); }
  }

  /** The first byte of a reply: 1 is true, anything else false. */
  method ReadFlag(ghost ks: seq<Kind>, p: seq<byte>) returns (on: bool, ghost now: seq<Field>)
    requires ks != [] && ks[0] == FlagK && p != []
    ensures now == [Flag(on)] && Reached(ks, p, now, 1)
  {
    ghost var done: seq<Field> := [];
    Start(ks, p);
    on := p[0] == 1;
    Advance(ks, p, [], 0, Flag(on), 1);
    now := [] + [Flag(on)];
  }

  /** parseDeleteResponse, parseRenameResponse, parseMkdirResponse, parseRmdirResponse. */
  method ParseStatusText(p: seq<byte>) returns (ok: bool, success: bool, message: Str)
    ensures ok == Decode([FlagK, TextK], p).Good?
    ensures ok ==> Decode([FlagK, TextK], p).value == [Flag(success), Text(message)]
  {
    ghost var ks := [FlagK, TextK];
    success, message := false, [];
    ghost var done: seq<Field> := [];
    Start(ks, p);
    if |p| < 3 { Stuck(ks, p, [], 0); return false, success, message; }
    success, done := ReadFlag(ks, p);
    var offset;
    ok, message, offset, done := ReadText(ks, p, done, 1, 0);
    if ok { ParsedAll(ks, p, done, [Flag(success), Text(message)], offset); }
  }

  method ParseAuthResponse(p: seq<byte>) returns (ok: bool, success: bool, sessionId: uint64, message: Str)
    ensures ok == Decode([FlagK, NumK, TextK], p).Good?
    ensures ok ==> Decode([FlagK, NumK, TextK], p).value == [Flag(success), Num(sessionId), Text(message)]
  {
    hide Decode, Reached;
    ghost var ks := [FlagK, NumK, TextK];
    success, sessionId, message := false, 0, [];
    ghost var done: seq<Field> := [];
    Start(ks, p);
    MinSizes();
    if |p| < 11 { Stuck(ks, p, [], 0); return false, success, sessionId, message; }
    success, done := ReadFlag(ks, p);
    var offset;
    sessionId, offset, done := ReadNum(ks, p, done, 1);
    ok, message, offset, done := ReadText(ks, p, done, offset, 0);
    if ok { ParsedAll(ks, p, done, [Flag(success), Num(sessionId), Text(message)], offset); }
  }

  method ParseUploadBegin(p: seq<byte>)
    returns (ok: bool, id: uint64, size: uint64, path: Str, filename: Str, hash: Str)
    ensures ok == Decode([NumK, NumK, TextK, TextK, TextK], p).Good?
    ensures ok ==> Decode([NumK, NumK, TextK, TextK, TextK], p).value
                   == [Num(id), Num(size), Text(path), Text(filename), Text(hash)]
  {
    hide Decode, Reached;
    ghost var ks := [NumK, NumK, TextK, TextK, TextK];
    id, size, path, filename, hash := 0, 0, [], [], [];
    ghost var done: seq<Field> := [];
    Start(ks, p);
    MinSizes();
    if |p| < 22 { Stuck(ks, p, [], 0); return false, id, size, path, filename, hash; }
    var pos;
    id, pos, done := ReadNum(ks, p, done, 0);
    size, pos, done := ReadNum(ks, p, done, pos);
    ok, path, pos, done := ReadText(ks, p, done, pos, 2);
    if !ok { return; }
    ok, filename, pos, done := ReadText(ks, p, done, pos, 2);
    if !ok { return; }
    ok, hash, pos, done := ReadText(ks, p, done, pos, 0);
    if ok { ParsedAll(ks, p, done, [Num(id), Num(size), Text(path), Text(filename), Text(hash)], pos); }
  }

  /** parseUploadChunk and parseDownloadChunk. */
  method ParseChunk(p: seq<byte>) returns (ok: bool, id: uint64, position: uint64, data: seq<byte>)
    ensures ok == Decode([NumK, NumK, BlobK], p).Good?
    ensures ok ==> Decode([NumK, NumK, BlobK], p).value == [Num(id), Num(position), Blob(data)]
  {
    hide Decode, Reached;
    ghost var ks := [NumK, NumK, BlobK];
    id, position, data := 0, 0, [];
    ghost var done: seq<Field> := [];
    Start(ks, p);
    if |p| < 20 {
      MinSizes();
      Stuck(ks, p, [], 0);
      return false, id, position, data;
    }
    var pos;
    id, pos, done := ReadNum(ks, p, done, 0);
    position, pos, done := ReadNum(ks, p, done, pos);
    var len := FromBE(p[pos..pos + 4]);
    DecodeAt(BlobK, p, 16, 4);
    pos := pos + 4;
    if |p| < pos + len {
      Stuck(ks, p, done, 16);
      return false, id, position, data;
    }
    ok, data := true, p[pos..pos + len];
    Advance(ks, p, done, 16, Blob(data), pos + len);
    ParsedAll(ks, p, done + [Blob(data)], [Num(id), Num(position), Blob(data)], pos + len);
  }

  /** parseUploadEnd and parseDownloadEnd. */
  method ParseEnd(p: seq<byte>) returns (ok: bool, id: uint64)
    ensures ok == Decode([NumK], p).Good?
    ensures ok ==> Decode([NumK], p).value == [Num(id)]
  {
    ghost var ks := [NumK];
    id := 0;
    ghost var done: seq<Field> := [];
    Start(ks, p);
    if |p| < 8 { Stuck(ks, p, [], 0); return false, id; }
    var next;
    id, next, done := ReadNum(ks, p, done, 0);
    ParsedAll(ks, p, done, [Num(id)], next);
    ok := true;
  }

  method ParseDownloadBegin(p: seq<byte>) returns (ok: bool, id: uint64, size: uint64, filename: Str, hash: Str)
    ensures ok == Decode([NumK, NumK, TextK, TextK], p).Good?
    ensures ok ==> Decode([NumK, NumK, TextK, TextK], p).value == [Num(id), Num(size), Text(filename), Text(hash)]
  {
    hide Decode, Reached;
    ghost var ks := [NumK, NumK, TextK, TextK];
    id, size, filename, hash := 0, 0, [], [];
    ghost var done: seq<Field> := [];
    Start(ks, p);
    MinSizes();
    if |p| < 20 { Stuck(ks, p, [], 0); return false, id, size, filename, hash; }
    var pos;
    id, pos, done := ReadNum(ks, p, done, 0);
    size, pos, done := ReadNum(ks, p, done, pos);
    ok, filename, pos, done := ReadText(ks, p, done, pos, 2);
    if !ok { return; }
    ok, hash, pos, done := ReadText(ks, p, done, pos, 0);
    if ok { ParsedAll(ks, p, done, [Num(id), Num(size), Text(filename), Text(hash)], pos); }
  }
}
