/** Packets on a byte stream: the 12-byte header, the partial-progress loops, and packet IO. */
module Framing {
  import opened Bytes
  import opened Packets

  const HEADER_LEN := 12

  function Serialize(p: Packet): seq<byte> {
    ToBE(p.ptype, 4) + ToBE(p.payloadSize % U64, 8) + p.payload
  }

  function SerializeAll(ps: seq<Packet>): seq<byte> {
    if ps == [] then [] else Serialize(ps[0]) + SerializeAll(ps[1..])
  }

  function HeaderType(s: seq<byte>): uint32
    requires |s| >= HEADER_LEN
  {
    FromBEBounds(s[..4]);
    FromBE(s[..4])
  }

  function HeaderSize(s: seq<byte>): uint64
    requires |s| >= HEADER_LEN
  {
    FromBEBounds(s[4..12]);
    FromBE(s[4..12])
  }

  /** The first packet of a stream and what is behind it; Bad when the stream ends too early. */
  function ReadPacket(s: seq<byte>): Parse<Packet> {
    if |s| < HEADER_LEN then Bad else
    var n := HeaderSize(s);
    if |s| < HEADER_LEN + n then Bad else
    Good(Packet(HeaderType(s), n, s[12..12 + n]), s[12 + n..])
  }

  /** Every packet that can be read off a stream before it ends. */
  function Frames(s: seq<byte>): seq<Packet>
    decreases |s|
  {
    match ReadPacket(s)
    case Bad => []
    case Good(p, rest) => [p] + Frames(rest)
  }

  lemma HeadOf(t: seq<byte>, n: seq<byte>, rest: seq<byte>)
    requires |t| == 4 && |n| == 8
    ensures var s := t + n + rest;
      s[..4] == t && s[4..12] == n && s[12..] == rest
  {
  }

  lemma HeaderRoundTrip(p: Packet, tail: seq<byte>)
    ensures var s := Serialize(p) + tail;
      && HeaderType(s) == p.ptype && HeaderSize(s) == p.payloadSize % U64
      && s[12..] == p.payload + tail
  {
    hide ToBE, FromBE, Pow256;
    Widths();
    var s := Serialize(p) + tail;
    var t, n := ToBE(p.ptype, 4), ToBE(p.payloadSize % U64, 8);
    FromBEOfToBE(p.ptype, 4);
    FromBEOfToBE(p.payloadSize % U64, 8);
    Associate(t + n, p.payload, tail);
    HeadOf(t, n, p.payload + tail);
  }

  /** A packet comes back off the stream exactly when its header size is its payload length. */
  lemma PacketRoundTrip(p: Packet, tail: seq<byte>)
    ensures ReadPacket(Serialize(p) + tail) == Good(p, tail) <==> WellFormed(p)
  {
    HeaderRoundTrip(p, tail);
    var s := Serialize(p) + tail;
    if WellFormed(p) {
      var n := p.payloadSize;
      assert s[12..12 + n] == s[12..][..n] == p.payload;
      assert s[12 + n..] == s[12..][n..] == tail;
    }
  }

  predicate AllWellFormed(ps: seq<Packet>) {
    forall i | 0 <= i < |ps| :: WellFormed(ps[i])
  }

  lemma FramesStep(p: Packet, rest: seq<byte>)
    requires WellFormed(p)
    ensures Frames(Serialize(p) + rest) == [p] + Frames(rest)
  {
    PacketRoundTrip(p, rest);
  }

  /** Reading a stream of serialized packets gives the packets, boundaries kept, then the frames of the tail. */
  lemma {:induction false} FramesOfStream(ps: seq<Packet>, tail: seq<byte>)
    requires AllWellFormed(ps)
    ensures Frames(SerializeAll(ps) + tail) == ps + Frames(tail)
  {
    if ps == [] {
      assert SerializeAll([]) + tail == tail;
    } else {
      var rest := SerializeAll(ps[1..]) + tail;
      assert SerializeAll(ps) + tail == Serialize(ps[0]) + rest;
      FramesStep(ps[0], rest);
      FramesOfStream(ps[1..], tail);
      Uncons(ps, Frames(tail));
    }
  }

  lemma FramesOfWholeStream(ps: seq<Packet>)
    requires AllWellFormed(ps)
    ensures Frames(SerializeAll(ps)) == ps
  {
    FramesOfStream(ps, []);
    assert SerializeAll(ps) + [] == SerializeAll(ps);
  }

  /** No two packet sequences share a byte stream. */
  lemma StreamDeterminesPackets(ps: seq<Packet>, qs: seq<Packet>)
    requires AllWellFormed(ps) && AllWellFormed(qs)
    requires SerializeAll(ps) == SerializeAll(qs)
    ensures ps == qs
  {
    FramesOfWholeStream(ps);
    FramesOfWholeStream(qs);
  }

  lemma FourParts(s: seq<byte>, n: nat)
    requires 12 + n <= |s|
    ensures s[..4] + s[4..12] + s[12..12 + n] + s[12 + n..] == s
  {
  }

  /** Whatever is read was on the stream: writing it again gives the stream back. */
  lemma ReadPacketRebuild(s: seq<byte>)
    requires ReadPacket(s).Good?
    ensures WellFormed(ReadPacket(s).value)
    ensures Serialize(ReadPacket(s).value) + ReadPacket(s).rest == s
  {
    hide ToBE, FromBE;
    ToBEOfFromBE(s[..4]);
    ToBEOfFromBE(s[4..12]);
    FourParts(s, HeaderSize(s));
  }

  lemma {:induction false} SerializeAllSnoc(ps: seq<Packet>, p: Packet)
    ensures SerializeAll(ps + [p]) == SerializeAll(ps) + Serialize(p)
  {
    if ps == [] {
      assert SerializeAll([p]) == Serialize(p) + SerializeAll([p][1..]);
    } else {
      assert (ps + [p])[1..] == ps[1..] + [p];
      SerializeAllSnoc(ps[1..], p);
    }
  }

  lemma {:induction false} SerializeAllAppend(ps: seq<Packet>, qs: seq<Packet>)
    ensures SerializeAll(ps + qs) == SerializeAll(ps) + SerializeAll(qs)
  {
    if ps == [] {
      assert [] + qs == qs;
    } else {
      assert (ps + qs)[1..] == ps[1..] + qs;
      SerializeAllAppend(ps[1..], qs);
    }
  }

  /** PacketSerializer::serialize: header and payload copied into one buffer. */
  method SerializePacket(p: Packet) returns (buffer: array<byte>)
    ensures fresh(buffer)
    ensures buffer[..] == Serialize(p)
  {
    buffer := new byte[HEADER_LEN + |p.payload|];
    var header := ToBE(p.ptype, 4) + ToBE(p.payloadSize % U64, 8);
    forall i | 0 <= i < HEADER_LEN {
      buffer[i] := header[i];
    }
    forall i | 0 <= i < |p.payload| {
      buffer[HEADER_LEN + i] := p.payload[i];
    }
    assert buffer[..HEADER_LEN] == header;
    assert buffer[HEADER_LEN..] == p.payload;
  }

  /** What deserialize does; Undefined is a copy whose end lies in front of its start. */
  datatype Deserialized = TooShort | Undefined | Whole(p: Packet)

  /** PacketSerializer::deserialize. Within 12 of 2^64 the sum in its size check wraps, and the copy is undefined. */
  method DeserializePacket(data: seq<byte>) returns (r: Deserialized)
    ensures r == Undefined <==> |data| >= HEADER_LEN && HeaderSize(data) + HEADER_LEN >= U64
    ensures r == TooShort <==> r != Undefined && ReadPacket(data).Bad?
    ensures r.Whole? ==> ReadPacket(data).Good? && r.p == ReadPacket(data).value
  {
    if |data| < HEADER_LEN {
      return TooShort;
    }
    var size := HeaderSize(data);
    if |data| < (HEADER_LEN + size) % U64 {
      return TooShort;
    }
    if HEADER_LEN + size >= U64 {
      return Undefined;
    }
    r := Whole(Packet(HeaderType(data), size, data[HEADER_LEN..HEADER_LEN + size]));
  }

  /**
   * A connected socket. `sent` is what the kernel has taken for the peer, `inbox` what the peer has put
   * on the wire and recv has not handed out yet. Each call moves any positive count of bytes, or fails.
   * When `reliable`, a call fails only if there is nothing left to move.
   */
  class TcpTransport {
    const reliable: bool
    var sent: seq<byte>
    var inbox: seq<byte>

    constructor (reliable: bool, inbox: seq<byte>)
      ensures this.reliable == reliable && this.inbox == inbox && sent == []
    {
      this.reliable, this.inbox, this.sent := reliable, inbox, [];
    }

    /** send(2) */
    method Send(data: seq<byte>) returns (n: int)
      requires data != []
      modifies this`sent
      ensures n <= |data|
      ensures sent == if n > 0 then old(sent) + data[..n] else old(sent)
      ensures reliable ==> n > 0
    {
      n :| -1 <= n <= |data| && (reliable ==> n > 0);
      if n > 0 {
        sent := sent + data[..n];
      }
    }

    /** recv(2) into buf from position start on. */
    method Recv(buf: array<byte>, start: nat, want: nat) returns (n: int)
      requires 0 < want && start + want <= buf.Length
      modifies this`inbox, buf
      ensures n <= want && n <= |old(inbox)|
      ensures n <= 0 ==> inbox == old(inbox) && buf[..] == old(buf[..])
      ensures n > 0 ==> inbox == old(inbox)[n..] && buf[..start + n] == old(buf[..start]) + old(inbox)[..n]
      ensures reliable && old(inbox) != [] ==> n > 0
    {
      n :| -1 <= n <= want && n <= |inbox| && (reliable && inbox != [] ==> n > 0);
      if n > 0 {
        forall i | 0 <= i < n {
          buf[start + i] := inbox[i];
        }
        inbox := inbox[n..];
      }
    }

    /** Sends all of data, or a proper prefix of it before the first failure. */
    method SendAll(data: seq<byte>) returns (ok: bool)
      modifies this`sent
      ensures ok ==> sent == old(sent) + data
      ensures !ok ==> exists k | 0 <= k < |data| :: sent == old(sent) + data[..k]
      ensures reliable ==> ok
    {
      var total := 0;
      while total < |data|
        invariant 0 <= total <= |data|
        invariant sent == old(sent) + data[..total]
      {
        var n := Send(data[total..]);
        if n <= 0 {
          return false;
        }
        assert data[..total] + data[total..][..n] == data[..total + n];
        total := total + n;
      }
      assert data[..total] == data;
      ok := true;
    }

    /** Fills buf from the stream, whatever pieces the kernel hands out; fails only if the stream ends early. */
    method RecvAll(buf: array<byte>) returns (ok: bool)
      modifies this`inbox, buf
      ensures ok ==>
        && |old(inbox)| >= buf.Length
        && inbox == old(inbox)[buf.Length..] && buf[..] == old(inbox)[..buf.Length]
      ensures !ok ==> exists k | 0 <= k <= |old(inbox)| && k < buf.Length :: inbox == old(inbox)[k..]
      ensures reliable ==> ok == (|old(inbox)| >= buf.Length)
    {
      var total := 0;
      while total < buf.Length
        invariant 0 <= total <= buf.Length && total <= |old(inbox)|
        invariant inbox == old(inbox)[total..] && buf[..total] == old(inbox)[..total]
      {
        var n := Recv(buf, total, buf.Length - total);
        if n <= 0 {
          return false;
        }
        assert old(inbox)[..total] + old(inbox)[total..][..n] == old(inbox)[..total + n];
        total := total + n;
      }
      ok := true;
    }
  }

  /** PacketIO::sendPacket */
  method SendPacket(t: TcpTransport, p: Packet) returns (ok: bool)
    modifies t`sent
    ensures ok ==> t.sent == old(t.sent) + Serialize(p)
    ensures t.reliable ==> ok
  {
    var buffer := SerializePacket(p);
    ok := t.SendAll(buffer[..]);
  }

  /** PacketIO::receivePacket: exactly the first packet of the stream, under any schedule of partial receives. */
  method ReceivePacket(t: TcpTransport) returns (ok: bool, p: Packet)
    modifies t`inbox
    ensures ok ==> ReadPacket(old(t.inbox)) == Good(p, t.inbox) && |t.inbox| < |old(t.inbox)|
    ensures !ok ==> |t.inbox| <= |old(t.inbox)|
    ensures t.reliable ==> ok == ReadPacket(old(t.inbox)).Good?
  {
    p := Packet(0, 0, []);
    var header := new byte[HEADER_LEN];
    ghost var s := t.inbox;
    ok := t.RecvAll(header);
    if !ok {
      return;
    }
    var h := header[..];
    assert h[..4] == s[..4] && h[4..12] == s[4..12];
    var size := HeaderSize(h);
    var payload := new byte[size];
    if size > 0 {
      ok := t.RecvAll(payload);
      if !ok {
        return;
      }
      assert s[12..][..size] == s[12..12 + size] && s[12..][size..] == s[12 + size..];
    }
    assert size == 0 ==> payload[..] == s[12..12 + size];
    p := Packet(HeaderType(h), size, payload[..]);
  }
}
