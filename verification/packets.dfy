/** Packet types, the packet record and the grammar of payloads. */
module Packets {
  import opened Bytes

  // protocol/packet_type.hpp
  const PING: uint32 := 1
  const PONG: uint32 := 2
  const AUTH_REQUEST: uint32 := 3
  const AUTH_RESPONSE: uint32 := 4
  const LIST: uint32 := 5
  const LIST_RESPONSE: uint32 := 6
  const UPLOAD_BEGIN: uint32 := 7
  const UPLOAD_CHUNK: uint32 := 8
  const UPLOAD_END: uint32 := 9
  const DOWNLOAD_REQUEST: uint32 := 10
  const DOWNLOAD_CHUNK: uint32 := 11
  const DELETE_FILE: uint32 := 12
  const RENAME_FILE: uint32 := 13
  const MKDIR: uint32 := 14
  const SUCCESS: uint32 := 15
  const ERROR: uint32 := 16
  const DOWNLOAD_BEGIN: uint32 := 18
  const DOWNLOAD_END: uint32 := 19
  const DELETE_REQUEST: uint32 := 20
  const DELETE_RESPONSE: uint32 := 21
  const RENAME_REQUEST: uint32 := 22
  const RENAME_RESPONSE: uint32 := 23
  const MKDIR_REQUEST: uint32 := 24
  const MKDIR_RESPONSE: uint32 := 25
  const RMDIR_REQUEST: uint32 := 26
  const RMDIR_RESPONSE: uint32 := 27

  /** Header fields and payload; the header carries its own idea of the size. */
  datatype Packet = Packet(ptype: uint32, payloadSize: nat, payload: seq<byte>)

  predicate WellFormed(p: Packet) {
    p.payloadSize == |p.payload| < U64
  }

  /** One length-prefixed or fixed-width field of a payload. */
  datatype Field = Flag(on: bool) | Num(v: uint64) | Text(s: Str) | Blob(d: seq<byte>)

  datatype Kind = FlagK | NumK | TextK | BlobK

  datatype Parse<+T> = Bad | Good(value: T, rest: seq<byte>)

  function KindOf(f: Field): Kind {
    match f
    case Flag(_) => FlagK
    case Num(_) => NumK
    case Text(_) => TextK
    case Blob(_) => BlobK
  }

  function Kinds(fs: seq<Field>): (ks: seq<Kind>)
    ensures |ks| == |fs|
  {
    seq(|fs|, i requires 0 <= i < |fs| => KindOf(fs[i]))
  }

  /** The length goes through static_cast<uint16_t> or <uint32_t>; the bytes are all copied. */
  function EncodeField(f: Field): seq<byte> {
    match f
    case Flag(on) => [if on then 1 else 0]
    case Num(v) => ToBE(v, 8)
    case Text(s) => ToBE(|s| % U16, 2) + s
    case Blob(d) => ToBE(|d| % U32, 4) + d
  }

  function Encode(fs: seq<Field>): seq<byte> {
    if fs == [] then [] else EncodeField(fs[0]) + Encode(fs[1..])
  }

  /** The fixed part of a field: what must be present before its length is known. */
  function HeadSize(k: Kind): nat {
    match k
    case FlagK => 1
    case NumK => 8
    case TextK => 2
    case BlobK => 4
  }

  function DecodeField(k: Kind, p: seq<byte>): Parse<Field> {
    var h := HeadSize(k);
    if |p| < h then Bad else
    match k
    case FlagK => Good(Flag(p[0] == 1), p[1..])
    case NumK => FromBEBounds(p[..8]); Good(Num(FromBE(p[..8])), p[8..])
    case TextK =>
      var n := FromBE(p[..2]);
      if |p| < 2 + n then Bad else Good(Text(p[2..2 + n]), p[2 + n..])
    case BlobK =>
      var n := FromBE(p[..4]);
      if |p| < 4 + n then Bad else Good(Blob(p[4..4 + n]), p[4 + n..])
  }

  function Decode(ks: seq<Kind>, p: seq<byte>): Parse<seq<Field>> {
    if ks == [] then Good([], p) else
    match DecodeField(ks[0], p)
    case Bad => Bad
    case Good(f, r) =>
      match Decode(ks[1..], r)
      case Bad => Bad
      case Good(fs, rest) => Good([f] + fs, rest)
  }

  /** A successful parse returns one field of each kind asked for, in order. */
  lemma {:induction false} DecodedKinds(ks: seq<Kind>, p: seq<byte>)
    requires Decode(ks, p).Good?
    ensures |Decode(ks, p).value| == |ks|
    ensures forall i | 0 <= i < |ks| :: KindOf(Decode(ks, p).value[i]) == ks[i]
  {
    if ks != [] {
      var d := DecodeField(ks[0], p);
      DecodedKinds(ks[1..], d.rest);
      assert KindOf(d.value) == ks[0];
      assert Decode(ks, p).value == [d.value] + Decode(ks[1..], d.rest).value;
    }
  }

  /** The length of the field survives its narrowing cast. */
  predicate Fits(f: Field) {
    match f
    case Text(s) => |s| < U16
    case Blob(d) => |d| < U32
    case _ => true
  }

  predicate AllFit(fs: seq<Field>) {
    fs == [] || (Fits(fs[0]) && AllFit(fs[1..]))
  }

  /** The bytes of each field on the wire: network order, and the length in front of a string or a chunk. */
  lemma FieldLayout(f: Field)
    ensures var e := EncodeField(f);
      match f
      case Flag(on) => e == [if on then 1 else 0]
      case Num(v) => |e| == 8 && FromBE(e) == v
      case Text(s) => |e| == 2 + |s| && e[0] == |s| % U16 / 256 && e[1] == |s| % 256 && e[2..] == s
      case Blob(d) => |e| == 4 + |d| && FromBE(e[..4]) == |d| % U32 && e[4..] == d
  {
    match f
    case Flag(_) =>
    case Num(v) => Widths(); FromBEOfToBE(v, 8);
    case Text(s) => TwoBytes(|s| % U16);
    case Blob(d) =>
      Widths();
      FromBEOfToBE(|d| % U32, 4);
      assert EncodeField(f)[..4] == ToBE(|d| % U32, 4);
  }

  lemma TwoBytes(n: nat)
    requires n < U16
    ensures ToBE(n, 2) == [n / 256, n % 256]
  {
    assert ToBE(n / 256, 1) == ToBE(n / 256 / 256, 0) + [n / 256 % 256];
  }

  /** A big-endian number at the head of a payload is read back. */
  lemma HeadNumber(v: nat, width: nat, tail: seq<byte>)
    requires v < Pow256(width)
    ensures FromBE((ToBE(v, width) + tail)[..width]) == v
    ensures (ToBE(v, width) + tail)[width..] == tail
  {
    hide ToBE, FromBE, Pow256;
    FromBEOfToBE(v, width);
    assert (ToBE(v, width) + tail)[..width] == ToBE(v, width);
  }

  lemma TextRoundTrip(s: Str, tail: seq<byte>)
    ensures var d := DecodeField(TextK, EncodeField(Text(s)) + tail);
      if |s| < U16 then d == Good(Text(s), tail) else d.Good? && d.value != Text(s)
  {
    hide ToBE, FromBE, Pow256;
    Widths();
    var n := |s| % U16;
    var e := EncodeField(Text(s)) + tail;
    HeadNumber(n, 2, s + tail);
    assert e == ToBE(n, 2) + (s + tail);
    assert e[2..] == s + tail;
    assert e[2..2 + n] == s[..n];
    if |s| < U16 {
      assert s[..n] == s && e[2 + n..] == tail;
    } else {
      assert |s[..n]| < |s|;
    }
  }

  lemma BlobRoundTrip(d: seq<byte>, tail: seq<byte>)
    ensures var r := DecodeField(BlobK, EncodeField(Blob(d)) + tail);
      if |d| < U32 then r == Good(Blob(d), tail) else r.Good? && r.value != Blob(d)
  {
    hide ToBE, FromBE, Pow256;
    Widths();
    var n := |d| % U32;
    var e := EncodeField(Blob(d)) + tail;
    HeadNumber(n, 4, d + tail);
    assert e == ToBE(n, 4) + (d + tail);
    assert e[4..] == d + tail;
    assert e[4..4 + n] == d[..n];
    if |d| < U32 {
      assert d[..n] == d && e[4 + n..] == tail;
    } else {
      assert |d[..n]| < |d|;
    }
  }

  lemma FieldRoundTrip(f: Field, tail: seq<byte>)
    ensures var d := DecodeField(KindOf(f), EncodeField(f) + tail);
      if Fits(f) then d == Good(f, tail) else d.Good? && d.value != f
  {
    hide ToBE, FromBE, Pow256;
    match f
    case Flag(_) => assert (EncodeField(f) + tail)[1..] == tail;
    case Num(v) => Widths(); HeadNumber(v, 8, tail);
    case Text(s) => TextRoundTrip(s, tail);
    case Blob(d) => BlobRoundTrip(d, tail);
  }

  /**
   * parse(build(x)) = x, with anything behind it left over, exactly when every string
   * is under 2^16 bytes and every chunk under 2^32.
   */
  lemma {:induction false} RoundTripExactlyWhenItFits(fs: seq<Field>, tail: seq<byte>)
    ensures Decode(Kinds(fs), Encode(fs) + tail) == Good(fs, tail) <==> AllFit(fs)
  {
    if fs == [] {
      assert [] + tail == tail;
    } else {
      var tail' := Encode(fs[1..]) + tail;
      assert Encode(fs) + tail == EncodeField(fs[0]) + tail';
      assert Kinds(fs)[1..] == Kinds(fs[1..]);
      FieldRoundTrip(fs[0], tail');
      RoundTripExactlyWhenItFits(fs[1..], tail);
      var rec := Decode(Kinds(fs[1..]), tail');
      if Fits(fs[0]) && rec.Good? {
        assert ([fs[0]] + rec.value)[1..] == rec.value;
        assert [fs[0]] + fs[1..] == fs;
      }
    }
  }

  /** Every flag byte that the parse looks at is 0 or 1. */
  predicate FlagsBinary(ks: seq<Kind>, p: seq<byte>) {
    ks == [] ||
    match DecodeField(ks[0], p)
    case Bad => true
    case Good(_, r) => (ks[0].FlagK? ==> p[0] <= 1) && FlagsBinary(ks[1..], r)
  }

  /** A length-prefixed run of bytes, read and written again. */
  lemma PrefixedRebuild(p: seq<byte>, h: nat, n: nat)
    requires h <= |p| && n == FromBE(p[..h]) && h + n <= |p|
    ensures n < Pow256(h)
    ensures |p[h..h + n]| == n && (ToBE(n, h) + p[h..h + n]) + p[h + n..] == p
  {
    hide ToBE, FromBE, Pow256;
    ToBEOfFromBE(p[..h]);
    assert p == p[..h] + p[h..h + n] + p[h + n..];
  }

  /** What one field read from p is, and what writing it again gives. */
  ghost predicate Rewrites(f: Field, rest: seq<byte>, p: seq<byte>) {
    && Fits(f)
    && |EncodeField(f)| + |rest| == |p|
    && rest == p[|p| - |rest|..]
    && (EncodeField(f) + rest == p <==> (f.Flag? ==> p != [] && p[0] <= 1))
  }

  lemma FlagRebuild(p: seq<byte>)
    requires p != []
    ensures Rewrites(Flag(p[0] == 1), p[1..], p)
  {
    assert p == [p[0]] + p[1..];
  }

  lemma NumRebuild(p: seq<byte>)
    requires |p| >= 8
    ensures FromBE(p[..8]) < U64 && Rewrites(Num(FromBE(p[..8])), p[8..], p)
  {
    FromBEBounds(p[..8]);
    ToBEOfFromBE(p[..8]);
    assert p == p[..8] + p[8..];
  }

  lemma TextRebuild(p: seq<byte>, n: nat)
    requires |p| >= 2 && n == FromBE(p[..2]) && 2 + n <= |p|
    ensures Rewrites(Text(p[2..2 + n]), p[2 + n..], p)
  {
    hide ToBE, FromBE, Pow256;
    Widths();
    PrefixedRebuild(p, 2, n);
  }

  lemma BlobRebuild(p: seq<byte>, n: nat)
    requires |p| >= 4 && n == FromBE(p[..4]) && 4 + n <= |p|
    ensures Rewrites(Blob(p[4..4 + n]), p[4 + n..], p)
  {
    hide ToBE, FromBE, Pow256;
    Widths();
    PrefixedRebuild(p, 4, n);
  }

  lemma FieldRebuild(k: Kind, p: seq<byte>)
    requires DecodeField(k, p).Good?
    ensures Rewrites(DecodeField(k, p).value, DecodeField(k, p).rest, p)
    ensures KindOf(DecodeField(k, p).value) == k
  {
    hide Rewrites;
    match k
    case FlagK => FlagRebuild(p);
    case NumK => NumRebuild(p);
    case TextK => TextRebuild(p, FromBE(p[..2]));
    case BlobK => BlobRebuild(p, FromBE(p[..4]));
  }

  /**
   * For an arbitrary payload: what a successful parse returned always fits, and
   * building it again gives back the bytes it consumed exactly when every flag byte was 0 or 1.
   */
  lemma {:induction false} RebuildGivesPrefix(ks: seq<Kind>, p: seq<byte>)
    requires Decode(ks, p).Good?
    ensures AllFit(Decode(ks, p).value)
    ensures |Encode(Decode(ks, p).value)| + |Decode(ks, p).rest| == |p|
    ensures Encode(Decode(ks, p).value) + Decode(ks, p).rest == p <==> FlagsBinary(ks, p)
  {
    if ks == [] {
      assert Encode([]) + p == p;
    } else {
      var f := DecodeField(ks[0], p);
      var inner := Decode(ks[1..], f.rest);
      var fs := [f.value] + inner.value;
      assert Decode(ks, p) == Good(fs, inner.rest);
      assert Encode(fs) == EncodeField(f.value) + Encode(inner.value)
          && AllFit(fs) == (Fits(f.value) && AllFit(inner.value)) by {
        assert fs[0] == f.value && fs[1..] == inner.value;
      }
      FieldRebuild(ks[0], p);
      RebuildGivesPrefix(ks[1..], f.rest);
      SplitConcat(EncodeField(f.value), Encode(inner.value), inner.rest, f.rest, p);
    }
  }

  /** Writing a then b then r gives p exactly when both halves are rewritten faithfully. */
  lemma SplitConcat(a: seq<byte>, b: seq<byte>, r: seq<byte>, c: seq<byte>, p: seq<byte>)
    requires |a| + |c| == |p| && |b| + |r| == |c| && c == p[|a|..]
    ensures (a + b) + r == p <==> a + c == p && b + r == c
  {
    assert (a + b) + r == a + (b + r);
    if a + (b + r) == p {
      assert b + r == (a + (b + r))[|a|..];
    }
  }

  // ---- facts used by builders and parsers ----

  lemma {:induction false} EncodeSnoc(fs: seq<Field>, f: Field)
    ensures Encode(fs + [f]) == Encode(fs) + EncodeField(f)
  {
    if fs == [] {
      assert Encode([f]) == EncodeField(f) + Encode([f][1..]);
    } else {
      assert (fs + [f])[1..] == fs[1..] + [f];
      EncodeSnoc(fs[1..], f);
    }
  }

  lemma EncodeSnocText(fs: seq<Field>, s: Str)
    ensures Encode(fs + [Text(s)]) == Encode(fs) + ToBE(|s| % U16, 2) + s
  {
    EncodeSnoc(fs, Text(s));
    Associate(Encode(fs), ToBE(|s| % U16, 2), s);
  }

  lemma EncodeSnocBlob(fs: seq<Field>, d: seq<byte>)
    ensures Encode(fs + [Blob(d)]) == Encode(fs) + ToBE(|d| % U32, 4) + d
  {
    EncodeSnoc(fs, Blob(d));
    Associate(Encode(fs), ToBE(|d| % U32, 4), d);
  }

  function MinSize(ks: seq<Kind>): nat {
    if ks == [] then 0 else HeadSize(ks[0]) + MinSize(ks[1..])
  }

  lemma {:induction false} ShortPayloadIsBad(ks: seq<Kind>, p: seq<byte>)
    requires |p| < MinSize(ks)
    ensures Decode(ks, p).Bad?
  {
    var f := DecodeField(ks[0], p);
    if f.Good? {
      ShortPayloadIsBad(ks[1..], f.rest);
    }
  }

  /** The parser has read fields fs and stands at offset off. */
  predicate Reached(ks: seq<Kind>, p: seq<byte>, fs: seq<Field>, off: nat) {
    && |fs| <= |ks| && off <= |p|
    && Decode(ks, p) == match Decode(ks[|fs|..], p[off..])
                        case Bad => Bad
                        case Good(more, rest) => Good(fs + more, rest)
  }

  lemma Start(ks: seq<Kind>, p: seq<byte>)
    ensures Reached(ks, p, [], 0)
  {
    assert ks[0..] == ks && p[0..] == p;
    var d := Decode(ks, p);
    if d.Good? { assert [] + d.value == d.value; }
  }

  lemma Advance(ks: seq<Kind>, p: seq<byte>, fs: seq<Field>, off: nat, f: Field, next: nat)
    requires Reached(ks, p, fs, off) && |fs| < |ks| && off <= next <= |p|
    requires DecodeField(ks[|fs|], p[off..]) == Good(f, p[next..])
    ensures Reached(ks, p, fs + [f], next)
  {
    var tail := ks[|fs|..];
    assert tail[0] == ks[|fs|] && tail[1..] == ks[|fs| + 1..];
    var d := Decode(tail[1..], p[next..]);
    if d.Good? {
      assert Decode(tail, p[off..]) == Good([f] + d.value, d.rest);
      assert fs + ([f] + d.value) == (fs + [f]) + d.value;
    }
  }

  lemma Stuck(ks: seq<Kind>, p: seq<byte>, fs: seq<Field>, off: nat)
    requires Reached(ks, p, fs, off) && |fs| < |ks|
    requires DecodeField(ks[|fs|], p[off..]).Bad? || |p| - off < MinSize(ks[|fs|..])
    ensures Decode(ks, p).Bad?
  {
    if |p| - off < MinSize(ks[|fs|..]) {
      ShortPayloadIsBad(ks[|fs|..], p[off..]);
    }
  }

  /** DecodeField of a length-prefixed field at an offset, by positions in the whole payload. */
  lemma DecodeAt(k: Kind, p: seq<byte>, pos: nat, h: nat)
    requires (k == TextK && h == 2) || (k == BlobK && h == 4)
    requires pos + h <= |p|
    ensures var n := FromBE(p[pos..pos + h]);
      var at := pos + h;
      if at + n <= |p| then
        DecodeField(k, p[pos..]) == Good(if k == TextK then Text(p[at..at + n]) else Blob(p[at..at + n]), p[at + n..])
      else DecodeField(k, p[pos..]).Bad?
  {
    hide FromBE;
    SliceOfTail(p, pos, 0, h);
    var n := FromBE(p[pos..pos + h]);
    if pos + h + n <= |p| {
      SliceOfTail(p, pos, h, h + n);
    }
  }

  lemma ParsedAll(ks: seq<Kind>, p: seq<byte>, done: seq<Field>, fs: seq<Field>, off: nat)
    requires Reached(ks, p, done, off) && |done| == |ks| && done == fs
    ensures Decode(ks, p) == Good(fs, p[off..])
  {
    assert ks[|fs|..] == [];
    assert fs + [] == fs;
  }

  lemma MinSizeCons(k: Kind, ks: seq<Kind>, all: seq<Kind>)
    requires all == [k] + ks
    ensures MinSize(all) == HeadSize(k) + MinSize(ks)
  {
    assert all[1..] == ks;
  }

  lemma MinSizes()
    ensures MinSize([NumK, NumK, TextK, TextK, TextK]) == 22
    ensures MinSize([NumK, NumK, TextK, TextK]) == 20
    ensures MinSize([NumK, NumK, BlobK]) == 20
    ensures MinSize([FlagK, NumK, TextK]) == 11
  {
    hide MinSize;
    MinSizeOne();
    MinSizeCons(TextK, [TextK], [TextK, TextK]);
    MinSizeCons(TextK, [TextK, TextK], [TextK, TextK, TextK]);
    MinSizeCons(NumK, [TextK, TextK], [NumK, TextK, TextK]);
    MinSizeCons(NumK, [NumK, TextK, TextK], [NumK, NumK, TextK, TextK]);
    MinSizeCons(NumK, [TextK, TextK, TextK], [NumK, TextK, TextK, TextK]);
    MinSizeCons(NumK, [NumK, TextK, TextK, TextK], [NumK, NumK, TextK, TextK, TextK]);
    MinSizeCons(NumK, [BlobK], [NumK, BlobK]);
    MinSizeCons(NumK, [NumK, BlobK], [NumK, NumK, BlobK]);
    MinSizeCons(NumK, [TextK], [NumK, TextK]);
    MinSizeCons(FlagK, [NumK, TextK], [FlagK, NumK, TextK]);
  }

  lemma MinSizeOne()
    ensures MinSize([TextK]) == 2 && MinSize([BlobK]) == 4
  {
    assert [TextK][1..] == [] && [BlobK][1..] == [];
  }

  // ---- total access to decoded fields ----

  function TextAt(fs: seq<Field>, i: nat): Str {
    if i < |fs| && fs[i].Text? then fs[i].s else []
  }

  function NumAt(fs: seq<Field>, i: nat): uint64 {
    if i < |fs| && fs[i].Num? then fs[i].v else 0
  }

  function BlobAt(fs: seq<Field>, i: nat): seq<byte> {
    if i < |fs| && fs[i].Blob? then fs[i].d else []
  }

  function FlagAt(fs: seq<Field>, i: nat): bool {
    i < |fs| && fs[i].Flag? && fs[i].on
  }

  /** A packet whose payload is the given fields. */
  function Message(ptype: uint32, fs: seq<Field>): Packet {
    Packet(ptype, |Encode(fs)|, Encode(fs))
  }
}
