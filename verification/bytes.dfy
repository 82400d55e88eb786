/** Bytes, fixed-width integers and their big-endian (network order) form. */
module Bytes {
  const U16 := 0x1_0000
  const U32 := 0x1_0000_0000
  const U64 := 0x1_0000_0000_0000_0000

  type byte = x: int | 0 <= x < 256
  type uint16 = x: int | 0 <= x < U16
  type uint32 = x: int | 0 <= x < U32
  type uint64 = x: int | 0 <= x < U64

  /** A std::string: bytes, with no encoding attached. */
  type Str = seq<byte>

  datatype Option<+T> = None | Some(value: T)

  /** The bytes of an ASCII literal. */
  function Ascii(s: string): (r: Str)
    ensures |r| == |s|
  {
    seq(|s|, i requires 0 <= i < |s| => s[i] as int % 256)
  }

  function Pow256(width: nat): nat {
    if width == 0 then 1 else 256 * Pow256(width - 1)
  }

  /** htobe16/32/64 followed by a copy of the bytes. */
  function ToBE(v: nat, width: nat): (r: seq<byte>)
    ensures |r| == width
  {
    if width == 0 then [] else ToBE(v / 256, width - 1) + [v % 256]
  }

  /** A copy of the bytes followed by be16/32/64toh. */
  function FromBE(b: seq<byte>): nat {
    if b == [] then 0 else FromBE(b[..|b| - 1]) * 256 + b[|b| - 1]
  }

  lemma FromBESnoc(high: seq<byte>, low: byte)
    ensures FromBE(high + [low]) == FromBE(high) * 256 + low
  {
    assert (high + [low])[..|high|] == high;
  }

  lemma {:induction false} FromBEOfToBE(v: nat, width: nat)
    requires v < Pow256(width)
    ensures FromBE(ToBE(v, width)) == v
  {
    if width == 0 {
    } else {
      FromBEOfToBE(v / 256, width - 1);
      var high := ToBE(v / 256, width - 1);
      assert ToBE(v, width) == high + [v % 256];
      FromBESnoc(high, v % 256);
    }
  }

  lemma {:induction false} ToBEOfFromBE(b: seq<byte>)
    ensures FromBE(b) < Pow256(|b|)
    ensures ToBE(FromBE(b), |b|) == b
  {
    if b == [] {
    } else {
      ToBEOfFromBE(b[..|b| - 1]);
      assert FromBE(b) / 256 == FromBE(b[..|b| - 1]);
      assert b == b[..|b| - 1] + [b[|b| - 1]];
    }
  }

  lemma Widths()
    ensures Pow256(1) == 256 && Pow256(2) == U16 && Pow256(4) == U32 && Pow256(8) == U64
  {
    assert Pow256(3) == 256 * Pow256(2);
    assert Pow256(6) == 256 * Pow256(5);
    assert Pow256(7) == 256 * Pow256(6);
  }

  /** Decoding any prefix of the right width stays inside the width. */
  lemma FromBEBounds(b: seq<byte>)
    ensures |b| == 2 ==> FromBE(b) < U16
    ensures |b| == 4 ==> FromBE(b) < U32
    ensures |b| == 8 ==> FromBE(b) < U64
  {
    ToBEOfFromBE(b);
    Widths();
  }

  /** static_cast<uint32_t> of a size. */
  function Narrow32(n: nat): (r: uint32)
    ensures r == n <==> n < U32
  {
    n % U32
  }

  function Min(a: int, b: int): int {
    if a < b then a else b
  }

  lemma Associate<T>(a: seq<T>, b: seq<T>, c: seq<T>)
    ensures a + (b + c) == a + b + c
  {
  }

  lemma SliceOfTail<T>(p: seq<T>, pos: nat, i: nat, j: nat)
    requires i <= j && pos + j <= |p|
    ensures p[pos..][i..j] == p[pos + i..pos + j] && p[pos..][j..] == p[pos + j..]
  {
  }

  lemma Between<T>(a: T, mid: seq<T>, e: T)
    ensures var all := [a] + mid + [e];
      |all| == |mid| + 2 && all[0] == a && all[|mid| + 1] == e && forall k | 0 <= k < |mid| :: all[k + 1] == mid[k]
  {
  }

  lemma Uncons<T>(s: seq<T>, t: seq<T>)
    requires s != []
    ensures [s[0]] + (s[1..] + t) == s + t
  {
  }

  /** Concatenation of a list of byte strings. */
  function Concat(chunks: seq<seq<byte>>): seq<byte> {
    if chunks == [] then [] else chunks[0] + Concat(chunks[1..])
  }

  lemma {:induction false} ConcatSnoc(chunks: seq<seq<byte>>, last: seq<byte>)
    ensures Concat(chunks + [last]) == Concat(chunks) + last
  {
    if chunks == [] {
      assert Concat([last]) == last;
    } else {
      assert (chunks + [last])[1..] == chunks[1..] + [last];
      ConcatSnoc(chunks[1..], last);
    }
  }
}
