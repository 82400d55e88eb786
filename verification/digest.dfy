/** The digest context of EVP and the hex form of its result (common/hash.cpp). */
module Digest {
  import opened Bytes

  const BLOCK := 65536

  /** EVP_DigestInit/Update/Final on an opaque context; SHA-256 itself stays a parameter. */
  datatype Hasher = Hasher(
    init: seq<byte>,
    update: (seq<byte>, seq<byte>) -> seq<byte>,
    final: seq<byte> -> seq<byte>
  )

  ghost predicate UpdateLaw(h: Hasher, ctx: seq<byte>, a: seq<byte>, b: seq<byte>) {
    h.update(h.update(ctx, a), b) == h.update(ctx, a + b)
  }

  ghost predicate NothingLaw(h: Hasher, ctx: seq<byte>) {
    h.update(ctx, []) == ctx && |h.final(ctx)| == 32
  }

  /** What a streaming 32-byte digest promises: absorbing a then b is absorbing a + b. */
  ghost predicate Streaming(h: Hasher) {
    (forall ctx, a, b :: UpdateLaw(h, ctx, a, b)) && (forall ctx :: NothingLaw(h, ctx))
  }

  function Absorb(h: Hasher, content: seq<byte>): seq<byte> {
    h.update(h.init, content)
  }

  function Sha256Hex(h: Hasher, content: seq<byte>): Str {
    Hex(h.final(Absorb(h, content)))
  }

  function Fold(h: Hasher, ctx: seq<byte>, chunks: seq<seq<byte>>): seq<byte>
    decreases |chunks|
  {
    if chunks == [] then ctx else Fold(h, h.update(ctx, chunks[0]), chunks[1..])
  }

  /** Updating chunk by chunk is updating once with the whole, however it was cut. */
  lemma {:induction false} FoldIsAbsorb(h: Hasher, ctx: seq<byte>, chunks: seq<seq<byte>>)
    requires Streaming(h)
    ensures Fold(h, ctx, chunks) == h.update(ctx, Concat(chunks))
    decreases |chunks|
  {
    if chunks == [] {
      assert NothingLaw(h, ctx);
    } else {
      assert UpdateLaw(h, ctx, chunks[0], Concat(chunks[1..]));
      FoldIsAbsorb(h, h.update(ctx, chunks[0]), chunks[1..]);
    }
  }

  lemma DigestIgnoresChunking(h: Hasher, xs: seq<seq<byte>>, ys: seq<seq<byte>>)
    requires Streaming(h) && Concat(xs) == Concat(ys)
    ensures Hex(h.final(Fold(h, h.init, xs))) == Hex(h.final(Fold(h, h.init, ys))) == Sha256Hex(h, Concat(xs))
  {
    FoldIsAbsorb(h, h.init, xs);
    FoldIsAbsorb(h, h.init, ys);
  }

  // ---- hex ----

  function HexDigit(n: nat): byte
    requires n < 16
  {
    if n < 10 then 48 + n else 87 + n
  }

  function Hex(bs: seq<byte>): (r: Str)
    ensures |r| == 2 * |bs|
  {
    if bs == [] then [] else [HexDigit(bs[0] / 16), HexDigit(bs[0] % 16)] + Hex(bs[1..])
  }

  lemma {:induction false} HexSnoc(bs: seq<byte>, b: byte)
    ensures Hex(bs + [b]) == Hex(bs) + [HexDigit(b / 16), HexDigit(b % 16)]
  {
    if bs == [] {
      assert Hex([b]) == [HexDigit(b / 16), HexDigit(b % 16)] + Hex([]);
    } else {
      assert (bs + [b])[1..] == bs[1..] + [b];
      HexSnoc(bs[1..], b);
    }
  }

  /** Two digits per byte: equal hex strings come from equal digests. */
  lemma {:induction false} HexInjective(a: seq<byte>, b: seq<byte>)
    requires Hex(a) == Hex(b)
    ensures a == b
  {
    assert |a| == |b|;
    if a == [] {
    } else {
      assert Hex(a)[0] == HexDigit(a[0] / 16) && Hex(a)[1] == HexDigit(a[0] % 16);
      assert Hex(b)[0] == HexDigit(b[0] / 16) && Hex(b)[1] == HexDigit(b[0] % 16);
      assert a[0] == b[0];
      assert Hex(a)[2..] == Hex(a[1..]) && Hex(b)[2..] == Hex(b[1..]);
      HexInjective(a[1..], b[1..]);
      assert a == [a[0]] + a[1..] && b == [b[0]] + b[1..];
    }
  }

  lemma DigitIs(n: nat)
    requires n < 16
    ensures HexDigit(n) == Ascii("0123456789abcdef")[n]
  {
  }

  lemma {:induction false} HexPairs(bs: seq<byte>, k: nat)
    requires k < |bs|
    ensures Hex(bs)[2 * k] == HexDigit(bs[k] / 16) && Hex(bs)[2 * k + 1] == HexDigit(bs[k] % 16)
  {
    if k > 0 {
      HexPairs(bs[1..], k - 1);
    }
  }

  /** The hex form, digit by digit: lower case, the high half of each byte first. */
  lemma HexDigits(bs: seq<byte>, k: nat)
    requires k < |bs|
    ensures var digits := Ascii("0123456789abcdef");
      Hex(bs)[2 * k] == digits[bs[k] / 16] && Hex(bs)[2 * k + 1] == digits[bs[k] % 16]
  {
    HexPairs(bs, k);
    DigitIs(bs[k] / 16);
    DigitIs(bs[k] % 16);
    hide Hex, HexDigit, Ascii;
  }

  /** A hex string never holds a NUL. */
  lemma {:induction false} HexHasNoNul(bs: seq<byte>)
    ensures 0 !in Hex(bs)
  {
    if bs != [] {
      HexHasNoNul(bs[1..]);
    }
  }

  method ToHex(hash: seq<byte>) returns (oss: Str)
    ensures oss == Hex(hash)
  {
    oss := [];
    for i := 0 to |hash|
      invariant oss == Hex(hash[..i])
    {
      HexSnoc(hash[..i], hash[i]);
      assert hash[..i + 1] == hash[..i] + [hash[i]];
      oss := oss + [HexDigit(hash[i] / 16), HexDigit(hash[i] % 16)];
    }
    assert hash[..|hash|] == hash;
  }

  /** sha256File: 64 KB reads until the stream runs dry; a short read ends it. */
  method Sha256File(h: Hasher, content: seq<byte>) returns (hex: Str)
    requires Streaming(h)
    ensures hex == Sha256Hex(h, content)
    ensures |hex| == 64
  {
    var ctx := h.init;
    var pos := 0;
    var good := true;
    assert content[..0] == [] && NothingLaw(h, ctx);
    while good
      invariant 0 <= pos <= |content|
      invariant ctx == h.update(h.init, content[..pos])
      invariant !good ==> pos == |content|
      decreases good, |content| - pos
    {
      var bytes := Min(BLOCK, |content| - pos);
      if bytes > 0 {
        assert UpdateLaw(h, h.init, content[..pos], content[pos..pos + bytes]);
        ctx := h.update(ctx, content[pos..pos + bytes]);
        assert content[..pos] + content[pos..pos + bytes] == content[..pos + bytes];
      }
      pos := pos + bytes;
      good := bytes == BLOCK;
    }
    assert content[..pos] == content && NothingLaw(h, ctx);
    hex := ToHex(h.final(ctx));
  }
}
