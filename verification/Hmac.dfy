/** HMAC of sctp_auth.c: over a flat text, over a chain of segments, and with a stored key. */
module Hmac {
  import opened Common
  import opened Keys

  const HMAC_ID_RSVD := 0
  const HMAC_ID_SHA1 := 1
  const HMAC_ID_SHA256 := 3

  const BLOCK_LEN := 64

  type Sha1Digest = s: seq<byte> | |s| == 20 witness seq(20, _ => 0)
  type Sha256Digest = s: seq<byte> | |s| == 32 witness seq(32, _ => 0)

  /** SCTP_SUPPORT_HMAC_SHA256, which the repository tests and nowhere defines: it builds with SHA-1 alone. */
  datatype Build = Sha1Only | WithSha256

  /** The hash functions: any functions with digests of the right length. */
  datatype Hash = Hash(build: Build, sha1: seq<byte> -> Sha1Digest, sha256: seq<byte> -> Sha256Digest)

  /** `sctp_get_hmac_digest_len`: 0 for an algorithm that the build does not have. */
  function DigestLen(build: Build, algo: nat): nat {
    if algo == HMAC_ID_SHA1 then 20
    else if algo == HMAC_ID_SHA256 && build.WithSha256? then 32
    else 0
  }

  predicate Known(build: Build, algo: nat) { DigestLen(build, algo) > 0 }

  function Digest(hash: Hash, algo: nat, s: seq<byte>): (d: seq<byte>)
    requires Known(hash.build, algo)
    ensures |d| == DigestLen(hash.build, algo)
  {
    if algo == HMAC_ID_SHA1 then hash.sha1(s) else hash.sha256(s)
  }

  // ------------------------------------------------ the specification, RFC 2104

  /** Exclusive or of the lowest `n` bits. */
  function XorBits(a: nat, b: nat, n: nat): nat {
    if n == 0 then 0 else (if a % 2 == b % 2 then 0 else 1) + 2 * XorBits(a / 2, b / 2, n - 1)
  }

  function Xor(a: byte, b: byte): (r: byte) {
    XorFits(a, b, 8);
    XorBits(a, b, 8)
  }

  lemma {:induction false} XorFits(a: nat, b: nat, n: nat)
    ensures XorBits(a, b, n) < Pow2(n)
    ensures Pow2(8) == 256
  {
    if n > 0 {
      XorFits(a / 2, b / 2, n - 1);
    }
  }

  lemma {:induction false} XorTwice(a: nat, b: nat, n: nat)
    requires a < Pow2(n)
    ensures XorBits(XorBits(a, b, n), b, n) == a
  {
    if n > 0 {
      assert XorBits(a, b, n) / 2 == XorBits(a / 2, b / 2, n - 1);
      XorTwice(a / 2, b / 2, n - 1);
    }
  }

  lemma {:induction false} XorZero(b: nat, n: nat)
    requires b < Pow2(n)
    ensures XorBits(0, b, n) == b
  {
    if n > 0 {
      XorZero(b / 2, n - 1);
    }
  }

  /** Different bytes stay different under the same mask. */
  lemma {:induction false} XorInjective(a: byte, b: byte, mask: byte)
    requires Xor(a, mask) == Xor(b, mask)
    ensures a == b
  {
    XorFits(a, mask, 8);
    XorTwice(a, mask, 8);
    XorTwice(b, mask, 8);
  }

  /** A key longer than a block is replaced by its digest. */
  function Shrunk(hash: Hash, algo: nat, key: seq<byte>): (k: seq<byte>)
    requires Known(hash.build, algo)
    ensures |k| <= BLOCK_LEN
  {
    if |key| > BLOCK_LEN then Digest(hash, algo, key) else key
  }

  function Pad(key: seq<byte>, mask: byte): (p: seq<byte>)
    requires |key| <= BLOCK_LEN
    ensures |p| == BLOCK_LEN
  {
    seq(BLOCK_LEN, i requires 0 <= i => PadByte(key, mask, i))
  }

  function PadByte(key: seq<byte>, mask: byte, i: nat): byte {
    Xor(if i < |key| then key[i] else 0, mask)
  }

  /** H(K ^ opad, H(K ^ ipad, text)), section 2 of RFC 2104. */
  function Mac(hash: Hash, algo: nat, key: seq<byte>, text: seq<byte>): (d: seq<byte>)
    requires Known(hash.build, algo)
    ensures |d| == DigestLen(hash.build, algo)
  {
    var k := Shrunk(hash, algo, key);
    Digest(hash, algo, Pad(k, 0x5c) + Digest(hash, algo, Pad(k, 0x36) + text))
  }

  // ----------------------------------------------- the same, bit by bit

  function Bit(x: nat, k: nat): bool {
    if k == 0 then x % 2 == 1 else Bit(x / 2, k - 1)
  }

  lemma {:induction false} XorBit(a: nat, b: nat, n: nat, k: nat)
    requires k < n
    ensures Bit(XorBits(a, b, n), k) == (Bit(a, k) != Bit(b, k))
  {
    var x := XorBits(a, b, n);
    assert x / 2 == XorBits(a / 2, b / 2, n - 1);
    if k > 0 {
      XorBit(a / 2, b / 2, n - 1, k - 1);
    }
  }

  lemma {:induction false} BitsDetermine(a: nat, b: nat, n: nat)
    requires a < Pow2(n) && b < Pow2(n) && forall k: nat :: k < n ==> Bit(a, k) == Bit(b, k)
    ensures a == b
  {
    if n > 0 {
      assert Bit(a, 0) == Bit(b, 0);
      forall k: nat | k < n - 1 ensures Bit(a / 2, k) == Bit(b / 2, k) {
        assert Bit(a, k + 1) == Bit(b, k + 1);
      }
      BitsDetermine(a / 2, b / 2, n - 1);
    }
  }

  /** `x` has the bits of `y`, those of `mask` turned over. */
  predicate Flipped(x: byte, y: byte, mask: byte) {
    forall k: nat :: k < 8 ==> (Bit(x, k) <==> (Bit(y, k) != Bit(mask, k)))
  }

  function KeyByte(key: seq<byte>, j: nat): byte {
    if j < |key| then key[j] else 0
  }

  /** A block of 64 bytes: the key, zeros behind it, the bits of `mask` turned over in every byte. */
  ghost predicate IsPad(block: seq<byte>, key: seq<byte>, mask: byte) {
    |block| == 64 && forall j :: 0 <= j < 64 ==> Flipped(block[j], KeyByte(key, j), mask)
  }

  /** HMAC as section 2 of RFC 2104 words it; a key of more than 64 bytes counts as its digest. */
  ghost predicate IsHmac(hash: Hash, algo: nat, key: seq<byte>, text: seq<byte>, d: seq<byte>)
    requires Known(hash.build, algo)
  {
    var k := if |key| > 64 then Digest(hash, algo, key) else key;
    exists i, o :: IsPad(i, k, 0x36) && IsPad(o, k, 0x5c) && d == Digest(hash, algo, o + Digest(hash, algo, i + text))
  }

  /** There is exactly one such digest, and `Mac` is it. */
  lemma {:induction false} MacIsHmac(hash: Hash, algo: nat, key: seq<byte>, text: seq<byte>, d: seq<byte>)
    requires Known(hash.build, algo)
    ensures IsHmac(hash, algo, key, text, d) <==> d == Mac(hash, algo, key, text)
  {
    var k := Shrunk(hash, algo, key);
    PadExactly(k, 0x36);
    PadExactly(k, 0x5c);
    if d == Mac(hash, algo, key, text) {
      assert IsPad(Pad(k, 0x36), k, 0x36) && IsPad(Pad(k, 0x5c), k, 0x5c);
    }
  }

  lemma {:induction false} PadExactly(key: seq<byte>, mask: byte)
    requires |key| <= BLOCK_LEN
    ensures forall block :: IsPad(block, key, mask) <==> block == Pad(key, mask)
  {
    var p := Pad(key, mask);
    forall block ensures IsPad(block, key, mask) <==> block == p {
      forall j | |block| == 64 && 0 <= j < 64
        ensures Flipped(block[j], KeyByte(key, j), mask) <==> block[j] == p[j]
      {
        FlippedIsXor(block[j], KeyByte(key, j), mask);
      }
    }
  }

  lemma {:induction false} FlippedIsXor(x: byte, y: byte, mask: byte)
    ensures Flipped(x, y, mask) <==> x == Xor(y, mask)
  {
    XorFits(y, mask, 8);
    forall k: nat | k < 8 ensures Bit(Xor(y, mask), k) == (Bit(y, k) != Bit(mask, k)) {
      XorBit(y, mask, 8, k);
    }
    if Flipped(x, y, mask) {
      BitsDetermine(x, Xor(y, mask), 8);
    }
  }

  // --------------------------------------------------------------- the contexts

  /** A hash context: everything fed to it since Init. */
  datatype Context = Context(fed: seq<byte>)

  function Init(): Context { Context([]) }

  function Update(c: Context, s: seq<byte>): Context { Context(c.fed + s) }

  function Final(hash: Hash, algo: nat, c: Context): (d: seq<byte>)
    requires Known(hash.build, algo)
    ensures |d| == DigestLen(hash.build, algo)
  {
    Digest(hash, algo, c.fed)
  }

  /** The pads: zeroed blocks, the key copied in, every byte xor-ed in place. */
  method Pads(key: seq<byte>) returns (ipad: array<byte>, opad: array<byte>)
    requires |key| <= BLOCK_LEN
    ensures fresh(ipad) && fresh(opad)
    ensures ipad[..] == Pad(key, 0x36) && opad[..] == Pad(key, 0x5c)
  {
    ipad := new byte[BLOCK_LEN](_ => 0);
    opad := new byte[BLOCK_LEN](_ => 0);
    for i := 0 to |key|
      invariant forall j :: 0 <= j < BLOCK_LEN ==> ipad[j] == opad[j] == if j < i then key[j] else 0
    {
      ipad[i], opad[i] := key[i], key[i];
    }
    XorAll(ipad, key, 0x36);
    XorAll(opad, key, 0x5c);
  }

  /** Xor every byte of a padded key with `mask`, in place. */
  method XorAll(pad: array<byte>, ghost key: seq<byte>, mask: byte)
    requires pad.Length == BLOCK_LEN && |key| <= BLOCK_LEN
    requires forall j :: 0 <= j < BLOCK_LEN ==> pad[j] == if j < |key| then key[j] else 0
    modifies pad
    ensures pad[..] == Pad(key, mask)
  {
    for i := 0 to BLOCK_LEN
      invariant forall j :: i <= j < BLOCK_LEN ==> pad[j] == if j < |key| then key[j] else 0
      invariant forall j :: 0 <= j < i ==> pad[j] == PadByte(key, mask, j)
    {
      pad[i] := Xor(pad[i], mask);
    }
  }

  // ------------------------------------------------------------- flat text

  /** `sctp_hmac` answers a digest unless the key, the text or the algorithm is missing. */
  function FlatResult(hash: Hash, algo: nat, key: seq<byte>, text: seq<byte>): Option<seq<byte>> {
    if key == [] || text == [] || !Known(hash.build, algo) then None else Some(Mac(hash, algo, key, text))
  }

  /** `sctp_hmac` */
  method HmacFlat(hash: Hash, algo: nat, key0: seq<byte>, text: seq<byte>) returns (r: Option<seq<byte>>)
    ensures r == FlatResult(hash, algo, key0, text)
    ensures r.Some? <==> key0 != [] && text != [] && Known(hash.build, algo)
    ensures r.Some? ==> IsHmac(hash, algo, key0, text, r.value)
  {
    var key := key0;
    if |key| == 0 || |text| == 0 {
      return None;
    }
    var digestlen := DigestLen(hash.build, algo);
    if digestlen == 0 {
      return None;
    }
    if |key| > BLOCK_LEN {
      key := Final(hash, algo, Update(Init(), key));
      assert [] + key0 == key0;
    }
    var ipad, opad := Pads(key);
    var ctx := Update(Init(), ipad[..]);
    ctx := Update(ctx, text);
    var temp := Final(hash, algo, ctx);
    ctx := Update(Init(), opad[..]);
    ctx := Update(ctx, temp);
    r := Some(Final(hash, algo, ctx));
    assert [] + ipad[..] == Pad(key, 0x36) && [] + opad[..] == Pad(key, 0x5c);
    MacIsHmac(hash, algo, key0, text, r.value);
  }

  // -------------------------------------------------------- text in segments

  /** A chain of mbufs, seen as the bytes of each; the empty chain is the null pointer. */
  type Chain = seq<seq<byte>>

  function Flat(chain: Chain): seq<byte> {
    if chain == [] then [] else chain[0] + Flat(chain[1..])
  }

  lemma {:induction false} FlatAppend(a: Chain, b: Chain)
    ensures Flat(a + b) == Flat(a) + Flat(b)
  {
    if a == [] {
      assert a + b == b;
    } else {
      assert (a + b)[1..] == a[1..] + b;
      FlatAppend(a[1..], b);
    }
  }

  /** A chain cut before its k-th segment, and at it. */
  lemma {:induction false} FlatFrom(chain: Chain, k: nat)
    requires k <= |chain|
    ensures Flat(chain) == Flat(chain[..k]) + Flat(chain[k..])
    ensures k < |chain| ==> Flat(chain[k..]) == chain[k] + Flat(chain[k + 1..])
  {
    assert chain == chain[..k] + chain[k..];
    FlatAppend(chain[..k], chain[k..]);
    if k < |chain| {
      assert chain[k..][1..] == chain[k + 1..];
    }
  }

  /** No more is to be left off than the last segment has behind the offset, or there is no text anyway. */
  predicate TrailerFits(chain: Chain, offset: nat, trailer: nat) {
    || trailer == 0 || |Flat(chain)| <= offset
    || (offset + trailer <= |Flat(chain)| && chain != [] && trailer <= |chain[|chain| - 1]|)
  }

  /** The text `sctp_hmac_m` works on. */
  function Text(chain: Chain, offset: nat, trailer: nat): seq<byte>
    requires TrailerFits(chain, offset, trailer)
  {
    if offset < |Flat(chain)| then Flat(chain)[offset..|Flat(chain)| - trailer] else []
  }

  /** `sctp_hmac_m` has no test for an empty text. */
  function ChainResult(hash: Hash, algo: nat, key: seq<byte>, chain: Chain, offset: nat,
    trailer: nat): Option<seq<byte>>
    requires TrailerFits(chain, offset, trailer)
  {
    if key == [] || chain == [] || !Known(hash.build,
      algo) then None else Some(Mac(hash, algo, key, Text(chain, offset, trailer)))
  }

  /** `sctp_hmac_m`; `escaped` when the length left after the trailer is negative and memory behind is read. */
  method HmacChain(hash: Hash, algo: nat, key0: seq<byte>, chain: Chain, offset: nat, trailer: nat)
    returns (r: Option<seq<byte>>, escaped: bool)
    ensures escaped <==> key0 != [] && chain != [] && Known(hash.build, algo) && !TrailerFits(chain, offset, trailer)
    ensures TrailerFits(chain, offset, trailer) ==> r == ChainResult(hash, algo, key0, chain, offset, trailer)
    ensures r.Some? <==> key0 != [] && chain != [] && Known(hash.build, algo) && TrailerFits(chain, offset, trailer)
    ensures r.Some? && |Flat(chain)| <= offset ==> IsHmac(hash, algo, key0, [], r.value)
    ensures r.Some? && offset < |Flat(chain)| ==>
      IsHmac(hash, algo, key0, Flat(chain)[offset..|Flat(chain)| - trailer], r.value)
  {
    var key := key0;
    if |key| == 0 || chain == [] {
      return None, false;
    }
    var digestlen := DigestLen(hash.build, algo);
    if digestlen == 0 {
      return None, false;
    }
    if |key| > BLOCK_LEN {
      key := Final(hash, algo, Update(Init(), key));
      assert [] + key0 == key0;
    }
    var ipad, opad := Pads(key);
    var ctx := Update(Init(), ipad[..]);
    ctx, escaped := FeedChain(ctx, chain, offset, trailer);
    if escaped {
      return None, true;
    }
    var temp := Final(hash, algo, ctx);
    ctx := Update(Init(), opad[..]);
    ctx := Update(ctx, temp);
    r := Some(Final(hash, algo, ctx));
    assert [] + ipad[..] == Pad(key, 0x36) && [] + opad[..] == Pad(key, 0x5c);
    MacIsHmac(hash, algo, key0, Text(chain, offset, trailer), r.value);
  }

  /** The segment and the offset in it that lie `off` bytes behind the start of segment `k`. */
  function SeekFrom(chain: Chain, k: nat, off: nat): (r: (nat, nat))
    requires k <= |chain|
    ensures k <= r.0 <= |chain| && (r.0 < |chain| ==> r.1 < |chain[r.0]|)
    decreases |chain| - k
  {
    if k < |chain| && off >= |chain[k]| then SeekFrom(chain, k + 1, off - |chain[k]|) else (k, off)
  }

  /** The first loop of `sctp_hmac_m`: the segment where the text starts, and the offset in it. */
  method SeekText(chain: Chain, offset: nat) returns (k: nat, off: nat)
    ensures k <= |chain| && (k < |chain| <==> offset < |Flat(chain)|)
    ensures k < |chain| ==>
      off < |chain[k]| && off <= |Flat(chain[k..])| && Flat(chain)[offset..] == Flat(chain[k..])[off..]
    ensures k == |chain| - 1 ==> off + |Flat(chain)| - offset == |chain[k]|
    ensures k < |chain| ==> |Flat(chain[..k])| + off == offset
    ensures (k, off) == SeekFrom(chain, 0, offset)
  {
    k, off := 0, offset;
    assert Flat(chain[..0]) == [];
    while k < |chain| && off >= |chain[k]|
      invariant 0 <= k <= |chain| && |Flat(chain[..k])| + off == offset
      invariant SeekFrom(chain, k, off) == SeekFrom(chain, 0, offset)
    {
      FlatFrom(chain[..k + 1], k);
      assert chain[..k + 1][..k] == chain[..k] && chain[..k + 1][k..] == [chain[k]];
      assert Flat([chain[k]]) == chain[k];
      off := off - |chain[k]|;
      k := k + 1;
    }
    FlatFrom(chain, k);
    if k < |chain| {
      assert Flat(chain)[offset..] == Flat(chain[k..])[off..];
      assert k == |chain| - 1 ==> chain[k + 1..] == [];
    } else {
      assert chain[..k] == chain;
    }
  }

  /** The two loops of `sctp_hmac_m`: find the first segment, then feed the segments one by one. */
  method FeedChain(ctx0: Context, chain: Chain, offset: nat, trailer: nat) returns (ctx: Context, escaped: bool)
    ensures escaped <==> !TrailerFits(chain, offset, trailer)
    ensures !escaped ==> ctx.fed == ctx0.fed + Text(chain, offset, trailer)
  {
    ctx, escaped := ctx0, false;
    var k: nat, off: nat := SeekText(chain, offset);
    if k == |chain| {
      return;
    }
    ghost var flat := Flat(chain);
    TrailerAt(chain, offset, k, off, trailer);
    while k < |chain|
      invariant 0 <= k <= |chain| && (k < |chain| ==> off <= |chain[k]|)
      invariant off <= |Flat(chain[k..])|
      invariant k < |chain| ==>
        (TrailerFits(chain, offset, trailer) <==>
          trailer == 0 || LastOffset(chain, k, off) + trailer <= |chain[|chain| - 1]|)
      invariant k < |chain| ==> ctx.fed + Flat(chain[k..])[off..] == ctx0.fed + flat[offset..]
      invariant k == |chain| ==> off == 0 && TrailerFits(chain, offset, trailer)
      invariant k == |chain| ==> ctx.fed == ctx0.fed + Text(chain, offset, trailer)
    {
      FlatFrom(chain, k);
      ghost var fed := ctx.fed;
      if k + 1 == |chain| && trailer > 0 {
        if trailer + off > |chain[k]| {
          return ctx, true;
        }
        ctx := Update(ctx, chain[k][off..|chain[k]| - trailer]);
      } else {
        ctx := Update(ctx, chain[k][off..]);
      }
      Fed(fed, chain, k, off, ctx0.fed, offset, trailer, ctx.fed);
      off := 0;
      k := k + 1;
      assert Flat(chain[k..])[off..] == Flat(chain[k..]);
    }
  }

  /** Where the text starts in the last segment, seen from `off` in segment `k`. */
  function LastOffset(chain: Chain, k: nat, off: nat): nat {
    if k + 1 == |chain| then off else 0
  }

  lemma {:induction false} TrailerAt(chain: Chain, offset: nat, k: nat, off: nat, trailer: nat)
    requires k < |chain| && off < |chain[k]| && offset < |Flat(chain)| && |Flat(chain[..k])| + off == offset
    ensures TrailerFits(chain, offset, trailer) <==>
      trailer == 0 || LastOffset(chain, k, off) + trailer <= |chain[|chain| - 1]|
  {
    FlatFrom(chain, k);
    if k + 1 == |chain| {
      assert chain[k + 1..] == [];
    } else {
      FlatFrom(chain, |chain| - 1);
      assert chain[|chain| - 1..] == [chain[|chain| - 1]];
      LongerPrefix(chain, k, |chain| - 1);
    }
  }

  /** A segment lies before the end of every longer prefix. */
  lemma {:induction false} LongerPrefix(chain: Chain, k: nat, n: nat)
    requires k < n <= |chain|
    ensures |Flat(chain[..k])| + |chain[k]| <= |Flat(chain[..n])|
  {
    var p := chain[..n];
    FlatFrom(p, k);
    assert p[..k] == chain[..k] && p[k] == chain[k];
  }

  /** One segment fed: nothing skipped, nothing twice, the trailer left off the last one. */
  lemma {:induction false} Fed(fed: seq<byte>, chain: Chain, k: nat, off: nat, fed0: seq<byte>, offset: nat,
    trailer: nat, fed': seq<byte>)
    requires offset < |Flat(chain)| && k < |chain| && off <= |chain[k]| && off <= |Flat(chain[k..])|
    requires k == |chain| - 1 ==> off + trailer <= |chain[k]| && TrailerFits(chain, offset, trailer)
    requires fed + Flat(chain[k..])[off..] == fed0 + Flat(chain)[offset..]
    requires fed' == fed + chain[k][off..|chain[k]| - if k + 1 == |chain| then trailer else 0]
    ensures k + 1 < |chain| ==> fed' + Flat(chain[k + 1..]) == fed0 + Flat(chain)[offset..]
    ensures k + 1 == |chain| ==> fed' == fed0 + Text(chain, offset, trailer)
  {
    var flat, d, t := Flat(chain), chain[k], Flat(chain[k + 1..]);
    FlatFrom(chain, k);
    assert (d + t)[off..] == d[off..] + t;
    if k + 1 == |chain| {
      assert t == [];
      assert fed + d[off..] == fed0 + flat[offset..];
      var n := |fed + d[off..]| - trailer;
      assert fed' == (fed + d[off..])[..n];
      assert fed0 + flat[offset..|flat| - trailer] == (fed0 + flat[offset..])[..n];
    } else {
      assert (fed + d[off..]) + t == fed + (d[off..] + t);
    }
  }

  /** The chain form is the flat form on the concatenated bytes, exactly when there is a text. */
  lemma {:induction false} ChainRefinesFlat(hash: Hash, algo: nat, key: seq<byte>, chain: Chain, offset: nat)
    ensures
      ChainResult(hash, algo, key, chain, offset, 0) == FlatResult(hash, algo, key, Text(chain, offset, 0))
      <==> (Text(chain, offset, 0) != [] || key == [] || chain == [] || !Known(hash.build, algo))
  {
    if Text(chain, offset, 0) != [] {
      assert chain != [];
    }
  }

  /** Only the bytes count, not how they are cut into segments. */
  lemma {:induction false} SegmentationIrrelevant(hash: Hash, algo: nat, key: seq<byte>, a: Chain, b: Chain,
    offset: nat)
    requires Flat(a) == Flat(b) && Flat(a) != []
    ensures ChainResult(hash, algo, key, a, offset, 0) == ChainResult(hash, algo, key, b, offset, 0)
  {
    assert a != [] && b != [];
  }

  // ------------------------------------------------- a key overwritten in place

  /** `sctp_compute_hmac_m`: the key structure keeps the digest of an over-long key. */
  method ComputeHmacChain(hash: Hash, algo: nat, key: Key, chain: Chain, offset: nat)
    returns (r: Option<seq<byte>>, key': Key)
    ensures r == if key.None? then None else ChainResult(hash, algo, key.value, chain, offset, 0)
    ensures key' == if key.None? || chain == []
      || !Known(hash.build, algo) then key else Some(Shrunk(hash, algo, key.value))
  {
    key' := key;
    if key.None? || chain == [] {
      return None, key';
    }
    var digestlen := DigestLen(hash.build, algo);
    if digestlen == 0 {
      return None, key';
    }
    if |key.value| > BLOCK_LEN {
      key' := Some(Final(hash, algo, Update(Init(), key.value)));
      assert [] + key.value == key.value;
    }
    var escaped: bool;
    r, escaped := HmacChain(hash, algo, key'.value, chain, offset, 0);
  }

  /** `first` may have overwritten the key before `later` uses it, and no digest changes. */
  ghost predicate Harmless(build: Build, key: seq<byte>, first: nat, later: nat)
    requires Known(build, first) && Known(build, later)
  {
    forall hash: Hash, text: seq<byte> :: hash.build == build ==>
      Mac(hash, later, Shrunk(hash, first, key), text) == Mac(hash, later, key, text)
  }

  /**
   * Whatever the hash functions, that is so exactly for one algorithm or for a key of at most a
   * block. A build with SHA-1 alone has one algorithm.
   */
  lemma {:induction false} HarmlessExactly(build: Build, key: seq<byte>, first: nat, later: nat)
    requires Known(build, first) && Known(build, later)
    ensures Harmless(build, key, first, later) <==> first == later || |key| <= BLOCK_LEN
    ensures build.Sha1Only? ==> Harmless(build, key, first, later)
  {
    if first == later {
      forall hash: Hash, text: seq<byte> | hash.build == build
        ensures Mac(hash, later, Shrunk(hash, first, key), text) == Mac(hash, later, key, text)
      {
      }
    } else if |key| > BLOCK_LEN {
      MixedDigestsDiffer(key, first, later, []);
    }
  }

  /** Hash functions that tell the two keys apart. */
  function Telling(first: nat): (h: Hash)
    ensures h.build == WithSha256
  {
    var zero := seq(20, _ => 0);
    var zero' := seq(32, _ => 0);
    if first == HMAC_ID_SHA1 then
      Hash(WithSha256, _ => zero,
           (s: seq<byte>) => seq(32, _ => if |s| == BLOCK_LEN + 32 && s[0] == 0x5c then 1 else 2))
    else
      Hash(WithSha256, (s: seq<byte>) => seq(20, _ => if |s| == BLOCK_LEN + 20 && s[0] == 0x5c then 1 else 2),
           _ => zero')
  }

  /** Two algorithms on one over-long stored key: there are hash functions for which every digest is wrong. */
  lemma {:induction false} MixedDigestsDiffer(key: seq<byte>, first: nat, later: nat, text: seq<byte>)
    requires Known(WithSha256, first) && Known(WithSha256, later) && first != later && |key| > BLOCK_LEN
    ensures
      var hash := Telling(first);
      Mac(hash, later, Shrunk(hash, first, key), text) != Mac(hash, later, key, text)
  {
    var hash := Telling(first);
    var k0, k := Shrunk(hash, first, key), Shrunk(hash, later, key);
    assert k0[0] == 0 && k[0] in {1, 2};
    MaskedFirst(k0, k);
    assert Mac(hash, later, k0, text)[0] == 1;
    assert Mac(hash, later, key, text)[0] == 2;
  }

  /** `hash` gives every text another digest under `later` once `first` has overwritten the key. */
  ghost predicate TellsApart(hash: Hash, key: seq<byte>, first: nat, later: nat) {
    && Known(hash.build, first) && Known(hash.build, later)
    && forall text: seq<byte> :: Mac(hash, later, Shrunk(hash, first, key), text) != Mac(hash, later, key, text)
  }

  /** There are such hash functions exactly for two algorithms and a key of more than a block. */
  lemma {:induction false} TellingExactly(key: seq<byte>, first: nat, later: nat)
    requires Known(WithSha256, first) && Known(WithSha256, later)
    ensures (exists hash: Hash :: hash.build == WithSha256 && TellsApart(hash, key, first, later)) <==>
      first != later && |key| > BLOCK_LEN
  {
    if first != later && |key| > BLOCK_LEN {
      var hash := Telling(first);
      forall text: seq<byte> ensures Mac(hash, later, Shrunk(hash, first, key), text) != Mac(hash, later, key, text) {
        MixedDigestsDiffer(key, first, later, text);
      }
      assert TellsApart(hash, key, first, later);
    } else {
      forall hash: Hash | hash.build == WithSha256 ensures !TellsApart(hash, key, first, later) {
        assert Mac(hash, later, Shrunk(hash, first, key), []) == Mac(hash, later, key, []);
      }
    }
  }

  lemma {:induction false} MaskedFirst(k0: seq<byte>, k: seq<byte>)
    requires 0 < |k0| <= BLOCK_LEN && 0 < |k| <= BLOCK_LEN && k0[0] == 0 && k[0] != 0
    ensures Pad(k0, 0x5c)[0] == 0x5c && Pad(k, 0x5c)[0] != 0x5c
  {
    XorFits(0, 0x5c, 8);
    XorZero(0x5c, 8);
    if Xor(k[0], 0x5c) == 0x5c {
      XorInjective(k[0], 0, 0x5c);
    }
  }
}
