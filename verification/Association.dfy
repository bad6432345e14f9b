/**
 * Signing and verifying AUTH chunks on an association, in sctp_auth.c: the association key is
 * computed once and cached for each direction. The reference has no caches; an association with
 * caches gives the same packets and the same verdicts.
 */
module Association {
  import opened Common
  import opened Keys
  import opened Hmac
  import SharedKeys

  type KeyMap = map<nat, SharedKeys.SharedKey>

  /** What the handshake fixes. */
  datatype Config = Config(hash: Hash, random: Key, peerRandom: Key, localHmacs: seq<nat>, peerHmacId: nat)

  // ------------------------------------------------------------- the AUTH chunk

  /** Chunk header (type, flags, length), shared key id, HMAC id; then the digest. */
  const AUTH_HEADER := 8

  function Field(s: seq<byte>, at: nat): (x: nat)
    requires at + 2 <= |s|
    ensures x < 0x10000
  {
    s[at] as int * 256 + s[at + 1] as int
  }

  function Octets(x: nat): (s: seq<byte>)
    requires x < 0x10000
    ensures |s| == 2 && Field(s, 0) == x
  {
    [x / 256, x % 256]
  }

  function ChunkLen(s: seq<byte>, at: nat): nat
    requires at + AUTH_HEADER <= |s|
  {
    Field(s, at + 2)
  }

  function KeyId(s: seq<byte>, at: nat): nat
    requires at + AUTH_HEADER <= |s|
  {
    Field(s, at + 4)
  }

  function HmacId(s: seq<byte>, at: nat): nat
    requires at + AUTH_HEADER <= |s|
  {
    Field(s, at + 6)
  }

  function Zeros(n: nat): (z: seq<byte>)
    ensures |z| == n
  {
    seq(n, _ => 0)
  }

  /** The packet with the digest of its AUTH chunk zeroed. */
  function Blanked(s: seq<byte>, at: nat, dlen: nat): (r: seq<byte>)
    requires at + AUTH_HEADER + dlen <= |s|
    ensures |r| == |s|
  {
    Spliced(s, at + AUTH_HEADER, Zeros(dlen))
  }

  // -------------------------------------------------- the reference, without caches

  function KeyOf(keys: KeyMap, id: nat): Key {
    if id in keys then keys[id].key else None
  }

  /** The association key, concatenated afresh; none when there is nothing to concatenate. */
  function Fresh(c: Config, key: Key): Key {
    if KeyBytes(c.random) == [] && KeyBytes(c.peerRandom) == [] && KeyBytes(key) == [] then None
    else Some(HashKey(KeyBytes(c.random), KeyBytes(c.peerRandom), KeyBytes(key)))
  }

  /** The digest that belongs into the AUTH chunk at `at`. */
  function AuthDigest(hash: Hash, algo: nat, key: Key, s: seq<byte>, at: nat): (d: Option<seq<byte>>)
    requires at + AUTH_HEADER + DigestLen(hash.build, algo) <= |s|
    ensures d.Some? ==> |d.value| == DigestLen(hash.build, algo)
  {
    if key.None? || key.value == [] || !Known(hash.build, algo) then None
    else Some(Mac(hash, algo, key.value, Blanked(s, at, DigestLen(hash.build, algo))[at..]))
  }

  /** What a packet becomes when it is signed with `key`; without a key the digest is left zero. */
  function Signed(c: Config, key: Key, s: seq<byte>, at: nat, keyid: nat): (r: seq<byte>)
    requires at + AUTH_HEADER + DigestLen(c.hash.build, c.peerHmacId) <= |s| && keyid < 0x10000
    ensures |r| == |s|
  {
    var w := Spliced(s, at + 4, Octets(keyid));
    var d := AuthDigest(c.hash, c.peerHmacId, key, w, at);
    if d.Some? then Spliced(w, at + AUTH_HEADER, d.value) else Blanked(w, at, DigestLen(c.hash.build, c.peerHmacId))
  }

  /** The chunk is well enough formed for its digest to be looked at. */
  predicate Presentable(c: Config, keys: KeyMap, s: seq<byte>, at: nat)
    requires at + AUTH_HEADER <= |s|
  {
    && ChunkLen(s, at) >= AUTH_HEADER
    && HmacId(s, at) != HMAC_ID_RSVD && HmacId(s, at) in c.localHmacs
    && KeyId(s, at) in keys
    && ChunkLen(s, at) >= AUTH_HEADER + DigestLen(c.hash.build, HmacId(s, at))
  }

  /** The caller has seen the whole chunk, as long as it says it is. */
  predicate WholeChunk(s: seq<byte>, at: nat) {
    at + AUTH_HEADER <= |s| && at + ChunkLen(s, at) <= |s|
  }

  function DigestIn(s: seq<byte>, at: nat, dlen: nat): (d: seq<byte>)
    requires at + AUTH_HEADER + dlen <= |s|
    ensures |d| == dlen
  {
    s[at + AUTH_HEADER..at + AUTH_HEADER + dlen]
  }

  /** The packet is authentic: a known key id, a supported algorithm and the right digest. */
  predicate Authentic(c: Config, keys: KeyMap, s: seq<byte>, at: nat)
    requires WholeChunk(s, at)
  {
    && Presentable(c, keys, s, at)
    && var algo := HmacId(s, at);
       var d := AuthDigest(c.hash, algo, Fresh(c, keys[KeyId(s, at)].key), s, at);
       d == Some(DigestIn(s, at, DigestLen(c.hash.build, algo)))
  }

  /** The chunk with the digest behind its header zeroed, and all that follows it. */
  ghost predicate IsAuthText(s: seq<byte>, at: nat, dlen: nat, text: seq<byte>)
    requires at <= |s|
  {
    |text| == |s| - at && forall j :: 0 <= j < |text| ==> text[j] == if 8 <= j < 8 + dlen then 0 else s[at + j]
  }

  /**
   * The same in the words of section 6 of RFC 4895 and of RFC 2104, byte by byte: the fields are
   * big-endian, the key is the concatenation in order, the digest is the HMAC of the text.
   */
  ghost predicate AuthenticByRfc(c: Config, keys: KeyMap, s: seq<byte>, at: nat)
    requires at + 8 <= |s|
  {
    var chunklen: nat := s[at + 2] as int * 256 + s[at + 3] as int;
    var id: nat := s[at + 4] as int * 256 + s[at + 5] as int;
    var algo: nat := s[at + 6] as int * 256 + s[at + 7] as int;
    var dlen := DigestLen(c.hash.build, algo);
    && algo in c.localHmacs && algo in {1, 3} && id in keys && dlen > 0
    && 8 + dlen <= chunklen && at + chunklen <= |s|
    && DigestByRfc(c, keys[id].key, algo, s, at)
  }

  ghost predicate DigestByRfc(c: Config, shared: Key, algo: nat, s: seq<byte>, at: nat)
    requires Known(c.hash.build, algo) && at + 8 + DigestLen(c.hash.build, algo) <= |s|
  {
    var dlen := DigestLen(c.hash.build, algo);
    exists key, text ::
      && IsHashKey(KeyBytes(c.random), KeyBytes(c.peerRandom), KeyBytes(shared), key) && key != []
      && IsAuthText(s, at, dlen, text) && IsHmac(c.hash, algo, key, text, s[at + 8..at + 8 + dlen])
  }

  lemma {:induction false} DigestExactly(c: Config, shared: Key, algo: nat, s: seq<byte>, at: nat)
    requires Known(c.hash.build, algo) && at + 8 + DigestLen(c.hash.build, algo) <= |s|
    ensures DigestByRfc(c, shared, algo, s, at) <==>
      AuthDigest(c.hash, algo, Fresh(c, shared), s, at) == Some(DigestIn(s, at, DigestLen(c.hash.build, algo)))
  {
    var dlen := DigestLen(c.hash.build, algo);
    var key := HashKey(KeyBytes(c.random), KeyBytes(c.peerRandom), KeyBytes(shared));
    var text, d := Blanked(s, at, dlen)[at..], DigestIn(s, at, dlen);
    HashKeyShape(KeyBytes(c.random), KeyBytes(c.peerRandom), KeyBytes(shared));
    AuthTextExactly(s, at, dlen);
    MacIsHmac(c.hash, algo, key, text, d);
    NotEmpty(c, shared);
    assert IsHashKey(KeyBytes(c.random), KeyBytes(c.peerRandom), KeyBytes(shared), key)
      && IsAuthText(s, at, dlen, text);
  }

  lemma {:induction false} AuthenticExactly(c: Config, keys: KeyMap, s: seq<byte>, at: nat)
    requires WholeChunk(s, at)
    ensures Authentic(c, keys, s, at) <==> AuthenticByRfc(c, keys, s, at)
  {
    if Presentable(c, keys, s, at) && Known(c.hash.build, HmacId(s, at)) {
      DigestExactly(c, keys[KeyId(s, at)].key, HmacId(s, at), s, at);
    }
  }

  lemma {:induction false} AuthTextExactly(s: seq<byte>, at: nat, dlen: nat)
    requires at + AUTH_HEADER + dlen <= |s|
    ensures forall text :: IsAuthText(s, at, dlen, text) <==> text == Blanked(s, at, dlen)[at..]
  {
    var t := Blanked(s, at, dlen)[at..];
    SplicedParts(s, at + AUTH_HEADER, Zeros(dlen));
    forall j | 0 <= j < |t| ensures t[j] == if 8 <= j < 8 + dlen then 0 else s[at + j] {
      assert t[j] == Blanked(s, at, dlen)[at + j];
    }
    forall text ensures IsAuthText(s, at, dlen, text) <==> text == t {
      if IsAuthText(s, at, dlen, text) {
        assert forall j :: 0 <= j < |t| ==> text[j] == t[j];
      }
    }
  }

  /**
   * The verdict with whatever key is at hand: without one, for want of memory or of anything to
   * make one from, the digest is compared with what the stack holds, `junk`.
   */
  predicate Verdict(c: Config, keys: KeyMap, used: Key, s: seq<byte>, at: nat, junk: seq<byte>)
    requires WholeChunk(s, at) && |junk| == 32
  {
    && Presentable(c, keys, s, at)
    && var algo := HmacId(s, at);
       var dlen := DigestLen(c.hash.build, algo);
       var d := AuthDigest(c.hash, algo, used, s, at);
       DigestIn(s, at, dlen) == if d.Some? then d.value else junk[..dlen]
  }

  /** What the stack holds does not matter. */
  ghost predicate Decided(c: Config, keys: KeyMap, used: Key, s: seq<byte>, at: nat)
    requires WholeChunk(s, at)
  {
    forall junk: seq<byte>, junk': seq<byte> :: |junk| == 32 && |junk'| == 32 ==>
      (Verdict(c, keys, used, s, at, junk) <==> Verdict(c, keys, used, s, at, junk'))
  }

  /** A stack that happens to hold the digest of the packet. */
  function Lucky(s: seq<byte>, at: nat, dlen: nat): (junk: seq<byte>)
    requires at + AUTH_HEADER + dlen <= |s| && dlen <= 32
    ensures |junk| == 32 && junk[..dlen] == DigestIn(s, at, dlen)
  {
    DigestIn(s, at, dlen) + Zeros(32 - dlen)
  }

  /** A packet with a digest to be looked at is judged by its own content exactly if there is a key. */
  lemma {:induction false} DecidedExactly(c: Config, keys: KeyMap, used: Key, s: seq<byte>, at: nat)
    requires WholeChunk(s, at) && Presentable(c, keys, s, at)
    ensures Decided(c, keys, used, s, at) <==>
      !Known(c.hash.build, HmacId(s, at)) || (used.Some? && used.value != [])
  {
    if Known(c.hash.build, HmacId(s, at)) && (used.None? || used.value == []) {
      var dlen := DigestLen(c.hash.build, HmacId(s, at));
      var lucky := Lucky(s, at, dlen);
      var other := lucky[0 := if lucky[0] == 0 then 1 else 0];
      assert lucky[..dlen][0] != other[..dlen][0];
      assert Verdict(c, keys, used, s, at, lucky) && !Verdict(c, keys, used, s, at, other);
    }
  }

  /** The two ends of one association. */
  ghost predicate Mirrored(a: Config, b: Config) {
    && a.hash == b.hash
    && KeyBytes(a.random) == KeyBytes(b.peerRandom) && KeyBytes(a.peerRandom) == KeyBytes(b.random)
  }

  /** `sctp_add_auth_chunk` prepared the chunk for the negotiated algorithm. */
  predicate Prepared(c: Config, s: seq<byte>, at: nat) {
    && at + AUTH_HEADER + DigestLen(c.hash.build, c.peerHmacId) <= |s|
    && ChunkLen(s, at) == AUTH_HEADER + DigestLen(c.hash.build, c.peerHmacId) && HmacId(s, at) == c.peerHmacId
  }

  /** Whatever one end signs with a key both ends have, the other end finds authentic. */
  lemma {:induction false} SignThenVerify(a: Config, aKeys: KeyMap, b: Config, bKeys: KeyMap, s: seq<byte>, at: nat,
    keyid: nat)
    requires Mirrored(a, b) && Prepared(a, s, at) && keyid < 0x10000
    requires Known(a.hash.build, a.peerHmacId) && a.peerHmacId in b.localHmacs
    requires keyid in bKeys && KeyBytes(KeyOf(aKeys, keyid)) == KeyBytes(bKeys[keyid].key)
    requires Fresh(a, KeyOf(aKeys, keyid)).Some?
    ensures
      var r := Signed(a, Fresh(a, KeyOf(aKeys, keyid)), s, at, keyid);
      WholeChunk(r, at) && Authentic(b, bKeys, r, at)
  {
    var key := Fresh(a, KeyOf(aKeys, keyid));
    HashKeySymmetric(KeyBytes(a.random), KeyBytes(a.peerRandom), KeyBytes(bKeys[keyid].key));
    assert Fresh(b, bKeys[keyid].key) == key;
    NotEmpty(a, KeyOf(aKeys, keyid));
    SignedFields(a, key, s, at, keyid);
  }

  lemma {:induction false} NotEmpty(c: Config, key: Key)
    ensures Fresh(c, key).Some? ==> Fresh(c, key).value != []
  {
  }

  /** The signed packet says which key and algorithm it uses, and its digest is the one it should have. */
  lemma {:induction false} SignedFields(c: Config, key: Key, s: seq<byte>, at: nat, keyid: nat)
    requires Prepared(c, s, at) && keyid < 0x10000 && Known(c.hash.build, c.peerHmacId) && key.Some? && key.value != []
    ensures
      var r := Signed(c, key, s, at, keyid);
      && ChunkLen(r, at) == ChunkLen(s, at) && HmacId(r, at) == c.peerHmacId && KeyId(r, at) == keyid
      && Some(DigestIn(r, at, DigestLen(c.hash.build, c.peerHmacId))) == AuthDigest(c.hash, c.peerHmacId, key, r, at)
      && LeavesRest(s, r, at, DigestLen(c.hash.build, c.peerHmacId))
  {
    var w := Spliced(s, at + 4, Octets(keyid));
    var d := AuthDigest(c.hash, c.peerHmacId, key, w, at).value;
    SplicedParts(s, at + 4, Octets(keyid));
    SplicedParts(w, at + AUTH_HEADER, d);
    var r := Spliced(w, at + AUTH_HEADER, d);
    assert r[at + 4] == w[at + 4] == w[at + 4..at + 6][0] && r[at + 5] == w[at + 5] == w[at + 4..at + 6][1];
    SplicedTwice(w, at + AUTH_HEADER, d, Zeros(|d|));
  }

  /** Key id and digest apart, the packet is as it was. */
  ghost predicate LeavesRest(s: seq<byte>, r: seq<byte>, at: nat, dlen: nat) {
    |r| == |s| &&
    forall j :: 0 <= j < |s| && !(at + 4 <= j < at + 6) && !(at + 8 <= j < at + 8 + dlen) ==> r[j] == s[j]
  }

  /** Without a key the digest is zero. */
  lemma {:induction false} UnsignedFields(c: Config, s: seq<byte>, at: nat, keyid: nat)
    requires Prepared(c, s, at) && keyid < 0x10000
    ensures
      var r, dlen := Signed(c, None, s, at, keyid), DigestLen(c.hash.build, c.peerHmacId);
      && ChunkLen(r, at) == ChunkLen(s, at) && HmacId(r, at) == c.peerHmacId && KeyId(r, at) == keyid
      && (forall j :: 0 <= j < dlen ==> DigestIn(r, at, dlen)[j] == 0) && LeavesRest(s, r, at, dlen)
  {
    var w, dlen := Spliced(s, at + 4, Octets(keyid)), DigestLen(c.hash.build, c.peerHmacId);
    var r := Blanked(w, at, dlen);
    SplicedParts(s, at + 4, Octets(keyid));
    SplicedParts(w, at + AUTH_HEADER, Zeros(dlen));
    assert r[at + 4] == w[at + 4] == w[at + 4..at + 6][0] && r[at + 5] == w[at + 5] == w[at + 4..at + 6][1];
  }

  /** The later of two writes to the same place wins. */
  lemma {:induction false} SplicedTwice(s: seq<byte>, at: nat, x: seq<byte>, y: seq<byte>)
    requires |x| == |y| && at + |x| <= |s|
    ensures Spliced(Spliced(s, at, x), at, y) == Spliced(s, at, y)
  {
  }

  /** A deleted key id verifies nothing until it is inserted again. */
  lemma {:induction false} DeletedKeyVerifiesNothing(c: Config, before: SharedKeys.State, id: nat,
    ops: seq<SharedKeys.Op>, s: seq<byte>, at: nat)
    requires SharedKeys.Answer(before, SharedKeys.Delete(id)) == SharedKeys.Done
    requires forall op :: op in ops ==> !(op.Insert? && op.skey.keyid == id)
    requires WholeChunk(s, at) && KeyId(s, at) == id
    ensures
      var after := SharedKeys.Run(SharedKeys.Step(before, SharedKeys.Delete(id)).value, ops);
      after.Some? ==> !Authentic(c, after.value.keys, s, at)
  {
    SharedKeys.DeletedStaysAway(SharedKeys.Step(before, SharedKeys.Delete(id)).value, id, ops);
  }

  // ------------------------------------------------------------- the algorithm

  /** `r` is the first of the peer's choices that is supported here, 0 if there is none. */
  ghost predicate Negotiated(peer: seq<nat>, local: seq<nat>, r: nat) {
    if exists i :: 0 <= i < |peer| && peer[i] in local
    then exists i :: 0 <= i < |peer| && r == peer[i] && r in local && forall j :: 0 <= j < i ==> peer[j] !in local
    else r == HMAC_ID_RSVD
  }

  /** `sctp_negotiate_hmacid` */
  method NegotiateHmacId(peer: Option<seq<nat>>, local: Option<seq<nat>>) returns (r: nat)
    ensures peer.Some? && local.Some? ==> Negotiated(peer.value, local.value, r)
    ensures peer.None? || local.None? ==> r == HMAC_ID_RSVD
  {
    if local.None? || peer.None? {
      return HMAC_ID_RSVD;
    }
    var i := 0;
    while i < |peer.value|
      invariant 0 <= i <= |peer.value|
      invariant forall k :: 0 <= k < i ==> peer.value[k] !in local.value
    {
      var j := 0;
      while j < |local.value|
        invariant 0 <= j <= |local.value|
        invariant forall k :: 0 <= k < j ==> peer.value[i] != local.value[k]
      {
        if peer.value[i] == local.value[j] {
          return peer.value[i];
        }
        j := j + 1;
      }
      i := i + 1;
    }
    return HMAC_ID_RSVD;
  }

  /** `sctp_auth_is_supported_hmac` */
  method IsSupportedHmac(list: seq<nat>, id: nat) returns (r: bool)
    ensures r <==> id != HMAC_ID_RSVD && id in list
  {
    if id == HMAC_ID_RSVD {
      return false;
    }
    var i := 0;
    while i < |list|
      invariant 0 <= i <= |list| && forall k :: 0 <= k < i ==> list[k] != id
    {
      if list[i] == id {
        return true;
      }
      i := i + 1;
    }
    return false;
  }

  // ------------------------------------------------------------------ the packet

  /** Where the k-th segment starts. */
  function Base(chain: Chain, k: nat): nat
    requires k <= |chain|
  {
    |Flat(chain[..k])|
  }

  /** The range from `offset` starts a segment, or ends in the one where it starts. */
  ghost predicate ZeroFits(chain: Chain, offset: nat, size: nat) {
    forall k {:trigger Base(chain, k)} :: 0 <= k < |chain| && Base(chain, k) <= offset < Base(chain, k) + |chain[k]| ==>
      offset == Base(chain, k) || offset + size <= Base(chain, k) + |chain[k]|
  }

  lemma {:induction false} FlatPatched(chain: Chain, k: nat, off: nat, src: seq<byte>)
    requires k < |chain| && off + |src| <= |chain[k]|
    ensures Base(chain, k) + off + |src| <= |Flat(chain)|
    ensures Flat(chain[k := Spliced(chain[k], off, src)]) == Spliced(Flat(chain), Base(chain, k) + off, src)
  {
    var new_ := chain[k := Spliced(chain[k], off, src)];
    FlatFrom(chain, k);
    FlatFrom(new_, k);
    assert new_[..k] == chain[..k] && new_[k + 1..] == chain[k + 1..];
  }

  /** A packet: a chain of mbufs whose bytes are written in place. */
  class Packet {
    var chain: Chain

    constructor (c: Chain)
      ensures chain == c
    {
      chain := c;
    }

    /** `memset` or `memcpy` through a pointer into one mbuf. */
    method Poke(k: nat, off: nat, src: seq<byte>)
      requires k < |chain| && off + |src| <= |chain[k]|
      modifies this
      ensures chain == old(chain)[k := Spliced(old(chain[k]), off, src)]
      ensures old(Base(chain, k)) + off + |src| <= |old(Flat(chain))|
      ensures Flat(chain) == Spliced(old(Flat(chain)), old(Base(chain, k)) + off, src)
    {
      FlatPatched(chain, k, off, src);
      chain := chain[k := Spliced(chain[k], off, src)];
    }

    /** Write into the AUTH chunk. */
    method PokeAuth(at: nat, k: nat, off: nat, dlen: nat, i: nat, src: seq<byte>)
      requires AuthAt(chain, k, off, at, dlen) && i + |src| <= AUTH_HEADER + dlen
      modifies this
      ensures AuthAt(chain, k, off, at, dlen) && at + AUTH_HEADER + dlen <= |old(Flat(chain))|
      ensures Flat(chain) == Spliced(old(Flat(chain)), at + i, src)
    {
      NextBase(chain, k);
      ghost var j := old(Base(chain, k)) + (off + i);
      assert j == at + i;
      Poke(k, off + i, src);
      BaseStays(old(chain), chain, k);
    }

    /** Zero the digest of the AUTH chunk and write the key id into it. */
    method Blank(at: nat, k: nat, off: nat, keyid: nat, dlen: nat)
      requires AuthAt(chain, k, off, at, dlen) && keyid < 0x10000
      modifies this
      ensures at + AUTH_HEADER + dlen <= |old(Flat(chain))| && AuthAt(chain, k, off, at, dlen)
      ensures Flat(chain) == Blanked(Spliced(old(Flat(chain)), at + 4, Octets(keyid)), at, dlen)
    {
      ghost var s := Flat(chain);
      PokeAuth(at, k, off, dlen, AUTH_HEADER, Zeros(dlen));
      PokeAuth(at, k, off, dlen, 4, Octets(keyid));
    }

    /** Write a digest over the zeros. */
    method FillIn(at: nat, k: nat, off: nat, d: seq<byte>, ghost w: seq<byte>)
      requires AuthAt(chain, k, off, at, |d|) && at + AUTH_HEADER + |d| <= |w| && Flat(chain) == Blanked(w, at, |d|)
      modifies this
      ensures Flat(chain) == Spliced(w, at + AUTH_HEADER, d)
    {
      PokeAuth(at, k, off, |d|, AUTH_HEADER, d);
      SplicedTwice(w, at + AUTH_HEADER, Zeros(|d|), d);
    }

    /** `sctp_zero_m`; `escaped` when it writes past the end of an mbuf. */
    method Zero(offset: nat, size0: nat) returns (escaped: bool)
      modifies this
      ensures escaped <==> ZeroM(old(chain), offset, size0).None?
      ensures !escaped ==> ZeroM(old(chain), offset, size0) == Some(chain)
    {
      var k: nat, off: nat := SeekText(chain, offset);
      var size := size0;
      while k < |chain| && size > 0
        invariant 0 <= k <= |chain| && size >= 0
        invariant ZeroFrom(chain, k, off, size) == ZeroM(old(chain), offset, size0)
        decreases |chain| - k
      {
        var n := if size > |chain[k]| then |chain[k]| else size;
        if off + n > |chain[k]| {
          return true;
        }
        chain := chain[k := Spliced(chain[k], off, Zeros(n))];
        size := size - n;
        off := 0;
        k := k + 1;
      }
      return false;
    }
  }

  /**
   * The second loop of `sctp_zero_m`: how much goes into an mbuf is decided by its length, whatever
   * the offset. No chain comes out of a write past the end of an mbuf.
   */
  function ZeroFrom(chain: Chain, k: nat, off: nat, size: nat): Option<Chain>
    requires k <= |chain|
    decreases |chain| - k
  {
    if k == |chain| || size == 0 then Some(chain) else
    var n := if size > |chain[k]| then |chain[k]| else size;
    if off + n > |chain[k]| then None
    else ZeroFrom(chain[k := Spliced(chain[k], off, Zeros(n))], k + 1, 0, size - n)
  }

  function ZeroM(chain: Chain, offset: nat, size: nat): Option<Chain> {
    var (k, off) := SeekFrom(chain, 0, offset);
    ZeroFrom(chain, k, off, size)
  }

  /** Inside the chain, nothing is written out of bounds exactly when the range fits, and then the range is zeroed. */
  lemma {:induction false} ZeroExactly(chain: Chain, offset: nat, size: nat)
    requires offset + size <= |Flat(chain)|
    ensures ZeroM(chain, offset, size).Some? <==> ZeroFits(chain, offset, size)
    ensures ZeroM(chain, offset, size).Some? ==>
      var r := ZeroM(chain, offset, size).value;
      |r| == |chain| && Flat(r) == Spliced(Flat(chain), offset, Zeros(size))
  {
    var place := SeekFrom(chain, 0, offset);
    assert Base(chain, 0) == 0;
    SeekPlace(chain, 0, offset, offset);
    ZeroFromExactly(chain, offset, size, place.0, place.1);
  }

  lemma {:induction false} ZeroFromExactly(chain: Chain, offset: nat, size: nat, k: nat, off: nat)
    requires offset + size <= |Flat(chain)| && k <= |chain| && Base(chain, k) + off == offset
    requires if k < |chain| then off < |chain[k]| else |Flat(chain)| <= offset
    ensures ZeroFrom(chain, k, off, size).Some? <==> ZeroFits(chain, offset, size)
    ensures ZeroFrom(chain, k, off, size).Some? ==>
      var r := ZeroFrom(chain, k, off, size).value;
      |r| == |chain| && Flat(r) == Spliced(Flat(chain), offset, Zeros(size))
  {
    assert Flat(chain) == Spliced(Flat(chain), offset, Zeros(0));
    if k == |chain| {
      forall j | 0 <= j < |chain| ensures Base(chain, j) + |chain[j]| <= offset {
        LongerPrefix(chain, j, k);
      }
    } else {
      FitsHere(chain, offset, size, k, off);
      if ZeroFits(chain, offset, size) {
        ZeroFromZeroes(chain, Flat(chain), offset, k, off, 0, size);
      }
    }
  }

  /** A range that starts inside an mbuf and goes beyond it is written past its end. */
  lemma {:induction false} ZeroEscapes()
    ensures ZeroM([[1, 2], [3, 4]], 1, 2).None? && !ZeroFits([[1, 2], [3, 4]], 1, 2)
  {
    var chain: Chain := [[1, 2], [3, 4]];
    assert SeekFrom(chain, 0, 1) == (0, 1);
    assert chain[1..] == [[3, 4]] && chain[1..][1..] == [];
    assert Flat([[3, 4]]) == [3, 4] + Flat([]) && Flat(chain) == [1, 2] + Flat(chain[1..]);
    ZeroExactly(chain, 1, 2);
  }

  lemma {:induction false} SeekPlace(chain: Chain, k: nat, off: nat, offset: nat)
    requires k <= |chain| && Base(chain, k) + off == offset
    ensures
      var (j, o) := SeekFrom(chain, k, off);
      Base(chain, j) + o == offset && (j == |chain| ==> |Flat(chain)| <= offset)
    decreases |chain| - k
  {
    if k == |chain| {
      assert chain[..k] == chain;
    } else if off >= |chain[k]| {
      NextBase(chain, k);
      SeekPlace(chain, k + 1, off - |chain[k]|, offset);
    }
  }

  /** Only one segment holds the byte at `offset`. */
  lemma {:induction false} FitsHere(chain: Chain, offset: nat, size: nat, k: nat, off: nat)
    requires k < |chain| && off < |chain[k]| && Base(chain, k) + off == offset
    ensures ZeroFits(chain, offset, size) <==> off == 0 || off + size <= |chain[k]|
  {
    forall j | 0 <= j < |chain| && Base(chain, j) <= offset < Base(chain, j) + |chain[j]| ensures j == k {
      if j < k {
        LongerPrefix(chain, j, k);
      } else if k < j {
        LongerPrefix(chain, k, j);
      }
    }
  }

  lemma {:induction false} ZeroFromZeroes(chain: Chain, flat: seq<byte>, offset: nat, k: nat, off: nat, done: nat,
    size: nat)
    requires k <= |chain| && Zeroing(chain, flat, offset, k, off, done, size)
    ensures ZeroFrom(chain, k, off, size).Some?
    ensures
      var r := ZeroFrom(chain, k, off, size).value;
      |r| == |chain| && Flat(r) == Spliced(flat, offset, Zeros(done + size))
    decreases |chain| - k
  {
    if size > 0 {
      ZeroRoom(chain, flat, offset, k, off, done, size);
      var n := Min(size, |chain[k]|);
      var chain' := chain[k := Spliced(chain[k], off, Zeros(n))];
      ZeroStep(chain, chain', flat, offset, k, off, done, size, n);
      ZeroFromZeroes(chain', flat, offset, k + 1, 0, done + n, size - n);
    }
  }

  /** `done` bytes are zeroed, `size` are left, and the next is at `off` in segment `k`. */
  ghost predicate Zeroing(chain: Chain, flat: seq<byte>, offset: nat, k: nat, off: nat, done: nat, size: nat) {
    && offset + done + size <= |flat| && Flat(chain) == Spliced(flat, offset, Zeros(done))
    && (size > 0 ==> k < |chain| && Base(chain, k) + off == offset + done && (off == 0 || off + size <= |chain[k]|))
  }

  lemma {:induction false} ZeroRoom(chain: Chain, flat: seq<byte>, offset: nat, k: nat, off: nat, done: nat, size: nat)
    requires Zeroing(chain, flat, offset, k, off, done, size) && size > 0
    ensures off + Min(size, |chain[k]|) <= |chain[k]|
    ensures size > |chain[k]| ==> k + 1 < |chain|
  {
    NextBase(chain, k);
  }

  lemma {:induction false} ZeroStep(chain: Chain, chain': Chain, flat: seq<byte>, offset: nat, k: nat, off: nat,
    done: nat, size: nat, n: nat)
    requires Zeroing(chain, flat, offset, k, off, done, size) && size > 0 && off + n <= |chain[k]|
      && n == Min(size, |chain[k]|)
    requires chain' == chain[k := Spliced(chain[k], off, Zeros(n))]
    ensures Zeroing(chain', flat, offset, k + 1, 0, done + n, size - n) && |chain'[k]| == |chain[k]|
  {
    FlatPatched(chain, k, off, Zeros(n));
    ZeroMore(flat, offset, done, n);
    if size > n {
      NextBase(chain, k);
      NextBase(chain', k);
      assert chain'[..k] == chain[..k];
    }
  }

  /** Zeroing `n` more bytes right behind `m` zeroed ones. */
  lemma {:induction false} ZeroMore(s: seq<byte>, at: nat, m: nat, n: nat)
    requires at + m + n <= |s|
    ensures Spliced(Spliced(s, at, Zeros(m)), at + m, Zeros(n)) == Spliced(s, at, Zeros(m + n))
  {
  }

  lemma {:induction false} NextBase(chain: Chain, k: nat)
    requires k < |chain|
    ensures Base(chain, k + 1) == Base(chain, k) + |chain[k]|
    ensures Base(chain, k + 1) <= |Flat(chain)|
    ensures k + 1 == |chain| ==> Base(chain, k + 1) == |Flat(chain)|
  {
    FlatFrom(chain[..k + 1], k);
    assert chain[..k + 1][..k] == chain[..k] && chain[..k + 1][k..] == [chain[k]];
    assert Flat([chain[k]]) == chain[k];
    FlatFrom(chain, k + 1);
    assert k + 1 == |chain| ==> chain[..k + 1] == chain;
  }

  // --------------------------------------------------------------- the caches

  /** `k` is the key `whole`, or what an earlier digest under `algo` left of it. */
  predicate SameKey(hash: Hash, algo: nat, k: seq<byte>, whole: seq<byte>) {
    k == whole || (Known(hash.build, algo) && k == Shrunk(hash, algo, whole))
  }

  /** A cached key belongs to the key id it is cached under. */
  predicate CacheOk(c: Config, algo: nat, keys: KeyMap, cached: Key, id: nat) {
    cached.Some? ==>
      Fresh(c, KeyOf(keys, id)).Some? && SameKey(c.hash, algo, cached.value, Fresh(c, KeyOf(keys, id)).value)
  }

  /** The cached receive key belongs to a key that is there, and is what the first digest left of it. */
  predicate RecvOk(c: Config, first: nat, keys: KeyMap, cached: Key, id: nat) {
    cached.Some? ==>
      && id in keys && Fresh(c, KeyOf(keys, id)).Some?
      && cached.value == Left(c.hash, first, Fresh(c, KeyOf(keys, id)).value)
  }

  /** The digest over a chain with the AUTH chunk blanked, whichever form of the key is at hand. */
  lemma {:induction false} ChainDigest(hash: Hash, algo: nat, cached: Key, whole: Key, chain: Chain, s: seq<byte>,
    at: nat)
    requires at + AUTH_HEADER + DigestLen(hash.build, algo) <= |s| && Known(hash.build, algo) && chain != []
      && Flat(chain) == Blanked(s, at, DigestLen(hash.build, algo))
    requires cached.Some? ==> whole.Some? && SameKey(hash, algo, cached.value, whole.value)
    ensures cached.Some? ==> ChainResult(hash, algo, cached.value, chain, at, 0) == AuthDigest(hash, algo, whole, s, at)
    ensures cached.Some? ==> SameKey(hash, algo, Shrunk(hash, algo, cached.value), whole.value)
  {
    if cached.Some? {
      var flat := Flat(chain);
      assert Text(chain, at, 0) == flat[at..];
    }
  }

  /** With the key itself, cached or overwritten, the digest is the one of that very key. */
  lemma {:induction false} ActualDigest(hash: Hash, algo: nat, key: Key, chain: Chain, s: seq<byte>, at: nat)
    requires at + AUTH_HEADER + DigestLen(hash.build, algo) <= |s| && Known(hash.build, algo) && chain != []
    requires Flat(chain) == Blanked(s, at, DigestLen(hash.build, algo))
    ensures (if key.None? then None else ChainResult(hash, algo, key.value, chain, at, 0)) ==
      AuthDigest(hash, algo, key, s, at)
  {
    assert Text(chain, at, 0) == Flat(chain)[at..];
  }

  /** What the first digest, under `first`, left of a cached key; with no digest taken yet, the key itself. */
  function Left(hash: Hash, first: nat, whole: seq<byte>): (k: seq<byte>) {
    if Known(hash.build, first) then Shrunk(hash, first, whole) else whole
  }

  /** `algo` makes of a cached key what it would make of the whole key. */
  predicate Agreeable(build: Build, first: nat, algo: nat, whole: seq<byte>) {
    build.Sha1Only? || first == HMAC_ID_RSVD || first == algo || |whole| <= BLOCK_LEN
  }

  /** That is exactly when no digest differs, whatever the hash functions. */
  lemma {:induction false} AgreeableExactly(build: Build, first: nat, algo: nat, whole: seq<byte>)
    requires Known(build, algo) && (first == HMAC_ID_RSVD || Known(build, first))
    ensures Agreeable(build, first, algo, whole) <==>
      forall hash: Hash, text: seq<byte> :: hash.build == build ==>
        Mac(hash, algo, Left(hash, first, whole), text) == Mac(hash, algo, whole, text)
  {
    if Known(build, first) {
      HarmlessExactly(build, whole, first, algo);
      assert Harmless(build, whole, first, algo) <==>
        forall hash: Hash, text: seq<byte> :: hash.build == build ==>
          Mac(hash, algo, Left(hash, first, whole), text) == Mac(hash, algo, whole, text);
    }
  }

  /** Then the verdict with the cached key is the verdict with a fresh one. */
  lemma {:induction false} VerdictIsAuthentic(c: Config, keys: KeyMap, first: nat, s: seq<byte>, at: nat,
    junk: seq<byte>)
    requires WholeChunk(s, at) && |junk| == 32 && forall id :: id in c.localHmacs ==> Known(c.hash.build, id)
    requires Fresh(c, KeyOf(keys, KeyId(s, at))).Some? && (first == HMAC_ID_RSVD || Known(c.hash.build, first))
    requires Agreeable(c.hash.build, first, HmacId(s, at), KeyBytes(Fresh(c, KeyOf(keys, KeyId(s, at)))))
    ensures
      var used := Left(c.hash, first, KeyBytes(Fresh(c, KeyOf(keys, KeyId(s, at)))));
      Verdict(c, keys, Some(used), s, at, junk) <==> Authentic(c, keys, s, at)
  {
    NotEmpty(c, KeyOf(keys, KeyId(s, at)));
  }

  /**
   * When the cached key was overwritten by a digest under another algorithm, and the hash functions
   * tell the difference, every authentic packet is refused.
   */
  lemma {:induction false} SecondAlgorithmRefused(c: Config, keys: KeyMap, first: nat, s: seq<byte>, at: nat,
    junk: seq<byte>)
    requires WholeChunk(s, at) && |junk| == 32 && Authentic(c, keys, s, at)
    requires TellsApart(c.hash, KeyBytes(Fresh(c, KeyOf(keys, KeyId(s, at)))), first, HmacId(s, at))
    ensures !Verdict(c, keys, Some(Shrunk(c.hash, first, KeyBytes(Fresh(c, KeyOf(keys, KeyId(s, at)))))), s, at, junk)
  {
    var algo := HmacId(s, at);
    var whole := KeyBytes(Fresh(c, KeyOf(keys, KeyId(s, at))));
    var text := Blanked(s, at, DigestLen(c.hash.build, algo))[at..];
    assert Mac(c.hash, algo, Shrunk(c.hash, first, whole), text) != Mac(c.hash, algo, whole, text);
  }

  /** Counting references changes no key. */
  lemma {:induction false} CountsApart(s: SharedKeys.State, t: SharedKeys.State, keyid: nat, id: nat)
    requires t == s || (keyid in s.keys && exists n :: t == SharedKeys.Counted(s, keyid, n))
    ensures KeyOf(t.keys, id) == KeyOf(s.keys, id) && (id in t.keys <==> id in s.keys)
  {
  }

  /** Where the AUTH chunk lies: at `off` in segment `k`, `at` bytes into the packet. */
  predicate AuthAt(chain: Chain, k: nat, off: nat, at: nat, dlen: nat) {
    k < |chain| && off + AUTH_HEADER + dlen <= |chain[k]| && at == Base(chain, k) + off
  }

  /** The authentication state of an association. */
  class Tcb {
    const c: Config
    const store: SharedKeys.KeyStore
    var assocKey: Key
    var assocKeyid: nat
    var recvKey: Key
    var recvKeyid: nat
    /** The algorithm of the first digest taken with the cached receive key, 0 before that. */
    ghost var recvAlgo: nat

    ghost predicate Valid()
      reads this, store
    {
      && store.Valid()
      && (forall id :: id in c.localHmacs ==> Known(c.hash.build, id))
      && CacheOk(c, c.peerHmacId, store.S().keys, assocKey, assocKeyid)
      && (recvAlgo == HMAC_ID_RSVD || Known(c.hash.build, recvAlgo))
      && RecvOk(c, recvAlgo, store.S().keys, recvKey, recvKeyid)
    }

    constructor (c0: Config, keys: SharedKeys.KeyStore)
      requires keys.Valid() && forall id :: id in c0.localHmacs ==> Known(c0.hash.build, id)
      ensures Valid() && c == c0 && store == keys && assocKey == recvKey == None
    {
      c, store, recvAlgo := c0, keys, HMAC_ID_RSVD;
      assocKey, assocKeyid, recvKey, recvKeyid := None, 0, None, 0;
    }

    /** `sctp_clear_cachedkeys` */
    method ClearCachedKeys(keyid: nat)
      requires Valid()
      modifies this
      ensures Valid() && assocKeyid == old(assocKeyid) && recvKeyid == old(recvKeyid)
      ensures assocKey == if keyid == assocKeyid then None else old(assocKey)
      ensures recvKey == (if keyid == recvKeyid then None else old(recvKey)) && recvAlgo == old(recvAlgo)
    {
      if keyid == assocKeyid {
        assocKey := None;
      }
      if keyid == recvKeyid {
        recvKey := None;
      }
    }

    /** Setting a key by socket option: the caches are cleared, then the key is inserted. */
    method SetKey(skey: SharedKeys.SharedKey, memory: bool) returns (r: SharedKeys.Code)
      requires Valid()
      modifies this, store
      ensures Valid() && r == if memory then SharedKeys.Answer(old(store.S()),
        SharedKeys.Insert(skey)) else SharedKeys.ENOMEM
      ensures memory ==> SharedKeys.Step(old(store.S()), SharedKeys.Insert(skey)) == Some(store.S())
      ensures !memory ==> store.S() == old(store.S())
      ensures r == SharedKeys.Done ==> KeyOf(store.S().keys, skey.keyid) == skey.key
      ensures (skey.keyid == assocKeyid ==> assocKey.None?) && (skey.keyid == recvKeyid ==> recvKey.None?)
    {
      ClearCachedKeys(skey.keyid);
      if !memory {
        return SharedKeys.ENOMEM;
      }
      ghost var s := store.S();
      r := store.InsertSharedKey(Some(skey));
    }

    /** `sctp_delete_sharedkey`: the caches are cleared once the key is gone. */
    method DeleteKey(keyid: nat) returns (r: SharedKeys.Code)
      requires Valid()
      modifies this, store
      ensures Valid() && r == SharedKeys.Answer(old(store.S()), SharedKeys.Delete(keyid))
      ensures SharedKeys.Step(old(store.S()), SharedKeys.Delete(keyid)) == Some(store.S())
    {
      ghost var s := store.S();
      r := store.DeleteSharedKey(keyid);
      if r == SharedKeys.Done {
        if keyid == assocKeyid {
          assocKey := None;
        }
        if keyid == recvKeyid {
          recvKey := None;
        }
      }
    }

    /** `sctp_auth_setactivekey` and `sctp_deact_sharedkey` leave the caches alone. */
    method ActivateOrDeactivate(keyid: nat, activate: bool) returns (r: SharedKeys.Code)
      requires Valid()
      modifies this, store
      ensures Valid() && assocKey == old(assocKey) && recvKey == old(recvKey)
      ensures
        var op := if activate then SharedKeys.SetActive(keyid) else SharedKeys.Deactivate(keyid);
        r == SharedKeys.Answer(old(store.S()), op) && SharedKeys.Step(old(store.S()), op) == Some(store.S())
    {
      ghost var s := store.S();
      ghost var op := if activate then SharedKeys.SetActive(keyid) else SharedKeys.Deactivate(keyid);
      if activate {
        r := store.SetActiveKey(keyid);
      } else {
        r := store.DeactivateKey(keyid);
      }
    }

    /** `sctp_auth_key_acquire` and `sctp_auth_key_release` leave the caches alone; `freed` as for the list. */
    method AcquireOrRelease(keyid: nat, acquire: bool) returns (freed: bool)
      requires Valid()
      modifies this, store
      ensures Valid() && assocKey == old(assocKey) && recvKey == old(recvKey)
      ensures
        var op := if acquire then SharedKeys.Acquire(keyid) else SharedKeys.Release(keyid);
        && (freed <==> SharedKeys.FreesListed(old(store.S()), op))
        && (!freed ==> SharedKeys.Step(old(store.S()), op) == Some(store.S()))
    {
      freed := false;
      ghost var s := store.S();
      if acquire {
        store.AcquireKey(keyid);
      } else {
        freed := store.ReleaseKey(keyid);
      }
      CountsApart(s, store.S(), keyid, assocKeyid);
      CountsApart(s, store.S(), keyid, recvKeyid);
    }

    /** The first half of `sctp_fill_hmac_digest_m`: have the key for `keyid` cached, if it can be had. */
    method CacheSendKey(keyid: nat, memory: bool)
      requires Valid()
      modifies this
      ensures Valid() && assocKeyid == keyid && recvKey == old(recvKey) && recvKeyid == old(recvKeyid)
      ensures assocKey.Some? <==>
        (old(assocKeyid == keyid && assocKey.Some?) || (memory && Fresh(c, KeyOf(store.S().keys, keyid)).Some?))
    {
      if keyid != assocKeyid || assocKey.None? {
        var at := store.Find(keyid);
        var key := if at.Some? then store.list[at.value].key else None;
        assocKey := ComputeHashKey(c.random, c.peerRandom, key, memory);
        assocKeyid := keyid;
      }
    }

    /** The digest to send, from the cached key. */
    method SendDigest(chain: Chain, at: nat, ghost w: seq<byte>) returns (d: Option<seq<byte>>)
      requires Valid() && at + AUTH_HEADER + DigestLen(c.hash.build, c.peerHmacId) <= |w| && chain != []
      requires Flat(chain) == Blanked(w, at, DigestLen(c.hash.build, c.peerHmacId))
      modifies this
      ensures Valid() && assocKeyid == old(assocKeyid)
      ensures d == AuthDigest(c.hash, c.peerHmacId,
        if old(assocKey).Some? then Fresh(c, KeyOf(store.S().keys, assocKeyid)) else None, w, at)
    {
      ghost var whole := Fresh(c, KeyOf(store.S().keys, assocKeyid));
      if Known(c.hash.build, c.peerHmacId) {
        ChainDigest(c.hash, c.peerHmacId, assocKey, whole, chain, w, at);
      }
      d, assocKey := ComputeHmacChain(c.hash, c.peerHmacId, assocKey, chain, at);
    }

    /**
     * `sctp_fill_hmac_digest_m`: the packet is what signing with a freshly concatenated key makes
     * of it; only without memory for a key that is not cached is it left unsigned.
     */
    method FillHmacDigest(m: Packet, at: nat, k: nat, off: nat, keyid: nat, memory: bool)
      requires Valid() && AuthAt(m.chain, k, off, at, DigestLen(c.hash.build, c.peerHmacId)) && keyid < 0x10000
      modifies this, m
      ensures Valid() && store.S() == old(store.S())
      ensures at + AUTH_HEADER + DigestLen(c.hash.build, c.peerHmacId) <= |old(Flat(m.chain))|
      ensures
        var key := if memory || old(assocKeyid == keyid
          && assocKey.Some?) then Fresh(c, KeyOf(store.S().keys, keyid)) else None;
        Flat(m.chain) == Signed(c, key, old(Flat(m.chain)), at, keyid)
    {
      ghost var s := Flat(m.chain);
      m.Blank(at, k, off, keyid, DigestLen(c.hash.build, c.peerHmacId));
      ghost var w := Spliced(s, at + 4, Octets(keyid));
      CacheSendKey(keyid, memory);
      ghost var key := if assocKey.Some? then Fresh(c, KeyOf(store.S().keys, keyid)) else None;
      var d := SendDigest(m.chain, at, w);
      assert d == AuthDigest(c.hash, c.peerHmacId, key, w, at);
      if d.Some? {
        m.FillIn(at, k, off, d.value, w);
      }
    }

    /** The receive key for `keyid` is cached. */
    predicate Cached(keyid: nat)
      reads this
    {
      recvKeyid == keyid && recvKey.Some?
    }

    /** The algorithm that has used the cached key for `keyid` first, 0 if none has. */
    ghost function FirstAlgo(keyid: nat): nat
      reads this
    {
      if Cached(keyid) then recvAlgo else HMAC_ID_RSVD
    }

    /** The key that a packet with this key id is judged with. */
    ghost function UsedKey(keyid: nat, memory: bool): Key
      reads this, store
    {
      if Cached(keyid) then recvKey else if memory then Fresh(c, KeyOf(store.S().keys, keyid)) else None
    }

    /** The key part of `sctp_handle_auth`; an unknown key id is not found. */
    method CacheRecvKey(keyid: nat, memory: bool) returns (found: bool)
      requires Valid()
      modifies this
      ensures Valid() && (found <==> keyid in store.S().keys)
      ensures found ==> recvKeyid == keyid && recvKey == old(UsedKey(keyid, memory))
    {
      if recvKey.None? || recvKeyid != keyid {
        var at := store.Find(keyid);
        if at.None? {
          return false;
        }
        recvKey := ComputeHashKey(c.random, c.peerRandom, store.list[at.value].key, memory);
        recvKeyid := keyid;
        recvAlgo := HMAC_ID_RSVD;
      }
      return true;
    }

    /** The digest to compare with, from the cached key. */
    method RecvDigest(chain: Chain, at: nat, algo: nat, ghost s: seq<byte>) returns (d: Option<seq<byte>>)
      requires Valid() && Known(c.hash.build, algo) && at + AUTH_HEADER + DigestLen(c.hash.build, algo) <= |s|
        && chain != []
      requires Flat(chain) == Blanked(s, at, DigestLen(c.hash.build, algo))
      modifies this
      ensures Valid() && recvKeyid == old(recvKeyid)
      ensures d == AuthDigest(c.hash, algo, old(recvKey), s, at)
      ensures recvKey == if old(recvKey).None? then None else Some(Shrunk(c.hash, algo, old(recvKey).value))
    {
      ActualDigest(c.hash, algo, recvKey, chain, s, at);
      ghost var whole := KeyBytes(Fresh(c, KeyOf(store.S().keys, recvKeyid)));
      if recvAlgo == HMAC_ID_RSVD {
        recvAlgo := algo;
      }
      d, recvKey := ComputeHmacChain(c.hash, algo, recvKey, chain, at);
    }

    /**
     * `sctp_handle_auth`: 0 for exactly the authentic packets, unless the cached key was overwritten
     * under another algorithm. There is no answer when the digest is zeroed past the end of an mbuf.
     */
    method HandleAuth(m: Packet, at: nat, memory: bool, junk: seq<byte>) returns (r: Option<int>)
      requires Valid() && WholeChunk(Flat(m.chain), at) && |junk| == 32
      modifies this, m
      ensures Valid() && store.S() == old(store.S()) && (r.Some? ==> r.value in {0, -1})
      ensures
        var s, keys := old(Flat(m.chain)), store.S().keys;
        var id, algo := KeyId(s, at), HmacId(s, at);
        var used, whole := old(UsedKey(id, memory)), Fresh(c, KeyOf(keys, id));
        && (r.None? <==>
              Presentable(c, keys, s, at) && !ZeroFits(old(m.chain), at + AUTH_HEADER, DigestLen(c.hash.build, algo)))
        && (r.Some? ==> (r.value == 0 <==> Verdict(c, keys, used, s, at, junk)))
        && (r.Some? && used.Some? && Agreeable(c.hash.build, old(FirstAlgo(id)), algo, KeyBytes(whole)) ==>
              (r.value == 0 <==> Authentic(c, keys, s, at)))
        && (r.Some? && Presentable(c, keys, s, at) && used.Some? ==>
              recvKeyid == id && recvKey == Some(Shrunk(c.hash, algo, used.value)))
    {
      var s := Flat(m.chain);
      JudgedRight(s, at, memory, junk);
      var admitted := Admit(s, at, memory);
      if admitted {
        r := Judge(m, at, junk);
      } else {
        r := Some(-1);
      }
    }

    /** The tests before the digest, and the key for it. */
    method Admit(s: seq<byte>, at: nat, memory: bool) returns (admitted: bool)
      requires Valid() && WholeChunk(s, at)
      modifies this
      ensures Valid() && (admitted <==> Presentable(c, store.S().keys, s, at))
      ensures admitted ==> recvKeyid == KeyId(s, at) && recvKey == old(UsedKey(KeyId(s, at), memory))
    {
      var chunklen := ChunkLen(s, at);
      if chunklen < AUTH_HEADER {
        return false;
      }
      var supported := IsSupportedHmac(c.localHmacs, HmacId(s, at));
      if !supported {
        return false;
      }
      var found := CacheRecvKey(KeyId(s, at), memory);
      return found && chunklen >= AUTH_HEADER + DigestLen(c.hash.build, HmacId(s, at));
    }

    /** Save the digest, zero it in the packet, compute it again and compare. */
    method Judge(m: Packet, at: nat, junk: seq<byte>) returns (r: Option<int>)
      requires Valid() && WholeChunk(Flat(m.chain), at) && |junk| == 32
        && Presentable(c, store.S().keys, Flat(m.chain), at)
      modifies this, m
      ensures Valid() && (r.Some? ==> r.value in {0, -1}) && recvKeyid == old(recvKeyid)
      ensures
        var s := old(Flat(m.chain));
        && (r.None? <==> !ZeroFits(old(m.chain), at + AUTH_HEADER, DigestLen(c.hash.build, HmacId(s, at))))
        && (r.Some? ==> (r.value == 0 <==> Verdict(c, store.S().keys, old(recvKey), s, at, junk)))
        && (r.Some? && old(recvKey).Some? ==> recvKey == Some(Shrunk(c.hash, HmacId(s, at), old(recvKey).value)))
    {
      var s := Flat(m.chain);
      var algo := HmacId(s, at);
      var dlen := DigestLen(c.hash.build, algo);
      var digest := DigestIn(s, at, dlen);
      ZeroExactly(m.chain, at + AUTH_HEADER, dlen);
      var escaped := m.Zero(at + AUTH_HEADER, dlen);
      if escaped {
        return None;
      }
      assert Flat([]) == [];
      var d := RecvDigest(m.chain, at, algo, s);
      var computed := if d.Some? then d.value else junk[..dlen];
      return Some(if digest != computed then -1 else 0);
    }

    /** The key at hand is what is left of the whole key, and good enough if the algorithms agree. */
    lemma {:induction false} JudgedRight(s: seq<byte>, at: nat, memory: bool, junk: seq<byte>)
      requires Valid() && WholeChunk(s, at) && |junk| == 32
      ensures
        var keys, id := store.S().keys, KeyId(s, at);
        var whole := Fresh(c, KeyOf(keys, id));
        UsedKey(id, memory).Some? && Agreeable(c.hash.build, FirstAlgo(id), HmacId(s, at), KeyBytes(whole)) ==>
          (Verdict(c, keys, UsedKey(id, memory), s, at, junk) <==> Authentic(c, keys, s, at))
    {
      var keys, id := store.S().keys, KeyId(s, at);
      if UsedKey(id, memory).Some? && Agreeable(c.hash.build, FirstAlgo(id), HmacId(s, at),
        KeyBytes(Fresh(c, KeyOf(keys, id)))) {
        VerdictIsAuthentic(c, keys, FirstAlgo(id), s, at, junk);
      }
    }
  }

  lemma {:induction false} BaseStays(a: Chain, b: Chain, k: nat)
    requires k < |a| == |b| && forall i :: 0 <= i < k ==> a[i] == b[i]
    ensures Base(a, k) == Base(b, k)
  {
    assert a[..k] == b[..k];
  }

  /** A way to cut a packet into segments that keeps the digest of its AUTH chunk in one of them. */
  ghost predicate Recuts(cut: seq<byte> -> Chain, at: nat, dlen: nat) {
    forall s :: at + AUTH_HEADER + dlen <= |s| ==> Flat(cut(s)) == s && ZeroFits(cut(s), at + AUTH_HEADER, dlen)
  }

  /**
   * The ends negotiated an algorithm, one end signs, the packet arrives cut into other segments, and
   * the other end accepts it.
   */
  method Exchange(a: Tcb, b: Tcb, m: Packet, at: nat, k: nat, off: nat, keyid: nat, cut: seq<byte> -> Chain,
    junk: seq<byte>)
    returns (r: Option<int>)
    requires a.Valid() && b.Valid() && a != b && Mirrored(a.c, b.c) && |junk| == 32 && keyid < 0x10000
    requires Negotiated(b.c.localHmacs, a.c.localHmacs, a.c.peerHmacId) && a.c.peerHmacId != HMAC_ID_RSVD
    requires AuthAt(m.chain, k, off, at, DigestLen(a.c.hash.build, a.c.peerHmacId)) && Prepared(a.c, Flat(m.chain), at)
    requires keyid in b.store.S().keys
      && KeyBytes(KeyOf(a.store.S().keys, keyid)) == KeyBytes(b.store.S().keys[keyid].key)
    requires Fresh(a.c, KeyOf(a.store.S().keys, keyid)).Some?
      && Recuts(cut, at, DigestLen(a.c.hash.build, a.c.peerHmacId))
    requires
      var whole := KeyBytes(Fresh(b.c, KeyOf(b.store.S().keys, keyid)));
      Agreeable(b.c.hash.build, b.FirstAlgo(keyid), a.c.peerHmacId, whole)
    modifies a, b, m
    ensures r == Some(0)
  {
    ghost var s, key := Flat(m.chain), Fresh(a.c, KeyOf(a.store.S().keys, keyid));
    SignThenVerify(a.c, a.store.S().keys, b.c, b.store.S().keys, s, at, keyid);
    NotEmpty(a.c, KeyOf(a.store.S().keys, keyid));
    SignedFields(a.c, key, s, at, keyid);
    a.FillHmacDigest(m, at, k, off, keyid, true);
    var wire := Flat(m.chain);
    var received := new Packet(cut(wire));
    r := b.HandleAuth(received, at, true, junk);
  }

  /** Without memory for a key, and with the right bytes on the stack, a packet that is not authentic is accepted. */
  method AcceptedWithoutKey(b: Tcb, m: Packet, at: nat) returns (r: Option<int>)
    requires b.Valid() && b.recvKey.None? && WholeChunk(Flat(m.chain), at)
    requires Presentable(b.c, b.store.S().keys, Flat(m.chain), at)
    requires !Authentic(b.c, b.store.S().keys, Flat(m.chain), at)
    requires ZeroFits(m.chain, at + AUTH_HEADER, DigestLen(b.c.hash.build, HmacId(Flat(m.chain), at)))
    modifies b, m
    ensures r == Some(0)
  {
    var s := Flat(m.chain);
    r := b.HandleAuth(m, at, false, Lucky(s, at, DigestLen(b.c.hash.build, HmacId(s, at))));
  }

  /**
   * A build with two algorithms and hash functions that tell an over-long key from what is left of
   * it: after a packet under one algorithm, every authentic packet under the other is refused.
   */
  method TwoAlgorithms(b: Tcb, m1: Packet, at1: nat, m2: Packet, at2: nat, junk: seq<byte>) returns (r: Option<int>)
    requires b.Valid() && b.recvKey.None? && m1 != m2 && |junk| == 32
    requires WholeChunk(Flat(m1.chain), at1) && WholeChunk(Flat(m2.chain), at2)
    requires Presentable(b.c, b.store.S().keys, Flat(m1.chain), at1)
    requires Authentic(b.c, b.store.S().keys, Flat(m2.chain), at2)
    requires KeyId(Flat(m1.chain), at1) == KeyId(Flat(m2.chain), at2)
    requires
      var whole := KeyBytes(Fresh(b.c, KeyOf(b.store.S().keys, KeyId(Flat(m1.chain), at1))));
      TellsApart(b.c.hash, whole, HmacId(Flat(m1.chain), at1), HmacId(Flat(m2.chain), at2))
    requires ZeroFits(m1.chain, at1 + AUTH_HEADER, DigestLen(b.c.hash.build, HmacId(Flat(m1.chain), at1)))
    requires ZeroFits(m2.chain, at2 + AUTH_HEADER, DigestLen(b.c.hash.build, HmacId(Flat(m2.chain), at2)))
    modifies b, m1, m2
    ensures r == Some(-1)
  {
    ghost var first := HmacId(Flat(m1.chain), at1);
    ghost var whole := Fresh(b.c, KeyOf(b.store.S().keys, KeyId(Flat(m1.chain), at1)));
    assert b.UsedKey(KeyId(Flat(m1.chain), at1), true) == whole;
    var _ := b.HandleAuth(m1, at1, true, junk);
    assert b.recvKey == Some(Shrunk(b.c.hash, first, whole.value));
    r := SecondPacket(b, m2, at2, first, junk);
  }

  method SecondPacket(b: Tcb, m: Packet, at: nat, ghost first: nat, junk: seq<byte>) returns (r: Option<int>)
    requires b.Valid() && |junk| == 32 && WholeChunk(Flat(m.chain), at)
    requires Authentic(b.c, b.store.S().keys, Flat(m.chain), at) && b.recvKeyid == KeyId(Flat(m.chain), at)
    requires
      var whole := KeyBytes(Fresh(b.c, KeyOf(b.store.S().keys, b.recvKeyid)));
      && TellsApart(b.c.hash, whole, first, HmacId(Flat(m.chain), at))
      && b.recvKey == Some(Shrunk(b.c.hash, first, whole))
    requires ZeroFits(m.chain, at + AUTH_HEADER, DigestLen(b.c.hash.build, HmacId(Flat(m.chain), at)))
    modifies b, m
    ensures r == Some(-1)
  {
    SecondAlgorithmRefused(b.c, b.store.S().keys, first, Flat(m.chain), at, junk);
    r := b.HandleAuth(m, at, true, junk);
  }
}
