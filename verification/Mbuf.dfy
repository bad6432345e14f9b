/**
 * Mbuf chains of user_mbuf.c: byte strings cut into segments, each segment a window into the
 * mbuf's own storage or into a reference-counted cluster that several mbufs may share.
 * The zones are explicit: a pointer is a key of the map of live mbufs.
 */
module Mbuf {
  import opened Common

  /** Sizes on a 64-bit target: MSIZE 256, a 40-byte `m_hdr` and a 40-byte `pkthdr`. */
  const MLEN := 216
  const MHLEN := 176
  const PKTDAT := MLEN - MHLEN
  const MCLBYTES := 2048
  const MAX_PROTOHDR := 5
  const M_COPYALL := 1000000000

  type Ptr = nat
  type ClusterId = nat

  /**
   * `data` is the offset of `m_data` in the mbuf's own storage `dat`, or in the cluster `ext`;
   * `pkthdr` is the total length recorded in the packet header, when there is one.
   */
  datatype Mbuf = Mbuf(next: Option<Ptr>, data: nat, len: nat, pkthdr: Option<int>, ext: Option<ClusterId>,
    dat: seq<byte>)

  datatype Cluster = Cluster(buf: seq<byte>, refs: int)

  datatype Heap = Heap(mbufs: map<Ptr, Mbuf>, clusters: map<ClusterId, Cluster>)

  // ------------------------------------------------------- what a heap means

  function Refers(c: ClusterId): Mbuf -> bool {
    (m: Mbuf) => m.ext == Some(c)
  }

  /** The live mbufs that point at cluster `c`. */
  function Users(h: Heap, c: ClusterId): set<Ptr> {
    Where(h.mbufs, Refers(c))
  }

  predicate WfMbuf(h: Heap, m: Mbuf) {
    && |m.dat| == MLEN
    && match m.ext
       case None => m.data + m.len <= MLEN && (m.pkthdr.Some? ==> PKTDAT <= m.data)
       case Some(c) => c in h.clusters && m.data + m.len <= |h.clusters[c].buf|
  }

  predicate WfCluster(h: Heap, c: ClusterId)
    requires c in h.clusters
  {
    h.clusters[c].refs == |Users(h, c)| && h.clusters[c].refs > 0 && |h.clusters[c].buf| == MCLBYTES
  }

  /** Every window is inside its storage, and every cluster counts exactly the mbufs using it. */
  ghost predicate Good(h: Heap) {
    && (forall p {:trigger WfMbuf(h, h.mbufs[p])} :: p in h.mbufs ==> WfMbuf(h, h.mbufs[p]))
    && (forall c {:trigger WfCluster(h, c)} :: c in h.clusters ==> WfCluster(h, c))
  }

  function Store(h: Heap, m: Mbuf): seq<byte>
    requires WfMbuf(h, m)
  {
    if m.ext.None? then m.dat else h.clusters[m.ext.value].buf
  }

  /** The bytes of one mbuf. */
  function Data(h: Heap, m: Mbuf): (d: seq<byte>)
    requires WfMbuf(h, m)
    ensures |d| == m.len
  {
    Store(h, m)[m.data..m.data + m.len]
  }

  function After(ids: seq<Ptr>, i: nat, end: Option<Ptr>): Option<Ptr> {
    if i + 1 < |ids| then Some(ids[i + 1]) else end
  }

  /** `ids` are linked in this order, the last one pointing at `end`. */
  ghost predicate Links(h: Heap, ids: seq<Ptr>, end: Option<Ptr>) {
    && Live(h, ids)
    && (forall i {:trigger After(ids, i, end)} :: 0 <= i < |ids| ==> h.mbufs[ids[i]].next == After(ids, i, end))
  }

  function HeadOf(ids: seq<Ptr>): Option<Ptr> {
    if ids == [] then None else Some(ids[0])
  }

  /** `p` is the head of a stretch of chain made of `ids` that goes on at `end`. */
  ghost predicate Segment(h: Heap, p: Option<Ptr>, ids: seq<Ptr>, end: Option<Ptr>) {
    HeadOf(ids) == p && Distinct(ids) && Links(h, ids, end)
  }

  /** `p` is the head of the chain made of `ids`; a null pointer is the empty chain. */
  ghost predicate IsChain(h: Heap, p: Option<Ptr>, ids: seq<Ptr>) {
    Segment(h, p, ids, None)
  }

  ghost predicate Live(h: Heap, ids: seq<Ptr>) {
    forall p :: p in ids ==> p in h.mbufs
  }

  /** The abstraction of a chain: its bytes, concatenated. */
  ghost function Bytes(h: Heap, ids: seq<Ptr>): seq<byte>
    requires Good(h) && Live(h, ids)
  {
    if ids == [] then [] else Data(h, h.mbufs[ids[0]]) + Bytes(h, ids[1..])
  }

  /** Every cluster left is an old one, with its bytes unchanged. */
  ghost predicate SameBufs(h: Heap, h': Heap) {
    forall c :: c in h'.clusters ==> c in h.clusters && h'.clusters[c].buf == h.clusters[c].buf
  }

  /** The mbufs of `ids` are as they were. */
  ghost predicate Kept(h: Heap, h': Heap, ids: seq<Ptr>) {
    && SameBufs(h, h')
    && (forall p :: p in ids ==> p in h.mbufs && p in h'.mbufs && h'.mbufs[p] == h.mbufs[p])
  }

  /** Every mbuf of `h` outside `ids` is as it was. */
  ghost predicate Untouched(h: Heap, h': Heap, ids: seq<Ptr>) {
    && SameBufs(h, h')
    && (forall p :: p in h.mbufs && p !in ids ==> p in h'.mbufs && h'.mbufs[p] == h.mbufs[p])
  }

  // ------------------------------------------------------------ pure lemmas

  lemma {:induction false} BytesAppend(h: Heap, a: seq<Ptr>, b: seq<Ptr>)
    requires Good(h) && Live(h, a) && Live(h, b)
    ensures Live(h, a + b) && Bytes(h, a + b) == Bytes(h, a) + Bytes(h, b)
  {
    if a == [] {
      assert a + b == b;
    } else {
      assert (a + b)[1..] == a[1..] + b;
      BytesAppend(h, a[1..], b);
    }
  }

  lemma {:induction false} BytesKept(h: Heap, h': Heap, ids: seq<Ptr>)
    requires Good(h) && Good(h') && Kept(h, h', ids)
    ensures Live(h, ids) && Live(h', ids) && Bytes(h', ids) == Bytes(h, ids)
  {
    if ids != [] {
      BytesKept(h, h', ids[1..]);
      var m := h.mbufs[ids[0]];
      assert ids[0] in ids && WfMbuf(h, m) && WfMbuf(h', m);
      assert Data(h', m) == Data(h, m);
    }
  }

  lemma {:induction false} BytesOne(h: Heap, p: Ptr)
    requires Good(h) && p in h.mbufs
    ensures Bytes(h, [p]) == Data(h, h.mbufs[p])
  {
    assert Bytes(h, [p]) == Data(h, h.mbufs[p]) + Bytes(h, []);
  }

  lemma {:induction false} SegmentKept(h: Heap, h': Heap, p: Option<Ptr>, ids: seq<Ptr>, end: Option<Ptr>)
    requires Good(h) && Good(h') && Segment(h, p, ids, end) && Kept(h, h', ids)
    ensures Segment(h', p, ids, end) && Live(h, ids) && Live(h', ids) && Bytes(h', ids) == Bytes(h, ids)
  {
    assert forall i {:trigger After(ids, i, end)} :: 0 <= i < |ids| ==> ids[i] in ids;
    BytesKept(h, h', ids);
  }

  /** A chain seen from its k-th mbuf on. */
  lemma {:induction false} ChainFrom(h: Heap, p: Option<Ptr>, ids: seq<Ptr>, k: nat)
    requires Good(h) && IsChain(h, p, ids) && k <= |ids|
    ensures IsChain(h, HeadOf(ids[k..]), ids[k..])
    ensures Live(h, ids[..k]) && Live(h, ids[k..]) && Live(h, ids)
    ensures Bytes(h, ids) == Bytes(h, ids[..k]) + Bytes(h, ids[k..])
  {
    forall i | 0 <= i < |ids[k..]|
      ensures h.mbufs[ids[k..][i]].next == After(ids[k..], i, None)
    {
      assert After(ids, k + i, None) == After(ids[k..], i, None);
    }
    assert ids == ids[..k] + ids[k..];
    BytesAppend(h, ids[..k], ids[k..]);
  }

  // ----------------------------------------- the counts, operation by operation

  /** The clusters are well formed in `h'` when their users and counts moved together. */
  lemma {:induction false} SetGood(h: Heap, p: Ptr, m: Mbuf)
    requires Good(h) && p in h.mbufs && WfMbuf(h, m) && m.ext == h.mbufs[p].ext
    ensures Good(h.(mbufs := h.mbufs[p := m]))
  {
    var h' := h.(mbufs := h.mbufs[p := m]);
    forall c | c in h'.clusters ensures WfCluster(h', c) {
      assert WfCluster(h, c);
      WhereMoved(h.mbufs, p, m, Refers(c));
    }
    forall q | q in h'.mbufs ensures WfMbuf(h', h'.mbufs[q]) {
      assert q != p ==> WfMbuf(h, h.mbufs[q]);
    }
  }

  lemma {:induction false} AllocGood(h: Heap, p: Ptr, m: Mbuf)
    requires Good(h) && p !in h.mbufs && WfMbuf(h, m) && m.ext == None
    ensures Good(h.(mbufs := h.mbufs[p := m]))
  {
    var h' := h.(mbufs := h.mbufs[p := m]);
    forall c | c in h'.clusters ensures WfCluster(h', c) {
      assert WfCluster(h, c);
      WhereMoved(h.mbufs, p, m, Refers(c));
    }
    forall q | q in h'.mbufs ensures WfMbuf(h', h'.mbufs[q]) {
      assert q != p ==> WfMbuf(h, h.mbufs[q]);
    }
  }

  /** `m_clget`: a fresh cluster, counted once. */
  function Attached(h: Heap, p: Ptr, c: ClusterId, buf: seq<byte>): Heap
    requires p in h.mbufs
  {
    Heap(h.mbufs[p := h.mbufs[p].(ext := Some(c), data := 0)], h.clusters[c := Cluster(buf, 1)])
  }

  /** All is in order exactly if the mbuf had no cluster: a cluster it had would still count it. */
  lemma {:induction false} AttachExactly(h: Heap, p: Ptr, c: ClusterId, buf: seq<byte>)
    requires Good(h) && p in h.mbufs && c !in h.clusters && |buf| == MCLBYTES
    ensures Good(Attached(h, p, c, buf)) <==> h.mbufs[p].ext == None
  {
    var h', m := Attached(h, p, c, buf), h.mbufs[p];
    assert WfMbuf(h, m);
    if m.ext.Some? {
      assert WfCluster(h, m.ext.value);
      WhereMoved(h.mbufs, p, h'.mbufs[p], Refers(m.ext.value));
      assert !WfCluster(h', m.ext.value);
    } else {
      forall d | d in h'.clusters ensures WfCluster(h', d) {
        WhereMoved(h.mbufs, p, h'.mbufs[p], Refers(d));
        if d == c {
          forall q | q in h.mbufs ensures h.mbufs[q].ext != Some(c) {
            assert WfMbuf(h, h.mbufs[q]);
          }
          assert Users(h, c) == {};
        } else {
          assert WfCluster(h, d);
        }
      }
      forall q | q in h'.mbufs ensures WfMbuf(h', h'.mbufs[q]) {
        assert WfMbuf(h, h.mbufs[q]);
      }
    }
  }

  /** `mb_dupcl`, with the window the caller sets: mbuf `n` becomes one more user of `c`. */
  function Shared(h: Heap, n: Ptr, c: ClusterId, data: nat, len: nat): Heap
    requires n in h.mbufs && c in h.clusters
  {
    Heap(h.mbufs[n := h.mbufs[n].(ext := Some(c), data := data, len := len)],
         h.clusters[c := h.clusters[c].(refs := h.clusters[c].refs + 1)])
  }

  lemma {:induction false} ShareGood(h: Heap, n: Ptr, c: ClusterId, data: nat, len: nat)
    requires Good(h) && n in h.mbufs && h.mbufs[n].ext == None
    requires c in h.clusters && data + len <= |h.clusters[c].buf|
    ensures Good(Shared(h, n, c, data, len)) && SameBufs(h, Shared(h, n, c, data, len))
  {
    var h' := Shared(h, n, c, data, len);
    forall d | d in h'.clusters ensures WfCluster(h', d) {
      assert WfCluster(h, d);
      WhereMoved(h.mbufs, n, h'.mbufs[n], Refers(d));
    }
    forall q | q in h'.mbufs ensures WfMbuf(h', h'.mbufs[q]) {
      assert WfMbuf(h, h.mbufs[q]);
    }
  }

  /** `m_free` with `mb_free_ext`: the cluster goes when its last user goes. */
  function Freed(h: Heap, p: Ptr): Heap
    requires p in h.mbufs && WfMbuf(h, h.mbufs[p])
  {
    match h.mbufs[p].ext
    case None => h.(mbufs := h.mbufs - {p})
    case Some(c) =>
      var k := h.clusters[c];
      Heap(h.mbufs - {p}, if k.refs == 1 then h.clusters - {c} else h.clusters[c := k.(refs := k.refs - 1)])
  }

  lemma {:induction false} FreeGood(h: Heap, p: Ptr)
    requires Good(h) && p in h.mbufs
    ensures WfMbuf(h, h.mbufs[p]) && Good(Freed(h, p)) && SameBufs(h, Freed(h, p))
  {
    assert WfMbuf(h, h.mbufs[p]);
    var h' := Freed(h, p);
    forall d | d in h'.clusters ensures WfCluster(h', d) {
      assert WfCluster(h, d);
      WhereRemoved(h.mbufs, p, Refers(d));
    }
    forall q | q in h'.mbufs ensures WfMbuf(h', h'.mbufs[q]) {
      var m := h.mbufs[q];
      assert WfMbuf(h, m);
      if m.ext.Some? {
        var c := m.ext.value;
        assert q in Users(h, c);
        if h.mbufs[p].ext == Some(c) {
          assert WfCluster(h, c);
          assert p in Users(h, c) && q in Users(h, c) - {p};
          assert |Users(h, c) - {p}| == |Users(h, c)| - 1;
        }
      }
    }
  }

  /** A cluster is live exactly while some live mbuf uses it. */
  lemma {:induction false} LiveExactlyWhileUsed(h: Heap, c: ClusterId)
    requires Good(h)
    ensures c in h.clusters <==> Users(h, c) != {}
    ensures c in h.clusters ==> h.clusters[c].refs == |Users(h, c)|
  {
    if c in h.clusters {
      assert WfCluster(h, c);
    }
    if p :| p in Users(h, c) {
      assert WfMbuf(h, h.mbufs[p]);
    }
  }

  /** Two good heaps with the same mbufs and the same surviving bytes are the same heap. */
  lemma {:induction false} GoodDetermined(h: Heap, h': Heap)
    requires Good(h) && Good(h') && h'.mbufs == h.mbufs && SameBufs(h, h')
    ensures h' == h
  {
    forall c ensures c in h.clusters <==> c in h'.clusters {
      LiveExactlyWhileUsed(h, c);
      LiveExactlyWhileUsed(h', c);
      assert Users(h, c) == Users(h', c);
    }
    forall c | c in h.clusters ensures h.clusters[c] == h'.clusters[c] {
      LiveExactlyWhileUsed(h, c);
      LiveExactlyWhileUsed(h', c);
    }
    assert h'.clusters == h.clusters;
  }

  // --------------------------------------------------------------- relinking

  /** The bytes of a chain do not depend on where its mbufs point. */
  lemma {:induction false} BytesRelinked(h: Heap, p: Ptr, next: Option<Ptr>, ids: seq<Ptr>)
    requires Good(h) && p in h.mbufs && Live(h, ids)
    ensures
      var h' := h.(mbufs := h.mbufs[p := h.mbufs[p].(next := next)]);
      Good(h') && Live(h', ids) && Bytes(h', ids) == Bytes(h, ids)
  {
    assert WfMbuf(h, h.mbufs[p]);
    SetGood(h, p, h.mbufs[p].(next := next));
    if ids != [] {
      BytesRelinked(h, p, next, ids[1..]);
      assert ids[0] in ids && WfMbuf(h, h.mbufs[ids[0]]);
    }
  }

  /** `h` with the last mbuf of `ids` pointing at `next`. */
  function Joined(h: Heap, ids: seq<Ptr>, next: Option<Ptr>): Heap
    requires ids == [] || ids[|ids| - 1] in h.mbufs
  {
    if ids == [] then h
    else var p := ids[|ids| - 1]; h.(mbufs := h.mbufs[p := h.mbufs[p].(next := next)])
  }

  /** Pointing the end of one chain at the head of another makes one chain of the two. */
  lemma {:induction false} JoinChains(h: Heap, ids: seq<Ptr>, end: Option<Ptr>, tail: seq<Ptr>)
    requires Good(h) && Links(h, ids, end) && Links(h, tail, None) && Distinct(ids + tail)
    requires ids == [] ==> end == HeadOf(tail)
    ensures ids != [] ==> ids[|ids| - 1] in h.mbufs
    ensures
      var h' := Joined(h, ids, HeadOf(tail));
      && Good(h') && h'.clusters == h.clusters
      && Links(h', ids + tail, None)
      && Live(h', ids + tail)
      && Bytes(h', ids + tail) == Bytes(h, ids) + Bytes(h, tail)
  {
    BytesAppend(h, ids, tail);
    if ids == [] {
      assert ids + tail == tail;
    } else {
      var last := ids[|ids| - 1];
      assert last in ids;
      BytesRelinked(h, last, HeadOf(tail), ids + tail);
      var h', all := Joined(h, ids, HeadOf(tail)), ids + tail;
      forall i | 0 <= i < |all| ensures h'.mbufs[all[i]].next == After(all, i, None) {
        if i < |ids| {
          assert h.mbufs[ids[i]].next == After(ids, i, end);
          assert i < |ids| - 1 ==> all[i] != all[|ids| - 1];
        } else {
          assert h.mbufs[tail[i - |ids|]].next == After(tail, i - |ids|, None);
          assert all[i] != all[|ids| - 1];
        }
      }
    }
  }

  // ------------------------------------------------------------ moving bytes

  /** The bytes `m_copym` is asked for; asking for more than there is yields what there is. */
  function Wanted(b: seq<byte>, off: nat, len: nat): seq<byte>
    requires off <= |b|
  {
    if len == M_COPYALL then b[off..] else b[off..Min(off + len, |b|)]
  }

  /** The request splits into what the mbuf at hand has and what is asked of the rest. */
  lemma {:induction false} WantedSplits(d: seq<byte>, rest: seq<byte>, off: nat, len: nat)
    requires off <= |d| <= MCLBYTES && len <= M_COPYALL
    ensures
      var n := Min(len, |d| - off);
      Wanted(d + rest, off, len) == d[off..off + n] + Wanted(rest, 0, if len == M_COPYALL then len else len - n)
  {
    var n := Min(len, |d| - off);
    if len == M_COPYALL {
      assert (d + rest)[off..] == d[off..] + rest;
    } else if n == len {
      assert (d + rest)[off..off + len] == d[off..off + n] + rest[0..0];
    } else {
      var e := Min(off + len, |d + rest|);
      assert (d + rest)[off..e] == d[off..] + rest[..e - |d|];
      assert e - |d| == Min(len - n, |rest|);
    }
  }

  /** Mbuf `m` with `src` copied in behind its data. */
  function Extended(m: Mbuf, src: seq<byte>): Mbuf
    requires m.ext == None && m.data + m.len + |src| <= |m.dat|
  {
    m.(dat := Spliced(m.dat, m.data + m.len, src), len := m.len + |src|)
  }

  lemma {:induction false} ExtendGood(h: Heap, p: Ptr, src: seq<byte>)
    requires Good(h) && p in h.mbufs && h.mbufs[p].ext == None && h.mbufs[p].data + h.mbufs[p].len + |src| <= MLEN
    ensures WfMbuf(h, h.mbufs[p])
    ensures
      var h' := h.(mbufs := h.mbufs[p := Extended(h.mbufs[p], src)]);
      Good(h') && WfMbuf(h', h'.mbufs[p]) && Data(h', h'.mbufs[p]) == Data(h, h.mbufs[p]) + src
  {
    var m := h.mbufs[p];
    assert WfMbuf(h, m);
    var m' := Extended(m, src);
    SplicedParts(m.dat, m.data + m.len, src);
    SetGood(h, p, m');
    var a, b := m.data, m.data + m.len;
    assert m'.dat[a..b + |src|] == m'.dat[a..b] + m'.dat[b..b + |src|];
    assert m'.dat[a..b] == m.dat[a..b];
  }

  /** Extending the last mbuf of a chain extends the chain. */
  lemma {:induction false} ExtendChain(h: Heap, q: Option<Ptr>, ids: seq<Ptr>, end: Option<Ptr>, src: seq<byte>)
    requires Good(h) && Segment(h, q, ids, end) && ids != []
    requires
      var p := ids[|ids| - 1];
      p in h.mbufs && h.mbufs[p].ext == None && h.mbufs[p].data + h.mbufs[p].len + |src| <= MLEN
        && |h.mbufs[p].dat| == MLEN
    ensures
      var p := ids[|ids| - 1];
      var h' := h.(mbufs := h.mbufs[p := Extended(h.mbufs[p], src)]);
      Good(h') && Segment(h', q, ids, end) && Bytes(h', ids) == Bytes(h, ids) + src
  {
    var k := |ids| - 1;
    var p := ids[k];
    var h' := h.(mbufs := h.mbufs[p := Extended(h.mbufs[p], src)]);
    ExtendGood(h, p, src);
    assert ids == ids[..k] + [p];
    assert p !in ids[..k];
    BytesAppend(h, ids[..k], [p]);
    BytesKept(h, h', ids[..k]);
    BytesOne(h, p);
    BytesOne(h', p);
    BytesAppend(h', ids[..k], [p]);
    forall i | 0 <= i < |ids| ensures h'.mbufs[ids[i]].next == After(ids, i, end) {
      assert h.mbufs[ids[i]].next == After(ids, i, end);
    }
  }
}
