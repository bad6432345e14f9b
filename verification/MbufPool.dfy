/**
 * The operations of user_mbuf.c that allocate, share, split, join and free mbufs.
 *
 * Each method changes the maps of live mbufs and clusters in place and is stated twice: what it
 * does to the bytes of the chains it works on, and what it leaves alone. A chain is a pointer and
 * a ghost sequence `ids` of the mbufs it runs through. Whether an allocation succeeds is a
 * parameter. The lemmas behind the class take one step of a loop each: what is kept when a mbuf
 * is appended, freed, filled, or cut.
 */
module MbufPool {
  import opened Common
  import opened Mbuf

  /** A new mbuf: no data, no cluster; the storage holds whatever it held before. */
  predicate Virgin(m: Mbuf, hdr: bool) {
    && m.next == None && m.len == 0 && m.ext == None && |m.dat| == MLEN
    && m.data == (if hdr then PKTDAT else 0)
    && m.pkthdr == (if hdr then Some(0) else None)
  }

  /** `& ~(sizeof(long) - 1)` */
  function Align(x: nat): (r: nat)
    ensures r <= x
  {
    x - x % 8
  }

  predicate Issued(id: nat, next: nat) { id < next }

  class Pool {
    var mbufs: map<Ptr, Mbuf>
    var clusters: map<ClusterId, Cluster>
    var nextPtr: Ptr
    var nextCluster: ClusterId

    function H(): Heap
      reads this
    {
      Heap(mbufs, clusters)
    }

    ghost predicate Valid()
      reads this
    {
      && Good(H())
      && (forall p {:trigger Issued(p, nextPtr)} :: p in mbufs ==> Issued(p, nextPtr))
      && (forall c {:trigger Issued(c, nextCluster)} :: c in clusters ==> Issued(c, nextCluster))
    }

    constructor ()
      ensures Valid() && mbufs == map[] && clusters == map[]
    {
      mbufs, clusters, nextPtr, nextCluster := map[], map[], 0, 0;
    }

    /** Storage as the allocator hands it out: callers may rely on its size only. */
    method Storage(size: nat) returns (s: seq<byte>)
      ensures |s| == size
    {
      s := seq(size, _ => 0);
    }

    /** `m_get` and `m_gethdr`; `memory` says whether there is any. */
    method GetMbuf(hdr: bool, memory: bool) returns (p: Option<Ptr>)
      requires Valid()
      modifies this
      ensures Valid() && clusters == old(clusters) && (p.Some? <==> memory)
      ensures p.None? ==> mbufs == old(mbufs)
      ensures p.Some? ==>
        && p.value !in old(mbufs) && p.value in mbufs
        && mbufs == old(mbufs)[p.value := mbufs[p.value]]
        && Virgin(mbufs[p.value], hdr)
    {
      if !memory {
        return None;
      }
      var dat := Storage(MLEN);
      assert !Issued(nextPtr, nextPtr);
      assert forall q :: q in mbufs ==> Issued(q, nextPtr) && Issued(q, nextPtr + 1);
      var m := Mbuf(None, if hdr then PKTDAT else 0, 0, if hdr then Some(0) else None, None, dat);
      AllocGood(H(), nextPtr, m);
      mbufs := mbufs[nextPtr := m];
      p := Some(nextPtr);
      nextPtr := nextPtr + 1;
    }

    /**
     * `m_clget`. Without memory the mbuf is marked as having a cluster all the same, one that is
     * not there; a cluster that the mbuf had before goes on counting it. Either way the heap is no
     * longer in order.
     */
    method AttachCluster(p: Ptr, memory: bool) returns (c: ClusterId)
      requires Valid() && p in mbufs
      modifies this
      ensures c !in old(clusters) && (Valid() <==> memory && old(mbufs[p].ext) == None)
      ensures memory ==> c in clusters && H() == Attached(old(H()), p, c, clusters[c].buf)
      ensures !memory ==> H() == old(H()).(mbufs := old(mbufs)[p := old(mbufs[p]).(ext := Some(c), data := 0)])
    {
      assert !Issued(nextCluster, nextCluster);
      assert forall d :: d in clusters ==> Issued(d, nextCluster) && Issued(d, nextCluster + 1);
      c := nextCluster;
      nextCluster := nextCluster + 1;
      if memory {
        var buf := Storage(MCLBYTES);
        AttachExactly(H(), p, c, buf);
        clusters := clusters[c := Cluster(buf, 1)];
      }
      mbufs := mbufs[p := mbufs[p].(ext := Some(c), data := 0)];
      assert !memory ==> !WfMbuf(H(), mbufs[p]);
    }

    /** `m_free`, returning the next mbuf. */
    method FreeMbuf(p: Ptr) returns (n: Option<Ptr>)
      requires Valid() && p in mbufs
      modifies this
      ensures Valid() && n == old(mbufs[p].next)
      ensures mbufs == old(mbufs) - {p} && SameBufs(old(H()), H())
      ensures WfMbuf(old(H()), old(mbufs[p])) && H() == Freed(old(H()), p)
    {
      ghost var h := H();
      FreeGood(h, p);
      n := mbufs[p].next;
      var ext := mbufs[p].ext;
      mbufs := mbufs - {p};
      if ext.Some? {
        var c := ext.value;
        if clusters[c].refs == 1 {
          clusters := clusters - {c};
        } else {
          clusters := clusters[c := clusters[c].(refs := clusters[c].refs - 1)];
        }
      }
    }

    /** `m_freem` */
    method FreeChain(p: Option<Ptr>, ghost ids: seq<Ptr>)
      requires Valid() && IsChain(H(), p, ids)
      modifies this
      ensures Valid() && SameBufs(old(H()), H())
      ensures mbufs == old(mbufs) - (set x | x in ids)
    {
      var m := p;
      ghost var k := 0;
      while m.Some?
        invariant 0 <= k <= |ids|
        invariant m == HeadOf(ids[k..])
        invariant Valid() && SameBufs(old(H()), H())
        invariant mbufs == old(mbufs) - (set x | x in ids[..k])
        decreases |ids| - k
      {
        ghost var h := H();
        assert ids[k] in ids && ids[k] !in ids[..k];
        assert After(ids, k, None) == HeadOf(ids[k + 1..]);
        m := FreeMbuf(m.value);
        assert ids[..k + 1] == ids[..k] + [ids[k]];
        k := k + 1;
      }
      assert ids[..k] == ids;
    }

    /** `mb_dupcl`, with the window the caller sets up around it. */
    method ShareCluster(n: Ptr, m: Ptr, data: nat, len: nat)
      requires Valid() && n in mbufs && m in mbufs && mbufs[n].ext == None
      requires mbufs[m].ext.Some? && WfMbuf(H(), mbufs[m]) && data + len <= mbufs[m].data + mbufs[m].len
      modifies this
      ensures Valid() && SameBufs(old(H()), H())
      ensures H() == Shared(old(H()), n, old(mbufs[m].ext.value), data, len)
    {
      var c := mbufs[m].ext.value;
      assert WfMbuf(H(), mbufs[m]);
      ShareGood(H(), n, c, data, len);
      mbufs := mbufs[n := mbufs[n].(ext := Some(c), data := data, len := len)];
      clusters := clusters[c := clusters[c].(refs := clusters[c].refs + 1)];
    }

    /** Write one mbuf back without changing its cluster. */
    method Update(p: Ptr, m: Mbuf)
      requires Valid() && p in mbufs && WfMbuf(H(), m) && m.ext == mbufs[p].ext
      modifies this`mbufs
      ensures Valid() && mbufs == old(mbufs)[p := m]
    {
      SetGood(H(), p, m);
      mbufs := mbufs[p := m];
    }

    /** Copy the mbuf at the head of `rest` behind the data of `m`, and free it. */
    method Absorb(m: Ptr, n: Ptr, ghost q: Option<Ptr>, ghost ids: seq<Ptr>, ghost end: Option<Ptr>,
      ghost rest: seq<Ptr>) returns (next: Option<Ptr>)
      requires Valid() && Segment(H(), q, ids, end) && IsChain(H(), Some(n), rest) && Disjoint(ids, rest)
      requires ids != [] && m == ids[|ids| - 1] && mbufs[m].ext == None
      requires mbufs[m].data + mbufs[m].len + mbufs[n].len <= MLEN
      modifies this
      ensures Valid() && Segment(H(), q, ids, end) && IsChain(H(), next, rest[1..])
      ensures Bytes(H(), ids) + Bytes(H(), rest[1..]) == old(Bytes(H(), ids) + Bytes(H(), rest))
      ensures mbufs == old(mbufs)[m := mbufs[m]] - {n} && SameBufs(old(H()), H())
      ensures mbufs[m] == old(mbufs[m]).(dat := mbufs[m].dat, len := old(mbufs[m].len + mbufs[n].len))
    {
      ghost var h := H();
      assert m in ids && n in rest && WfMbuf(h, mbufs[m]) && WfMbuf(h, mbufs[n]);
      var src := Data(H(), mbufs[n]);
      ExtendGood(h, m, src);
      Update(m, Extended(mbufs[m], src));
      next := FreeMbuf(n);
      Absorbed(h, H(), q, ids, end, rest);
    }

    /** `m->m_next = n` at the end of a chain. */
    method Link(m: Ptr, n: Option<Ptr>, ghost q: Option<Ptr>, ghost ids: seq<Ptr>, ghost end: Option<Ptr>,
      ghost rest: seq<Ptr>)
      requires Valid() && Links(H(), ids, end) && HeadOf(ids) == q && IsChain(H(), n, rest) && Distinct(ids + rest)
      requires ids != [] && m == ids[|ids| - 1]
      modifies this
      ensures Valid() && IsChain(H(), q, ids + rest)
      ensures Bytes(H(), ids + rest) == old(Bytes(H(), ids) + Bytes(H(), rest))
      ensures mbufs == old(mbufs)[m := old(mbufs[m]).(next := n)] && clusters == old(clusters)
    {
      JoinChains(H(), ids, end, rest);
      assert WfMbuf(H(), mbufs[m]);
      Update(m, mbufs[m].(next := n));
    }

    /** Walk to the end of a chain. */
    method LastOf(m0: Ptr, ghost ids: seq<Ptr>) returns (m: Ptr)
      requires IsChain(H(), Some(m0), ids)
      ensures ids != [] && m == ids[|ids| - 1]
    {
      m := m0;
      ghost var k := 0;
      while mbufs[m].next.Some?
        invariant 0 <= k < |ids| && m == ids[k]
        decreases |ids| - k
      {
        assert After(ids, k, None) == mbufs[m].next;
        m := mbufs[m].next.value;
        k := k + 1;
      }
      assert After(ids, k, None) == None;
    }

    /** `m_cat` */
    method Cat(m0: Ptr, n0: Option<Ptr>, ghost ids: seq<Ptr>, ghost tail: seq<Ptr>) returns (ghost out: seq<Ptr>)
      requires Valid() && IsChain(H(), Some(m0), ids) && IsChain(H(), n0, tail) && Disjoint(ids, tail)
      modifies this
      ensures Valid() && IsChain(H(), Some(m0), out)
      ensures Bytes(H(), out) == old(Bytes(H(), ids) + Bytes(H(), tail))
      ensures Changed(old(H()), H(), ids + tail, Gone(tail, out))
    {
      var m := LastOf(m0, ids);
      var n := n0;
      ghost var rest := tail;
      while n.Some?
        invariant Valid() && IsChain(H(), Some(m0), ids) && IsChain(H(), n, rest)
        invariant Suffix(rest, tail)
        invariant Bytes(H(), ids) + Bytes(H(), rest) == old(Bytes(H(), ids) + Bytes(H(), tail))
        invariant Changed(old(H()), H(), ids + tail, Gone(tail, rest))
        decreases |rest|
      {
        SuffixDisjoint(ids, rest, tail);
        ghost var h := H();
        if mbufs[m].ext.Some? || mbufs[m].data + mbufs[m].len + mbufs[n.value].len >= MLEN {
          Link(m, n, Some(m0), ids, None, rest);
          out := ids + rest;
          GoneJoined(ids, tail, rest);
          ChangedSet(old(H()), h, H(), ids + tail, Gone(tail, rest), m);
          return;
        }
        n := Absorb(m, n.value, Some(m0), ids, None, rest);
        SuffixShrinks(rest, tail);
        ChangedMore(old(H()), h, H(), ids + tail, Gone(tail, rest), m, rest[0]);
        rest := rest[1..];
      }
      out := ids;
      GoneJoined(ids, tail, []);
    }

    /** Move the first `count` bytes of the chain `rest` behind the data of `m`; an emptied mbuf is freed. */
    method Draw(m: Ptr, n: Ptr, count: nat, ghost rest: seq<Ptr>) returns (next: Option<Ptr>, ghost left: seq<Ptr>)
      requires Valid() && m in mbufs && IsChain(H(), Some(n), rest) && m !in rest
      requires mbufs[m].ext == None && mbufs[m].data + mbufs[m].len + count <= MLEN && count <= mbufs[n].len
      modifies this
      ensures Valid() && IsChain(H(), next, left) && Live(H(), [m])
      ensures left == if count == old(mbufs[n].len) then rest[1..] else rest
      ensures mbufs[m] == old(mbufs[m]).(dat := mbufs[m].dat, len := old(mbufs[m].len) + count)
      ensures Bytes(H(), [m]) + Bytes(H(), left) == old(Bytes(H(), [m]) + Bytes(H(), rest))
      ensures Changed(old(H()), H(), [m] + rest, if count == old(mbufs[n].len) then {n} else {})
    {
      ghost var h := H();
      assert WfMbuf(h, mbufs[m]) && n in rest && WfMbuf(h, mbufs[n]);
      if count == mbufs[n].len {
        next := Absorb(m, n, Some(m), [m], mbufs[m].next, rest);
        left := rest[1..];
        ChangedMore(h, h, H(), [m] + rest, {}, m, n);
      } else {
        var src := Data(H(), mbufs[n])[..count];
        ExtendGood(h, m, src);
        Update(m, Extended(mbufs[m], src));
        assert WfMbuf(H(), mbufs[n]);
        Update(n, mbufs[n].(data := mbufs[n].data + count, len := mbufs[n].len - count));
        next, left := Some(n), rest;
        Drawn(h, H(), m, count, rest);
      }
    }

    /** The loop of `m_pullup`: fill `m` from the chain until `want` bytes have come, or it runs dry. */
    method Fill(m: Ptr, n0: Ptr, want: int, ghost rest0: seq<Ptr>)
      returns (n: Option<Ptr>, lacking: int, ghost rest: seq<Ptr>)
      requires Valid() && m in mbufs && IsChain(H(), Some(n0), rest0) && m !in rest0
      requires mbufs[m].ext == None && mbufs[m].data + mbufs[m].len + want <= MLEN && WfMbuf(H(), mbufs[m])
      modifies this
      ensures Valid() && IsChain(H(), n, rest) && Suffix(rest, rest0) && Live(H(), [m])
      ensures mbufs[m] == old(mbufs[m]).(dat := mbufs[m].dat, len := mbufs[m].len)
      ensures lacking == want - (mbufs[m].len - old(mbufs[m].len))
      ensures lacking > 0 ==> n.None?
      ensures Bytes(H(), [m]) + Bytes(H(), rest) == old(Bytes(H(), [m]) + Bytes(H(), rest0))
      ensures Changed(old(H()), H(), [m] + rest0, Gone(rest0, rest))
    {
      n, rest, lacking := Some(n0), rest0, want;
      var space := MLEN - (mbufs[m].data + mbufs[m].len);
      var again := true;
      while again
        invariant Valid() && IsChain(H(), n, rest) && Suffix(rest, rest0) && Live(H(), [m])
        invariant mbufs[m] == old(mbufs[m]).(dat := mbufs[m].dat, len := mbufs[m].len)
        invariant lacking == want - (mbufs[m].len - old(mbufs[m].len))
        invariant 0 <= space == MLEN - (mbufs[m].data + mbufs[m].len) && lacking <= space
        invariant Bytes(H(), [m]) + Bytes(H(), rest) == old(Bytes(H(), [m]) + Bytes(H(), rest0))
        invariant Changed(old(H()), H(), [m] + rest0, Gone(rest0, rest))
        invariant again ==> n.Some?
        invariant !again ==> lacking <= 0 || n.None?
        decreases again, |rest|
      {
        ghost var h, rest1 := H(), rest;
        var size := mbufs[n.value].len;
        var count := Min(Min(Max(lacking, MAX_PROTOHDR), space), size);
        SuffixDisjoint([m], rest, rest0);
        n, rest := Draw(m, n.value, count, rest);
        lacking, space := lacking - count, space - count;
        again := lacking > 0 && n.Some?;
        DrawnMore(old(H()), h, H(), m, rest0, rest1, rest);
      }
    }

    /** `M_MOVE_PKTHDR` into a new mbuf: the header goes, the bytes stay. */
    method TakeHeader(m: Ptr, n: Ptr, ghost ids: seq<Ptr>)
      requires Valid() && m in mbufs && Virgin(mbufs[m], false) && IsChain(H(), Some(n), ids) && m !in ids
      modifies this
      ensures Valid() && IsChain(H(), Some(n), ids) && Bytes(H(), ids) == old(Bytes(H(), ids))
      ensures m in mbufs && mbufs[m].len == 0 && mbufs[m].ext == None && WfMbuf(H(), mbufs[m])
      ensures mbufs[m].pkthdr == old(mbufs[n].pkthdr) && mbufs[m].data == (if mbufs[m].pkthdr.Some? then PKTDAT else 0)
      ensures clusters == old(clusters) && mbufs == old(mbufs)[m := mbufs[m]][n := mbufs[n]]
    {
      ghost var h := H();
      assert n in ids && WfMbuf(h, mbufs[n]);
      if mbufs[n].pkthdr.Some? {
        Update(m, mbufs[m].(pkthdr := mbufs[n].pkthdr, data := PKTDAT));
        assert WfMbuf(H(), mbufs[n]);
        Update(n, mbufs[n].(pkthdr := None));
        HeaderTaken(h, H(), m, ids);
      }
    }

    /** A new, empty mbuf that takes over the packet header of the chain. */
    method NewHead(n: Ptr, memory: bool, ghost ids: seq<Ptr>) returns (got: Option<Ptr>)
      requires Valid() && IsChain(H(), Some(n), ids)
      modifies this
      ensures Valid() && clusters == old(clusters) && IsChain(H(), Some(n), ids)
        && Bytes(H(), ids) == old(Bytes(H(), ids))
      ensures (got.Some? <==> memory) && (got.None? ==> mbufs == old(mbufs))
      ensures got.Some? ==>
        var m := got.value;
        && m !in old(mbufs) && m !in ids && m in mbufs && mbufs == old(mbufs)[m := mbufs[m]][n := mbufs[n]]
        && mbufs[m].len == 0 && mbufs[m].ext == None && WfMbuf(H(), mbufs[m]) && Bytes(H(), [m]) == []
        && mbufs[m].pkthdr == old(mbufs[n].pkthdr) && mbufs[m].data <= PKTDAT
    {
      ghost var h := H();
      got := GetMbuf(false, memory);
      SegmentKept(h, H(), Some(n), ids, None);
      if got.Some? {
        assert got.value !in ids;
        TakeHeader(got.value, n, ids);
      }
    }

    /**
     * `m_pullup`: gather the first `len` bytes of the chain in its first mbuf.
     * On failure the whole chain is freed; the three ways to fail are exactly those stated.
     */
    method PullUp(n0: Ptr, len: int, memory: bool, ghost ids: seq<Ptr>) returns (r: Option<Ptr>, ghost out: seq<Ptr>)
      requires Valid() && IsChain(H(), Some(n0), ids)
      modifies this
      ensures Valid() && Untouched(old(H()), H(), ids)
      ensures r.None? <==> (NeedsMbuf(old(mbufs[n0]), len) && (len > MHLEN || !memory)) || |old(Bytes(H(), ids))| < len
      ensures r.None? ==> mbufs.Keys == old(mbufs.Keys) - Gone(ids, [])
      ensures r.Some? ==>
        && IsChain(H(), r, out) && Bytes(H(), out) == old(Bytes(H(), ids))
        && len <= mbufs[r.value].len && mbufs[r.value].pkthdr == old(mbufs[n0].pkthdr)
        && mbufs.Keys == old(mbufs.Keys) - Gone(ids, out) + {r.value}
    {
      out := ids;
      var m: Ptr, n: Option<Ptr>, lacking: int;
      ghost var rest: seq<Ptr>;
      var head := mbufs[n0];
      ghost var h := H();
      assert n0 in ids && WfMbuf(h, head);
      HeadBytes(h, ids);
      if !NeedsMbuf(head, len) {
        if head.len >= len {
          return Some(n0), ids;
        }
        m := n0;
        SplitHead(h, ids);
        n, lacking, rest := Fill(m, head.next.value, len - head.len, ids[1..]);
        PulledIn(h, H(), m, ids, rest);
      } else {
        if len > MHLEN {
          FreeChain(Some(n0), ids);
          FreedUntouched(h, H(), ids);
          return None, [];
        }
        var got := NewHead(n0, memory, ids);
        if got.None? {
          FreeChain(Some(n0), ids);
          FreedUntouched(h, H(), ids);
          return None, [];
        }
        m := got.value;
        ghost var h1 := H();
        n, lacking, rest := Fill(m, n0, len, ids);
        PulledNew(h, h1, H(), m, ids, rest);
      }
      BytesLength(H(), m, rest);
      out := [m] + rest;
      r := FinishPull(m, n, lacking, h, ids, rest);
    }

    /** The end of `m_pullup`: give up when bytes are lacking, else link what is left behind `m`. */
    method FinishPull(m: Ptr, n: Option<Ptr>, lacking: int, ghost h: Heap, ghost ids: seq<Ptr>, ghost rest: seq<Ptr>)
      returns (r: Option<Ptr>)
      requires Valid() && IsChain(H(), n, rest) && Pulling(h, H(), m, ids, rest) && (lacking > 0 ==> n.None?)
      modifies this
      ensures Valid() && Untouched(h, H(), ids)
      ensures r == if lacking > 0 then None else Some(m)
      ensures r.None? ==> mbufs.Keys == h.mbufs.Keys - Gone(ids, [])
      ensures r.Some? ==>
        && IsChain(H(), r, [m] + rest) && Bytes(H(), [m] + rest) == old(Bytes(H(), [m]) + Bytes(H(), rest))
        && mbufs[m] == old(mbufs[m]).(next := n)
        && mbufs.Keys == h.mbufs.Keys - Gone(ids, [m] + rest) + {m}
    {
      ghost var h1 := H();
      if lacking > 0 {
        var _ := FreeMbuf(m);
        return None;
      }
      Link(m, n, Some(m), [m], mbufs[m].next, rest);
      r := Some(m);
    }

    /** Find the mbuf in which byte `len0` falls, and where in it. */
    method Seek(m0: Ptr, len0: nat, ghost ids: seq<Ptr>) returns (m: Option<Ptr>, len: nat, ghost k: nat)
      requires Valid() && IsChain(H(), Some(m0), ids)
      ensures m.None? <==> |Bytes(H(), ids)| < len0
      ensures m.Some? ==> k < |ids| && m.value == ids[k] && ids[k] in mbufs && len <= mbufs[m.value].len
      ensures m.Some? ==> Live(H(), ids[..k]) && |Bytes(H(), ids[..k])| + len == len0
      ensures Live(H(), ids) && CutPlace(H(), ids, 0, len0) == if m.Some? then Some((k, len)) else None
    {
      m, len, k := Some(m0), len0, 0;
      while m.Some? && len > mbufs[m.value].len
        invariant k <= |ids| && m == HeadOf(ids[k..]) && Live(H(), ids[..k])
        invariant |Bytes(H(), ids[..k])| + len == len0
        invariant k == |ids| ==> len > 0
        invariant CutPlace(H(), ids, k, len) == CutPlace(H(), ids, 0, len0)
        decreases |ids| - k
      {
        StepBytes(H(), ids, k);
        len := len - mbufs[m.value].len;
        m := mbufs[m.value].next;
        k := k + 1;
      }
      SeekEnds(H(), ids, k);
    }

    /** Shorten `m` to `len` bytes and let `n` go on where `m` went on. */
    method Unhook(n: Ptr, m: Ptr, len: nat)
      requires Valid() && n in mbufs && m in mbufs && n != m && len <= mbufs[m].len
      modifies this`mbufs
      ensures Valid()
      ensures mbufs == old(mbufs)[n := old(mbufs[n]).(next := old(mbufs[m].next))][m := old(mbufs[m]).(len := len,
        next := None)]
      ensures WfMbuf(H(), mbufs[n]) && WfMbuf(old(H()), old(mbufs[n]))
        && Data(H(), mbufs[n]) == Data(old(H()), old(mbufs[n]))
    {
      assert WfMbuf(H(), mbufs[n]) && WfMbuf(H(), mbufs[m]);
      Update(n, mbufs[n].(next := mbufs[m].next));
      assert WfMbuf(H(), mbufs[m]);
      Update(m, mbufs[m].(len := len, next := None));
      assert WfMbuf(H(), mbufs[n]);
    }

    /** The end of `m_split`: mbuf `n` takes over what lies behind `len` in the k-th mbuf. */
    method Cut(n: Ptr, len: nat, ghost ids: seq<Ptr>, ghost k: nat, m: Ptr)
      requires Valid() && n in mbufs && IsChain(H(), HeadOf(ids), ids) && k < |ids| && m == ids[k] && n !in ids
        && m in ids
      requires len <= mbufs[m].len && mbufs[n].ext == None && mbufs[n].len == 0 && WfMbuf(H(), mbufs[m])
        && WfMbuf(H(), mbufs[n])
      requires mbufs[m].ext.None? ==> mbufs[n].data + (mbufs[m].len - len) <= MLEN
      modifies this
      ensures Valid() && IsChain(H(), HeadOf(ids), ids[..k + 1]) && IsChain(H(), Some(n), [n] + ids[k + 1..])
      ensures CutInTwo(old(H()), H(), ids, k, len, [n] + ids[k + 1..])
      ensures Untouched(old(H()), H(), [n, m]) && mbufs.Keys == old(mbufs.Keys)
      ensures mbufs[n].pkthdr == old(mbufs[n].pkthdr) && mbufs[m].pkthdr == old(mbufs[m].pkthdr)
    {
      ghost var h := H();
      MoveTail(n, m, len);
      Unhook(n, m, len);
      CutChain(h, H(), ids, k, len, n);
    }

    /** Let `n` have the bytes of `m` from `len` on, by sharing its cluster or by copying. */
    method MoveTail(n: Ptr, m: Ptr, len: nat)
      requires Valid() && n in mbufs && m in mbufs && n != m && len <= mbufs[m].len && mbufs[n].ext == None
        && mbufs[n].len == 0
      requires WfMbuf(H(), mbufs[m]) && WfMbuf(H(), mbufs[n])
      requires mbufs[m].ext.None? ==> mbufs[n].data + (mbufs[m].len - len) <= MLEN
      modifies this
      ensures Valid() && SameBufs(old(H()), H()) && n in mbufs && mbufs == old(mbufs)[n := mbufs[n]]
      ensures mbufs[n].next == old(mbufs[n].next) && mbufs[n].pkthdr == old(mbufs[n].pkthdr) && WfMbuf(H(), mbufs[n])
      ensures Data(H(), mbufs[n]) == old(Data(H(), mbufs[m]))[len..]
    {
      ghost var h := H();
      var v := mbufs[m];
      if v.ext.Some? {
        ShareCluster(n, m, v.data + len, v.len - len);
      } else {
        var src := Data(H(), v)[len..];
        ExtendGood(h, n, src);
        Update(n, Extended(mbufs[n], src));
      }
    }

    /**
     * `m_split`: the chain keeps its first `len0` bytes, the rest is returned; null stands for an
     * empty rest, for a chain shorter than `len0`, and for a failed allocation. `memory` and
     * `memory2` are the outcomes of the first and the second allocation. The second one fails after
     * the packet header was changed: then, and only then, the failure leaves a trace.
     */
    method Split(m0: Ptr, len0: nat, memory: bool, memory2: bool, ghost ids: seq<Ptr>)
      returns (n: Option<Ptr>, failed: bool, ghost left: seq<Ptr>, ghost right: seq<Ptr>)
      requires Valid() && IsChain(H(), Some(m0), ids)
      modifies this
      decreases if m0 in mbufs && mbufs[m0].pkthdr.Some? then 1 else 0, 1
      ensures Valid() && Untouched(old(H()), H(), ids) && m0 in mbufs
      ensures |old(Bytes(H(), ids))| < len0 ==> n.None? && !failed && H() == old(H())
      ensures len0 <= |old(Bytes(H(), ids))| && !failed ==> SplitDone(old(H()), H(), ids, len0, n, left, right)
      ensures failed <==> SplitFails(old(H()), ids, len0, memory, memory2)
      ensures failed ==> n.None? && H() == AfterFailure(old(H()), ids, len0, memory)
    {
      var m: Option<Ptr>, len: nat;
      ghost var k: nat;
      m, len, k := Seek(m0, len0, ids);
      if m.None? {
        return None, false, ids, [];
      }
      assert m0 in ids;
      if mbufs[m0].pkthdr.Some? {
        n, failed, left, right := SplitPacket(m0, m.value, len0, len, memory, memory2, ids, k);
      } else {
        n, failed, left, right := SplitPlain(m.value, len0, len, memory, ids, k);
      }
    }

    /** `m_split` of a chain without a packet header, cut in the k-th mbuf. */
    method SplitPlain(m: Ptr, len0: nat, len: nat, memory: bool, ghost ids: seq<Ptr>, ghost k: nat)
      returns (n: Option<Ptr>, failed: bool, ghost left: seq<Ptr>, ghost right: seq<Ptr>)
      requires Valid() && ids != [] && IsChain(H(), Some(ids[0]), ids) && ids[0] in mbufs
      requires mbufs[ids[0]].pkthdr.None? && CutsAt(H(), ids, k, m, len0, len)
      modifies this
      ensures failed <==> len < old(mbufs[m].len) && !memory
      ensures Valid() && Untouched(old(H()), H(), ids) && ids[0] in mbufs && mbufs[ids[0]].pkthdr.None?
      ensures !failed ==> SplitDone(old(H()), H(), ids, len0, n, left, right)
      ensures failed ==> n.None? && H() == old(H())
    {
      ghost var h := H();
      assert m in ids && WfMbuf(h, mbufs[m]);
      left, failed := ids[..k + 1], false;
      var remain := mbufs[m].len - len;
      if remain == 0 {
        n, right := mbufs[m].next, ids[k + 1..];
        Update(m, mbufs[m].(next := None));
        CutAfter(h, H(), ids, k, len0);
      } else {
        n, failed, left, right := SplitInside(m, len0, len, memory, ids, k);
      }
    }

    /** The cut is inside the k-th mbuf: a new mbuf gets what is behind it. */
    method SplitInside(m: Ptr, len0: nat, len: nat, memory: bool, ghost ids: seq<Ptr>, ghost k: nat)
      returns (n: Option<Ptr>, failed: bool, ghost left: seq<Ptr>, ghost right: seq<Ptr>)
      requires Valid() && ids != [] && IsChain(H(), Some(ids[0]), ids) && ids[0] in mbufs
      requires mbufs[ids[0]].pkthdr.None? && CutsAt(H(), ids, k, m, len0, len) && len < mbufs[m].len
      modifies this
      ensures failed <==> !memory
      ensures Valid() && Untouched(old(H()), H(), ids) && ids[0] in mbufs && mbufs[ids[0]].pkthdr.None?
      ensures !failed ==> SplitDone(old(H()), H(), ids, len0, n, left, right)
      ensures failed ==> n.None? && H() == old(H())
    {
      ghost var h := H();
      assert m in ids && WfMbuf(h, mbufs[m]);
      n := NewTail(m, mbufs[m].len - len, memory, ids);
      if n.None? {
        return None, true, ids, [];
      }
      failed, left, right := false, ids[..k + 1], [n.value] + ids[k + 1..];
      ghost var h1 := H();
      assert WfMbuf(h1, mbufs[m]) && WfMbuf(h1, mbufs[n.value]);
      Cut(n.value, len, ids, k, m);
      CutDone(h, h1, H(), ids, k, m, len0, len, n.value);
    }

    /** An mbuf for `remain` bytes of `m`, with its data at the end when they are to be copied. */
    method NewTail(m: Ptr, remain: nat, memory: bool, ghost ids: seq<Ptr>) returns (n: Option<Ptr>)
      requires Valid() && IsChain(H(), HeadOf(ids), ids) && m in mbufs && (mbufs[m].ext.None? ==> remain <= MLEN)
      modifies this
      ensures Valid() && clusters == old(clusters) && (n.Some? <==> memory) && (n.None? ==> mbufs == old(mbufs))
      ensures n.Some? ==>
        && n.value !in old(mbufs) && n.value !in ids && n.value in mbufs
          && mbufs == old(mbufs)[n.value := mbufs[n.value]]
        && mbufs[n.value].len == 0 && mbufs[n.value].ext == None
        && (mbufs[m].ext.None? ==> mbufs[n.value].data + remain <= MLEN)
        && IsChain(H(), HeadOf(ids), ids)
    {
      ghost var h := H();
      n := GetMbuf(false, memory);
      if n.Some? {
        assert n.value !in ids;
        Update(n.value, mbufs[n.value].(data := if mbufs[m].ext.Some? then 0 else Align(MLEN - remain)));
        SegmentKept(h, H(), HeadOf(ids), ids, None);
      }
    }

    /** `m_split` of a packet: the rest gets a packet header of its own. */
    method SplitPacket(m0: Ptr, m: Ptr, len0: nat, len: nat, memory: bool, memory2: bool, ghost ids: seq<Ptr>,
      ghost k: nat)
      returns (n: Option<Ptr>, failed: bool, ghost left: seq<Ptr>, ghost right: seq<Ptr>)
      requires Valid() && ids != [] && m0 == ids[0] && IsChain(H(), Some(m0), ids) && m0 in mbufs
      requires mbufs[m0].pkthdr.Some? && CutsAt(H(), ids, k, m, len0, len)
      modifies this
      decreases 1, 0
      ensures Valid() && Untouched(old(H()), H(), ids) && m0 in mbufs
      ensures !failed ==> SplitDone(old(H()), H(), ids, len0, n, left, right)
      ensures failed <==> !memory || (!memory2 && old(mbufs[m]).ext.None? && old(mbufs[m].len) - len > MHLEN)
      ensures failed ==> n.None? && H() == if memory then Headed(old(H()), m0, Some(len0)) else old(H())
    {
      ghost var h := H();
      assert m in ids && m0 in ids;
      var got := NewPacketHeader(m0, len0, memory, ids);
      if got.None? {
        return None, true, ids, [];
      }
      n, failed := got, false;
      ghost var h1 := H();
      HeaderKeepsCut(h, h1, ids, n.value, k, m, len0, len);
      assert WfMbuf(h1, mbufs[m]) && WfMbuf(h1, mbufs[n.value]);
      var remain := mbufs[m].len - len;
      if mbufs[m].ext.Some? || remain <= MHLEN {
        Update(n.value, mbufs[n.value].(data := if mbufs[m].ext.Some? then PKTDAT else PKTDAT + Align(MHLEN - remain)));
        ghost var h2 := H();
        SegmentKept(h1, h2, Some(m0), ids, None);
        assert WfMbuf(h2, mbufs[m]) && WfMbuf(h2, mbufs[n.value]);
        Cut(n.value, len, ids, k, m);
        left, right := ids[..k + 1], [n.value] + ids[k + 1..];
        PacketCut(h, h1, h2, H(), ids, k, m, len0, len, n.value);
      } else {
        Update(n.value, mbufs[n.value].(data := PKTDAT + Align(MHLEN)));
        n, failed, left, right := SplitDeep(n.value, m0, m, len0, len, memory2, h, h1, ids, k);
      }
    }

    /** A header mbuf for the rest; both headers get their new lengths. */
    method NewPacketHeader(m0: Ptr, len0: nat, memory: bool, ghost ids: seq<Ptr>) returns (got: Option<Ptr>)
      requires Valid() && IsChain(H(), Some(m0), ids) && m0 in mbufs && mbufs[m0].pkthdr.Some?
      modifies this
      ensures Valid() && clusters == old(clusters) && m0 in mbufs
      ensures (got.Some? <==> memory) && (got.None? ==> mbufs == old(mbufs))
      ensures got.Some? ==>
        got.value !in old(mbufs) && got.value !in ids && got.value in mbufs && WfMbuf(H(), mbufs[got.value])
      ensures got.Some? ==> mbufs[got.value].len == 0 && mbufs[got.value].ext == None && mbufs[got.value].next == None
      ensures got.Some? ==> mbufs[got.value].pkthdr == Some(old(mbufs[m0].pkthdr.value) - len0)
      ensures got.Some? ==> WithHeader(old(H()), H(), m0, len0, got.value)
    {
      ghost var h := H();
      assert m0 in ids && WfMbuf(h, mbufs[m0]);
      got := GetMbuf(true, memory);
      if got.Some? {
        assert got.value !in ids;
        Update(got.value, mbufs[got.value].(pkthdr := Some(mbufs[m0].pkthdr.value - len0)));
        assert WfMbuf(H(), mbufs[m0]);
        Update(m0, mbufs[m0].(pkthdr := Some(len0)));
        assert WfMbuf(H(), mbufs[got.value]);
      }
    }

    /** The recursive case of `m_split`: the bytes do not fit a header mbuf, so they go behind it. */
    method SplitDeep(n0: Ptr, m0: Ptr, m: Ptr, len0: nat, len: nat, memory2: bool,
                     ghost h: Heap, ghost h1: Heap, ghost ids: seq<Ptr>, ghost k: nat)
      returns (n: Option<Ptr>, failed: bool, ghost left: seq<Ptr>, ghost right: seq<Ptr>)
      requires Good(h) && Good(h1) && Valid() && ids != [] && m0 == ids[0] && m0 in h.mbufs && h.mbufs[m0].pkthdr.Some?
      requires IsChain(h, Some(m0), ids) && CutsAt(h, ids, k, m, len0, len)
      requires WithHeader(h, h1, m0, len0, n0) && n0 !in ids && IsChain(h1, Some(m0), ids)
        && CutsAt(h1, ids, k, m, len0, len)
      requires Bytes(h1, ids) == Bytes(h, ids)
      requires H() == h1.(mbufs := h1.mbufs[n0 := h1.mbufs[n0].(data := PKTDAT + Align(MHLEN))])
      requires mbufs[m].ext.None? && mbufs[m].len - len > MHLEN && mbufs[n0].ext.None?
      modifies this
      decreases 0, 2
      ensures Valid() && Untouched(h, H(), ids) && m0 in mbufs
      ensures !failed ==> SplitDone(h, H(), ids, len0, n, left, right)
      ensures failed <==> !memory2
      ensures failed ==> n.None? && H() == Headed(h, m0, Some(len0))
    {
      ghost var h2 := H();
      DeepPlace(h1, h2, ids, k, m0, n0, len);
      var tail: Option<Ptr>;
      ghost var l: seq<Ptr>, r: seq<Ptr>;
      tail, failed, l, r := Split(m, len, memory2, memory2, ids[k..]);
      ghost var h3 := H();
      if tail.None? {
        DropHeader(n0, m0, len0, h, h1, h2, ids);
        return None, true, ids, [];
      }
      n, failed, left, right := Some(n0), false, ids[..k] + l, [n0] + r;
      HangBehind(n0, tail, len0, h, h1, h2, ids, k, len, l, r);
    }

    /** The rest is hung behind the header mbuf. */
    method HangBehind(n0: Ptr, tail: Option<Ptr>, ghost len0: nat, ghost h: Heap, ghost h1: Heap, ghost h2: Heap,
                      ghost ids: seq<Ptr>, ghost k: nat, ghost len: nat, ghost l: seq<Ptr>, ghost r: seq<Ptr>)
      requires Valid() && Good(h) && Good(h1) && Good(h2) && 0 < k < |ids| && IsChain(h, Some(ids[0]), ids)
      requires WithHeader(h, h1, ids[0], len0, n0) && n0 !in ids && Live(h1, ids) && Bytes(h1, ids) == Bytes(h, ids)
      requires CutsAt(h1, ids, k, ids[k], len0, len) && IsChain(h2, Some(ids[0]), ids) && Live(h2, ids[k..])
      requires n0 in h2.mbufs && h2 == h1.(mbufs := h1.mbufs[n0 := h1.mbufs[n0].(data := h2.mbufs[n0].data)])
      requires SplitDone(h2, H(), ids[k..], len, tail, l, r) && Untouched(h2, H(), ids[k..]) && ids[k] != ids[0]
      modifies this
      ensures Valid() && SplitDone(h, H(), ids, len0, Some(n0), ids[..k] + l, [n0] + r)
      ensures Untouched(h, H(), ids) && ids[0] in mbufs
    {
      ghost var h3 := H();
      DeepChains(h2, h3, ids, k, ids[k], len, n0, tail, l, r);
      Link(n0, tail, Some(n0), [n0], mbufs[n0].next, r);
      DeepDone(h, h1, h2, h3, H(), ids, k, ids[k], len0, len, n0, tail, l, r);
    }

    /** The recursive call failed: the header mbuf is freed, and the header of the packet stays changed. */
    method DropHeader(n0: Ptr, m0: Ptr, len0: nat, ghost h: Heap, ghost h1: Heap, ghost h2: Heap, ghost ids: seq<Ptr>)
      requires Valid() && H() == h2 && WithHeader(h, h1, m0, len0, n0) && n0 in h2.mbufs && h2.mbufs[n0].ext.None?
        && m0 in ids
      requires h2 == h1.(mbufs := h1.mbufs[n0 := h2.mbufs[n0]])
      modifies this
      ensures Valid() && H() == Headed(h, m0, Some(len0)) && Untouched(h, H(), ids)
    {
      var _ := FreeMbuf(n0);
    }

    /** The first loop of `m_copym`: skip whole mbufs, keeping the offset into the one found. */
    method SkipOff(m0: Ptr, off0: nat, ghost ids: seq<Ptr>) returns (m: Option<Ptr>, off: nat, ghost k: nat)
      requires Valid() && IsChain(H(), Some(m0), ids) && off0 <= |Bytes(H(), ids)|
      ensures k <= |ids| && m == HeadOf(ids[k..]) && Live(H(), ids[k..]) && off <= |Bytes(H(), ids[k..])|
      ensures Bytes(H(), ids)[off0..] == Bytes(H(), ids[k..])[off..]
      ensures off > 0 ==> m.Some? && off < mbufs[m.value].len
      ensures off0 == 0 ==> k == 0 && off == 0
      ensures Live(H(), ids) && (k, off) == SkipPlace(H(), ids, 0, off0)
    {
      m, off, k := Some(m0), off0, 0;
      assert ids[0..] == ids;
      while off > 0
        invariant k <= |ids| && m == HeadOf(ids[k..]) && Live(H(), ids[k..]) && off <= |Bytes(H(), ids[k..])|
        invariant Bytes(H(), ids)[off0..] == Bytes(H(), ids[k..])[off..]
        invariant off0 == 0 ==> k == 0 && off == 0
        invariant SkipPlace(H(), ids, k, off) == SkipPlace(H(), ids, 0, off0)
        decreases |ids| - k
      {
        TailBytes(H(), ids, k);
        if off < mbufs[m.value].len {
          break;
        }
        Skipped(Bytes(H(), ids[k..]), Data(H(), mbufs[m.value]), Bytes(H(), ids[k + 1..]), off);
        off := off - mbufs[m.value].len;
        m := mbufs[m.value].next;
        k := k + 1;
      }
    }

    /** The mbuf for one piece of the copy, with the packet header when it is the first piece. */
    method NewCopy(m: Ptr, len: nat, copyhdr: bool, memory: bool) returns (n: Option<Ptr>)
      requires Valid() && m in mbufs && (copyhdr ==> mbufs[m].pkthdr.Some?)
      modifies this
      ensures Valid() && clusters == old(clusters) && (n.Some? <==> memory)
      ensures n.None? ==> H() == old(H())
      ensures n.Some? ==> n.value !in old(mbufs) && n.value in mbufs && mbufs == old(mbufs)[n.value := mbufs[n.value]]
      ensures n.Some? ==> Blank(mbufs[n.value]) && mbufs[n.value].pkthdr == CopiedHeader(old(mbufs[m]), len, copyhdr)
    {
      n := GetMbuf(copyhdr, memory);
      if n.Some? && copyhdr {
        assert WfMbuf(H(), mbufs[n.value]);
        Update(n.value, mbufs[n.value].(pkthdr := Some(if len == M_COPYALL then mbufs[m].pkthdr.value else len)));
      }
    }

    /** One piece of the copy: a cluster is shared, other bytes are copied. */
    method CopyInto(n: Ptr, m: Ptr, off: nat, count: nat)
      requires Valid() && n in mbufs && m in mbufs && n != m && Blank(mbufs[n]) && off + count <= mbufs[m].len
      requires mbufs[n].pkthdr.Some? ==> mbufs[m].pkthdr.Some?
      modifies this
      ensures Valid() && SameBufs(old(H()), H()) && n in mbufs && mbufs == old(mbufs)[n := mbufs[n]]
      ensures mbufs[n].next == None && mbufs[n].pkthdr == old(mbufs[n].pkthdr) && Piece(old(H()), H(), m, n, off, count)
    {
      assert WfMbuf(H(), mbufs[n]) && WfMbuf(H(), mbufs[m]);
      ghost var h := H();
      if mbufs[m].ext.Some? {
        ShareCluster(n, m, mbufs[m].data + off, count);
        SharedPiece(h, H(), m, n, off, count);
      } else {
        var src := Data(H(), mbufs[m])[off..off + count];
        ExtendGood(H(), n, src);
        Update(n, Extended(mbufs[n], src));
      }
    }

    /** A new mbuf with the `count` bytes of `m` from `off` on, not linked to anything yet. */
    method CopyPiece(m: Ptr, off: nat, count: nat, len: nat, copyhdr: bool, memory: bool, ghost h: Heap,
      ghost top: Option<Ptr>, ghost copy: seq<Ptr>)
      returns (n: Option<Ptr>)
      requires Valid() && Good(h) && m in h.mbufs && off + count <= h.mbufs[m].len
        && (copyhdr ==> h.mbufs[m].pkthdr.Some?)
      requires Untouched(h, H(), []) && Grown(h, H(), copy) && IsChain(H(), top, copy)
      modifies this
      ensures Valid() && (n.Some? <==> memory) && (n.None? ==> H() == old(H()))
      ensures n.Some? ==> n.value !in old(mbufs) && n.value in mbufs && mbufs == old(mbufs)[n.value := mbufs[n.value]]
      ensures n.Some? ==>
        mbufs[n.value].pkthdr == CopiedHeader(h.mbufs[m], len, copyhdr) && Piece(h, H(), m, n.value, off, count)
      ensures n.Some? ==>
        IsChain(H(), top, copy) && Bytes(H(), copy) == old(Bytes(H(), copy)) && IsChain(H(), n, [n.value])
      ensures n.Some? ==> Distinct(copy + [n.value]) && Untouched(h, H(), []) && Grown(h, H(), copy + [n.value])
    {
      ghost var h1 := H();
      StillThere(h, h1, m);
      n := NewCopy(m, len, copyhdr, memory);
      if n.Some? {
        ghost var h2 := H();
        CopyInto(n.value, m, off, count);
        assert Piece(h, H(), m, n.value, off, count) by { PieceOfOriginal(h, h1, h2, H(), m, n.value, off, count); }
        CopyGrows(h, h1, H(), top, copy, n.value);
      }
    }

    /** `*np = n` */
    method CopyLink(n: Ptr, top: Option<Ptr>, last: Ptr, ghost h: Heap, ghost copy: seq<Ptr>)
      returns (top': Option<Ptr>)
      requires Valid() && IsChain(H(), top, copy) && (copy != [] ==> last == copy[|copy| - 1]) && n in mbufs
        && WfMbuf(H(), mbufs[n])
      requires IsChain(H(), Some(n), [n]) && Distinct(copy + [n]) && Untouched(h, H(), []) && Grown(h, H(), copy + [n])
      modifies this
      ensures Valid() && top' == if copy == [] then Some(n) else top
      ensures Untouched(h, H(), []) && Grown(h, H(), copy + [n]) && IsChain(H(), top', copy + [n])
      ensures Bytes(H(), copy + [n]) == old(Bytes(H(), copy) + Data(H(), mbufs[n]))
      ensures forall p :: p in mbufs ==> p in old(mbufs) && mbufs[p].pkthdr == old(mbufs[p].pkthdr)
    {
      ghost var h3 := H();
      top' := top;
      if top.Some? {
        assert copy[0] in copy && last in copy;
        Link(last, Some(n), top, copy, None, [n]);
      } else {
        top' := Some(n);
      }
      CopyLinked(h, h3, H(), top, copy, n);
    }

    /** Link a piece behind the copy: one more mbuf of the original is accounted for. */
    method CopyAppend(n: Ptr, off: nat, len: nat, count: nat, top: Option<Ptr>, last: Ptr,
                      ghost job: Job, ghost h1: Heap, ghost k: nat, ghost copy: seq<Ptr>)
      returns (top': Option<Ptr>, len': nat)
      requires Valid() && Working(job, h1, k, off, len, top, copy) && k < |job.ids| && job.ids[k] in job.h.mbufs
      requires count == Min(len, job.h.mbufs[job.ids[k]].len - off)
      requires IsChain(H(), top, copy) && Bytes(H(), copy) == Bytes(h1, copy)
        && (copy != [] ==> last == copy[|copy| - 1])
      requires IsChain(H(), Some(n), [n]) && Distinct(copy + [n])
      requires Untouched(job.h, H(), []) && Grown(job.h, H(), copy + [n])
        && Piece(job.h, H(), job.ids[k], n, off, count)
      modifies this
      ensures Valid() && Working(job, H(), k + 1, 0, len', top', copy + [n]) && len' == Less(len, count)
      ensures forall p :: p in mbufs ==> p in old(mbufs) && mbufs[p].pkthdr == old(mbufs[p].pkthdr)
    {
      ghost var h3 := H();
      top' := CopyLink(n, top, last, job.h, copy);
      len' := Less(len, count);
      CopyStep(job.h, h1, h3, H(), job.ids, k, off, len, count, top, copy, n, top', copy + [n], job.want);
    }

    /** `nospace`: what has been copied is freed again. */
    method CopyFails(top: Option<Ptr>, ghost h: Heap, ghost copy: seq<Ptr>)
      requires Valid() && Good(h) && IsChain(H(), top, copy) && Untouched(h, H(), []) && Grown(h, H(), copy)
      modifies this
      ensures Valid() && H() == h
    {
      ghost var h1 := H();
      FreeChain(top, copy);
      CopyUndone(h, h1, H(), copy);
    }

    /** One turn of the second loop of `m_copym`. */
    method CopyNext(m: Ptr, off: nat, len: nat, copyhdr: bool, memory: bool, top: Option<Ptr>, last: Ptr,
                    ghost job: Job, ghost k: nat, ghost copy: seq<Ptr>)
      returns (n: Option<Ptr>, m': Option<Ptr>, off': nat, len': nat, top': Option<Ptr>, ghost k': nat,
        ghost copy': seq<Ptr>)
      requires Valid() && Working(job, H(), k, off, len, top, copy) && HeadOf(job.ids[k..]) == Some(m)
      requires HeaderSettled(job, H(), len, Some(m), copyhdr, copy, last)
      modifies this
      ensures Valid() && (n.Some? <==> memory) && (n.None? ==> H() == job.h)
      ensures n.Some? ==> k' == k + 1 && m' == HeadOf(job.ids[k'..]) && Working(job, H(), k', off', len', top', copy')
      ensures n.Some? ==> HeaderSettled(job, H(), len', m', false, copy', n.value) && |copy'| == |copy| + 1
      ensures len > 0 ==> Turns(job.h, job.ids, k, off, len) > 0
      ensures n.Some? && len > 0 ==>
        Turns(job.h, job.ids, k, off, len) == 1 + Turns(job.h, job.ids, k', off', len')
    {
      ghost var h1 := H();
      assert m == job.ids[k] && m in job.h.mbufs;
      StillThere(job.h, h1, m);
      m', off', len', top', k', copy' := None, 0, len, top, k + 1, copy;
      var count := Min(len, mbufs[m].len - off);
      TurnsStep(job.h, job.ids, k, off, len, count);
      n := CopyPiece(m, off, count, len, copyhdr, memory, job.h, top, copy);
      if n.None? {
        CopyFails(top, job.h, copy);
      } else {
        ghost var h2 := H();
        top', len' := CopyAppend(n.value, off, len, count, top, last, job, h1, k, copy);
        m' := NextOf(m, job.h, job.ids, k);
        copy' := copy + [n.value];
        HeaderStep(job, h1, h2, H(), len, m, copyhdr, copy, last, n.value, len', m');
      }
    }

    /**
     * `m_copym`: a chain with exactly the bytes asked for, sharing clusters with the original, which
     * it leaves alone. The allocations whose numbers are in `lost` fail: the copy fails exactly if it
     * needs one of them, and a failure leaves no trace.
     */
    method CopyM(m0: Ptr, off0: nat, len0: nat, lost: set<nat>, ghost ids: seq<Ptr>)
      returns (top: Option<Ptr>, failed: bool, ghost copy: seq<Ptr>)
      requires Valid() && IsChain(H(), Some(m0), ids) && off0 <= |Bytes(H(), ids)| && len0 <= M_COPYALL
      modifies this
      ensures Valid() && Untouched(old(H()), H(), [])
      ensures failed <==> Hits(lost, Needed(old(H()), ids, off0, len0))
      ensures failed ==> top.None?
      ensures top.None? ==> H() == old(H())
      ensures !failed ==> IsChain(H(), top, copy) && Bytes(H(), copy) == Wanted(old(Bytes(H(), ids)), off0, len0)
      ensures !failed ==>
        var b := old(Bytes(H(), ids));
        Bytes(H(), copy) == b[off0..if len0 == 1000000000 || off0 + len0 > |b| then |b| else off0 + len0]
      ensures !failed ==> Grown(old(H()), H(), copy) && |copy| == Needed(old(H()), ids, off0, len0)
      ensures top.Some? && off0 == 0 && old(mbufs[m0].pkthdr).Some? ==>
        mbufs[top.value].pkthdr == Some(if len0 == M_COPYALL then old(mbufs[m0].pkthdr.value) else len0)
    {
      ghost var h, want := H(), Wanted(Bytes(H(), ids), off0, len0);
      assert m0 in ids;
      var copyhdr := off0 == 0 && mbufs[m0].pkthdr.Some?;
      var m: Option<Ptr>, off: nat;
      ghost var k: nat;
      m, off, k := SkipOff(m0, off0, ids);
      CopyBegins(h, ids, k, off0, off, len0);
      top, failed, copy := CopyRest(m, off, len0, copyhdr, lost, m0, Job(h, ids, want, off0, len0), k);
    }

    /** The second loop of `m_copym`, from the k-th mbuf on. */
    method CopyRest(m0: Option<Ptr>, off0: nat, len0: nat, copyhdr0: bool, lost: set<nat>, head: Ptr,
                    ghost job: Job, ghost k0: nat)
      returns (top: Option<Ptr>, failed: bool, ghost copy: seq<Ptr>)
      requires Valid() && Working(job, H(), k0, off0, len0, None, []) && m0 == HeadOf(job.ids[k0..]) && len0 == job.len0
      requires HeaderSettled(job, H(), len0, m0, copyhdr0, [], head)
      modifies this
      ensures Valid() && Untouched(job.h, H(), []) && (top.None? ==> H() == job.h) && (failed ==> top.None?)
      ensures failed <==> Hits(lost, Turns(job.h, job.ids, k0, off0, len0))
      ensures !failed ==> IsChain(H(), top, copy) && Bytes(H(), copy) == job.want && Grown(job.h, H(), copy)
      ensures !failed ==> |copy| == Turns(job.h, job.ids, k0, off0, len0)
      ensures top.Some? && HasHeader(job) ==>
        top.value in mbufs && mbufs[top.value].pkthdr == CopiedHeader(job.h.mbufs[job.ids[0]], len0, true)
    {
      var m, off, len, copyhdr, last, turn := m0, off0, len0, copyhdr0, head, 0;
      ghost var k := k0;
      top, copy, failed := None, [], false;
      while len > 0 && m.Some?
        invariant Valid() && Working(job, H(), k, off, len, top, copy) && m == HeadOf(job.ids[k..])
        invariant HeaderSettled(job, H(), len, m, copyhdr, copy, last)
        invariant turn == |copy| && turn + Turns(job.h, job.ids, k, off, len) == Turns(job.h, job.ids, k0, off0, len0)
        invariant !Hits(lost, turn)
        decreases |job.ids| - k
      {
        var n: Option<Ptr>;
        HitsNext(lost, turn, Turns(job.h, job.ids, k0, off0, len0));
        n, m, off, len, top, k, copy := CopyNext(m.value, off, len, copyhdr, turn !in lost, top, last, job, k, copy);
        if n.None? {
          return None, true, [];
        }
        last, copyhdr, turn := n.value, false, turn + 1;
      }
      CopyEnds(job.h, H(), job.ids, k, off, len, top, copy, job.want);
    }

    /** `m = m->m_next`, in a chain that the copy has not touched. */
    method NextOf(m: Ptr, ghost h: Heap, ghost ids: seq<Ptr>, ghost k: nat) returns (n: Option<Ptr>)
      requires Good(h) && IsChain(h, HeadOf(ids), ids) && k < |ids| && m == ids[k] && Untouched(h, H(), [])
      ensures n == HeadOf(ids[k + 1..])
    {
      TailBytes(h, ids, k);
      n := mbufs[m].next;
    }

    /** `m_cat` undoes `m_split`: the bytes are back, wherever the cut was. */
    method SplitThenCat(m0: Ptr, len0: nat, memory: bool, memory2: bool, ghost ids: seq<Ptr>)
      returns (failed: bool, ghost out: seq<Ptr>)
      requires Valid() && IsChain(H(), Some(m0), ids)
      modifies this
      ensures Valid() && (failed <==> SplitFails(old(H()), ids, len0, memory, memory2))
      ensures !failed ==> IsChain(H(), Some(m0), out) && Bytes(H(), out) == old(Bytes(H(), ids))
    {
      ghost var b := Bytes(H(), ids);
      var n: Option<Ptr>;
      ghost var left: seq<Ptr>, right: seq<Ptr>;
      n, failed, left, right := Split(m0, len0, memory, memory2, ids);
      if failed {
        return failed, ids;
      }
      if |b| < len0 {
        left, right := ids, [];
      } else {
        assert b == b[..len0] + b[len0..];
      }
      out := Cat(m0, n, left, right);
    }
  }

  /** Freeing `p` frees cluster `c` exactly when `p` was its last user. */
  lemma {:induction false} FreedCluster(h: Heap, p: Ptr, c: ClusterId)
    requires Good(h) && p in h.mbufs && WfMbuf(h, h.mbufs[p])
    ensures c in h.clusters && c !in Freed(h, p).clusters <==> h.mbufs[p].ext == Some(c) && Users(h, c) == {p}
  {
    if h.mbufs[p].ext == Some(c) {
      LiveExactlyWhileUsed(h, c);
      assert p in Users(h, c);
      assert |Users(h, c) - {p}| == |Users(h, c)| - 1;
      if h.clusters[c].refs == 1 {
        assert Users(h, c) - {p} == {};
        assert Users(h, c) == {p};
      }
    }
  }

  // ------------------------------------------------------- lemmas on chains

  /** The mbufs of a chain that were freed on the way to `out`. */
  function Gone(tail: seq<Ptr>, out: seq<Ptr>): set<Ptr> {
    set p | p in tail && p !in out
  }

  lemma {:induction false} GoneJoined(ids: seq<Ptr>, tail: seq<Ptr>, rest: seq<Ptr>)
    requires Disjoint(ids, tail)
    ensures Gone(tail, ids + rest) == Gone(tail, rest)
    ensures rest == [] ==> Gone(tail, ids) == Gone(tail, rest)
  {
    assert forall p :: p in tail ==> (p in ids + rest <==> p in rest);
  }

  /** Only mbufs of `ids` changed, and of all mbufs exactly those in `gone` were freed. */
  ghost predicate Changed(h: Heap, h': Heap, ids: seq<Ptr>, gone: set<Ptr>) {
    Untouched(h, h', ids) && h'.mbufs.Keys == h.mbufs.Keys - gone
  }

  lemma {:induction false} ChangedMore(h: Heap, h1: Heap, h2: Heap, ids: seq<Ptr>, gone: set<Ptr>, m: Ptr, n: Ptr)
    requires Changed(h, h1, ids, gone) && m in ids && n in ids && m in h1.mbufs && m in h2.mbufs
    requires h2.mbufs == h1.mbufs[m := h2.mbufs[m]] - {n} && SameBufs(h1, h2)
    ensures Changed(h, h2, ids, gone + {n})
  {
  }

  lemma {:induction false} ChangedSet(h: Heap, h1: Heap, h2: Heap, ids: seq<Ptr>, gone: set<Ptr>, m: Ptr)
    requires Changed(h, h1, ids, gone) && m in ids && m in h1.mbufs && m in h2.mbufs
    requires h2.mbufs == h1.mbufs[m := h2.mbufs[m]] && h2.clusters == h1.clusters
    ensures Changed(h, h2, ids, gone)
  {
  }

  ghost predicate Disjoint(a: seq<Ptr>, b: seq<Ptr>) {
    forall p :: p in a ==> p !in b
  }

  lemma {:induction false} DistinctJoin(a: seq<Ptr>, b: seq<Ptr>)
    requires Distinct(a) && Distinct(b) && Disjoint(a, b)
    ensures Distinct(a + b)
  {
    var s := a + b;
    forall i, j | 0 <= i < j < |s| ensures s[i] != s[j] {
      if i < |a| <= j {
        assert s[i] in a && s[j] in b;
      }
    }
  }

  ghost predicate Suffix(rest: seq<Ptr>, tail: seq<Ptr>) {
    |rest| <= |tail| && rest == tail[|tail| - |rest|..]
  }

  lemma {:induction false} SuffixDisjoint(ids: seq<Ptr>, rest: seq<Ptr>, tail: seq<Ptr>)
    requires Disjoint(ids, tail) && Suffix(rest, tail) && Distinct(ids) && Distinct(rest)
    ensures Disjoint(ids, rest) && Distinct(ids + rest)
  {
    DistinctJoin(ids, rest);
  }

  lemma {:induction false} SuffixShrinks(rest: seq<Ptr>, tail: seq<Ptr>)
    requires Suffix(rest, tail) && rest != [] && Distinct(tail)
    ensures Suffix(rest[1..], tail)
    ensures Gone(tail, rest[1..]) == Gone(tail, rest) + {rest[0]}
    ensures rest[0] in tail
  {
    assert rest == [rest[0]] + rest[1..];
    assert rest[0] !in rest[1..];
  }

  /** Copying the head of `rest` behind `ids` and freeing it moves its bytes across. */
  lemma {:induction false} Absorbed(h: Heap, h': Heap, q: Option<Ptr>, ids: seq<Ptr>, end: Option<Ptr>, rest: seq<Ptr>)
    requires Good(h) && Segment(h, q, ids, end) && IsChain(h, HeadOf(rest), rest) && Disjoint(ids, rest)
    requires ids != [] && rest != [] && ids[|ids| - 1] in ids && rest[0] in rest
    requires
      var m, n := h.mbufs[ids[|ids| - 1]], h.mbufs[rest[0]];
      && m.ext == None && WfMbuf(h, m) && WfMbuf(h, n) && m.data + m.len + n.len <= MLEN
      && h'.mbufs == h.mbufs[ids[|ids| - 1] := Extended(m, Data(h, n))] - {rest[0]}
    requires Good(h') && SameBufs(h, h')
    ensures Segment(h', q, ids, end) && IsChain(h', HeadOf(rest[1..]), rest[1..])
    ensures Bytes(h', ids) + Bytes(h', rest[1..]) == Bytes(h, ids) + Bytes(h, rest)
    ensures h.mbufs[rest[0]].next == HeadOf(rest[1..])
  {
    var p := ids[|ids| - 1];
    var src := Data(h, h.mbufs[rest[0]]);
    var h1 := h.(mbufs := h.mbufs[p := Extended(h.mbufs[p], src)]);
    assert rest[0] != p && h1.mbufs[rest[0]] == h.mbufs[rest[0]] && WfMbuf(h1, h1.mbufs[rest[0]]);
    assert Good(h1) && Segment(h1, q, ids, end) && IsChain(h1, HeadOf(rest), rest)
        && Bytes(h1, ids) == Bytes(h, ids) + src && Bytes(h1, rest) == Bytes(h, rest) by {
      ExtendBoth(h, h1, q, ids, end, rest, src);
    }
    assert Segment(h', q, ids, end) && IsChain(h', HeadOf(rest[1..]), rest[1..]) && Bytes(h', ids) == Bytes(h1, ids)
        && Bytes(h1, rest) == Data(h1, h1.mbufs[rest[0]]) + Bytes(h', rest[1..])
        && h1.mbufs[rest[0]].next == HeadOf(rest[1..]) by {
      DropHead(h1, h', q, ids, end, rest);
    }
    Shifted(Bytes(h, ids), src, Bytes(h', rest[1..]), Bytes(h', ids), Bytes(h, rest));
  }

  /** Bytes that move across the border of two strings. */
  lemma {:induction false} Shifted(a: seq<byte>, src: seq<byte>, t: seq<byte>, a': seq<byte>, b: seq<byte>)
    requires a' == a + src && b == src + t
    ensures a' + t == a + b
  {
    Associative(a, src, t);
  }

  /** Extending the end of one chain leaves a disjoint one alone. */
  lemma {:induction false} ExtendBoth(h: Heap, h1: Heap, q: Option<Ptr>, ids: seq<Ptr>, end: Option<Ptr>,
    rest: seq<Ptr>, src: seq<byte>)
    requires Good(h) && Segment(h, q, ids, end) && IsChain(h, HeadOf(rest), rest) && Disjoint(ids, rest) && ids != []
    requires
      var p := ids[|ids| - 1];
      && p in ids && p in h.mbufs && h.mbufs[p].ext == None && |h.mbufs[p].dat| == MLEN
      && h.mbufs[p].data + h.mbufs[p].len + |src| <= MLEN
      && h1 == h.(mbufs := h.mbufs[p := Extended(h.mbufs[p], src)])
    ensures Good(h1) && Segment(h1, q, ids, end) && Bytes(h1, ids) == Bytes(h, ids) + src
    ensures IsChain(h1, HeadOf(rest), rest) && Bytes(h1, rest) == Bytes(h, rest)
  {
    ExtendChain(h, q, ids, end, src);
    assert ids[|ids| - 1] !in rest;
    SegmentKept(h, h1, HeadOf(rest), rest, None);
  }

  /** Freeing the head of `rest` leaves the other mbufs of both chains alone. */
  lemma {:induction false} DropHead(h: Heap, h': Heap, q: Option<Ptr>, ids: seq<Ptr>, end: Option<Ptr>, rest: seq<Ptr>)
    requires Good(h) && Segment(h, q, ids, end) && IsChain(h, HeadOf(rest), rest) && rest != [] && Disjoint(ids, rest)
    requires Good(h') && h'.mbufs == h.mbufs - {rest[0]} && SameBufs(h, h')
    ensures Segment(h', q, ids, end) && IsChain(h', HeadOf(rest[1..]), rest[1..])
    ensures Bytes(h', ids) == Bytes(h, ids)
    ensures rest[0] in rest && WfMbuf(h, h.mbufs[rest[0]])
    ensures Bytes(h, rest) == Data(h, h.mbufs[rest[0]]) + Bytes(h', rest[1..])
    ensures h.mbufs[rest[0]].next == HeadOf(rest[1..])
  {
    ChainFrom(h, HeadOf(rest), rest, 1);
    assert After(rest, 0, None) == HeadOf(rest[1..]);
    assert rest[0] !in rest[1..];
    assert rest[0] !in ids;
    SegmentKept(h, h', q, ids, end);
    SegmentKept(h, h', HeadOf(rest[1..]), rest[1..], None);
  }

  /** Copying part of the head of `rest` behind `m` and moving the window of the head past it. */
  lemma {:induction false} Drawn(h: Heap, h': Heap, m: Ptr, count: nat, rest: seq<Ptr>)
    requires Good(h) && m in h.mbufs && rest != [] && IsChain(h, Some(rest[0]), rest) && m !in rest && rest[0] in rest
    requires WfMbuf(h, h.mbufs[m]) && WfMbuf(h, h.mbufs[rest[0]])
    requires h.mbufs[m].ext == None && h.mbufs[m].data + h.mbufs[m].len + count <= MLEN && count <= h.mbufs[rest[0]].len
    requires
      var n := h.mbufs[rest[0]];
      h' == h.(mbufs := h.mbufs[m := Extended(h.mbufs[m], Data(h, n)[..count])][rest[0] := n.(data := n.data + count,
        len := n.len - count)])
    requires Good(h')
    ensures IsChain(h', Some(rest[0]), rest) && Live(h', [m])
    ensures Bytes(h', [m]) + Bytes(h', rest) == Bytes(h, [m]) + Bytes(h, rest)
    ensures Changed(h, h', [m] + rest, {})
  {
    forall i | 0 <= i < |rest| ensures h'.mbufs[rest[i]].next == After(rest, i, None) {
      assert h.mbufs[rest[i]].next == After(rest, i, None) && rest[i] in rest;
    }
    DrawnBytes(h, h', m, count, rest);
  }

  lemma {:induction false} DrawnBytes(h: Heap, h': Heap, m: Ptr, count: nat, rest: seq<Ptr>)
    requires Good(h) && m in h.mbufs && rest != [] && IsChain(h, Some(rest[0]), rest) && m !in rest && rest[0] in rest
    requires WfMbuf(h, h.mbufs[m]) && WfMbuf(h, h.mbufs[rest[0]])
    requires h.mbufs[m].ext == None && h.mbufs[m].data + h.mbufs[m].len + count <= MLEN && count <= h.mbufs[rest[0]].len
    requires
      var n := h.mbufs[rest[0]];
      h' == h.(mbufs := h.mbufs[m := Extended(h.mbufs[m], Data(h, n)[..count])][rest[0] := n.(data := n.data + count,
        len := n.len - count)])
    requires Good(h') && Live(h', [m]) && Live(h', rest)
    ensures Bytes(h', [m]) + Bytes(h', rest) == Bytes(h, [m]) + Bytes(h, rest)
  {
    var n := h.mbufs[rest[0]];
    var src := Data(h, n)[..count];
    assert WfMbuf(h', h'.mbufs[m]);
    assert Bytes(h', [m]) == Bytes(h, [m]) + src by {
      ExtendGood(h, m, src);
      BytesOne(h, m);
      BytesOne(h', m);
    }
    DrawnRest(h, h', m, count, rest);
    Shifted(Bytes(h, [m]), src, Bytes(h', rest), Bytes(h', [m]), Bytes(h, rest));
  }

  lemma {:induction false} DrawnRest(h: Heap, h': Heap, m: Ptr, count: nat, rest: seq<Ptr>)
    requires Good(h) && Good(h') && rest != [] && Distinct(rest) && Live(h, rest) && m !in rest && rest[0] in rest
    requires m in h'.mbufs && WfMbuf(h, h.mbufs[rest[0]]) && count <= h.mbufs[rest[0]].len && Live(h', rest)
    requires
      var n := h.mbufs[rest[0]];
      && h'.clusters == h.clusters
      && h'.mbufs == h.mbufs[m := h'.mbufs[m]][rest[0] := n.(data := n.data + count, len := n.len - count)]
    ensures Bytes(h, rest) == Data(h, h.mbufs[rest[0]])[..count] + Bytes(h', rest)
  {
    var n, n', t := h.mbufs[rest[0]], h'.mbufs[rest[0]], rest[1..];
    var src := Data(h, n)[..count];
    assert WfMbuf(h', n');
    assert Data(h, n) == src + Data(h', n');
    assert Live(h, t) && Live(h', t) && Bytes(h', t) == Bytes(h, t) by {
      assert rest[0] !in t;
      BytesKept(h, h', t);
    }
    assert Bytes(h, rest) == Data(h, n) + Bytes(h, t) && Bytes(h', rest) == Data(h', n') + Bytes(h', t);
    Associative(src, Data(h', n'), Bytes(h, t));
  }

  /** One more round of the loop, in terms of what the whole loop changed. */
  lemma {:induction false} DrawnMore(h: Heap, h1: Heap, h2: Heap, m: Ptr, rest0: seq<Ptr>, rest1: seq<Ptr>,
    rest2: seq<Ptr>)
    requires Distinct(rest0) && Suffix(rest1, rest0) && rest1 != [] && (rest2 == rest1 || rest2 == rest1[1..])
    requires Changed(h, h1, [m] + rest0, Gone(rest0, rest1))
    requires Changed(h1, h2, [m] + rest1, if rest2 == rest1 then {} else {rest1[0]})
    ensures Suffix(rest2, rest0) && Changed(h, h2, [m] + rest0, Gone(rest0, rest2))
  {
    SuffixShrinks(rest1, rest0);
    assert forall p :: p in [m] + rest1 ==> p in [m] + rest0;
  }

  // ------------------------------------------------------ lemmas on m_pullup

  /** The first mbuf has no room for `len` bytes where they are, or nothing follows it. */
  predicate NeedsMbuf(head: Mbuf, len: int) {
    !(head.ext.None? && head.data + len < MLEN && head.next.Some?)
  }

  /** What a pull-up in progress has done to the heap: `m` is gathering, `rest` is left. */
  ghost predicate Pulling(h: Heap, h': Heap, m: Ptr, ids: seq<Ptr>, rest: seq<Ptr>) {
    && SameBufs(h, h') && m in h'.mbufs && m !in rest && (m in h.mbufs ==> m in ids)
    && (forall p :: p in h.mbufs && p !in ids ==> p in h'.mbufs && h'.mbufs[p] == h.mbufs[p])
    && h'.mbufs.Keys == h.mbufs.Keys - Gone(ids, [m] + rest) + {m}
  }

  lemma {:induction false} HeaderTaken(h: Heap, h': Heap, m: Ptr, ids: seq<Ptr>)
    requires Good(h) && Good(h') && ids != [] && IsChain(h, Some(ids[0]), ids) && m !in ids && m in h.mbufs
    requires h'.clusters == h.clusters && m in h'.mbufs && ids[0] in ids
    requires h'.mbufs == h.mbufs[m := h'.mbufs[m]][ids[0] := h.mbufs[ids[0]].(pkthdr := None)]
    ensures IsChain(h', Some(ids[0]), ids) && Bytes(h', ids) == Bytes(h, ids)
  {
    var n := ids[0];
    assert WfMbuf(h, h.mbufs[n]) && WfMbuf(h', h'.mbufs[n]);
    assert Data(h', h'.mbufs[n]) == Data(h, h.mbufs[n]);
    assert n !in ids[1..];
    assert Kept(h, h', ids[1..]);
    BytesKept(h, h', ids[1..]);
    forall i | 0 <= i < |ids| ensures h'.mbufs[ids[i]].next == After(ids, i, None) {
      assert h.mbufs[ids[i]].next == After(ids, i, None) && ids[i] in ids;
    }
  }

  lemma {:induction false} HeadBytes(h: Heap, ids: seq<Ptr>)
    requires Good(h) && Live(h, ids) && ids != [] && ids[0] in ids
    ensures |Bytes(h, ids)| >= h.mbufs[ids[0]].len
    ensures WfMbuf(h, h.mbufs[ids[0]])
    ensures Bytes(h, [ids[0]]) + Bytes(h, ids[1..]) == Bytes(h, ids)
  {
    assert WfMbuf(h, h.mbufs[ids[0]]);
    BytesOne(h, ids[0]);
  }

  lemma {:induction false} SplitHead(h: Heap, ids: seq<Ptr>)
    requires Good(h) && ids != [] && IsChain(h, Some(ids[0]), ids)
    ensures IsChain(h, h.mbufs[ids[0]].next, ids[1..]) && ids[0] !in ids[1..]
  {
    ChainFrom(h, Some(ids[0]), ids, 1);
    assert After(ids, 0, None) == HeadOf(ids[1..]);
  }

  lemma {:induction false} PulledIn(h: Heap, h': Heap, m: Ptr, ids: seq<Ptr>, rest: seq<Ptr>)
    requires ids != [] && m == ids[0] && m in h.mbufs && m in h'.mbufs && Distinct(ids) && Suffix(rest, ids[1..])
    requires Changed(h, h', [m] + ids[1..], Gone(ids[1..], rest))
    ensures Pulling(h, h', m, ids, rest)
  {
    assert [m] + ids[1..] == ids;
    assert m !in ids[1..];
    assert Gone(ids[1..], rest) == Gone(ids, [m] + rest);
  }

  lemma {:induction false} PulledNew(h: Heap, h1: Heap, h': Heap, m: Ptr, ids: seq<Ptr>, rest: seq<Ptr>)
    requires ids != [] && m !in h.mbufs && m !in ids && m in h'.mbufs && ids[0] in h1.mbufs && Suffix(rest, ids)
    requires h1.clusters == h.clusters && m in h1.mbufs
      && h1.mbufs == h.mbufs[m := h1.mbufs[m]][ids[0] := h1.mbufs[ids[0]]]
    requires ids[0] in h.mbufs
    requires Changed(h1, h', [m] + ids, Gone(ids, rest))
    ensures Pulling(h, h', m, ids, rest)
  {
    assert Gone(ids, rest) == Gone(ids, [m] + rest);
    assert ids[0] in ids;
    assert h1.mbufs.Keys == h.mbufs.Keys + {m};
    forall p | p in h.mbufs && p !in ids ensures p in h'.mbufs && h'.mbufs[p] == h.mbufs[p] {
      assert p in h1.mbufs && p !in [m] + ids;
    }
  }

  lemma {:induction false} BytesLength(h: Heap, m: Ptr, rest: seq<Ptr>)
    requires Good(h) && m in h.mbufs && Live(h, rest)
    ensures |Bytes(h, [m]) + Bytes(h, rest)| >= h.mbufs[m].len
    ensures rest == [] ==> |Bytes(h, [m]) + Bytes(h, rest)| == h.mbufs[m].len
  {
    assert WfMbuf(h, h.mbufs[m]);
    BytesOne(h, m);
  }

  lemma {:induction false} FreedUntouched(h: Heap, h': Heap, ids: seq<Ptr>)
    requires h'.mbufs == h.mbufs - (set x | x in ids) && SameBufs(h, h')
    ensures Untouched(h, h', ids) && h'.mbufs.Keys == h.mbufs.Keys - Gone(ids, [])
  {
  }

  // ------------------------------------------------------- lemmas on m_split

  lemma {:induction false} StepBytes(h: Heap, ids: seq<Ptr>, k: nat)
    requires Good(h) && IsChain(h, HeadOf(ids), ids) && k < |ids|
    ensures Live(h, ids[..k]) && Live(h, ids[..k + 1]) && ids[k] in h.mbufs
    ensures |Bytes(h, ids[..k + 1])| == |Bytes(h, ids[..k])| + h.mbufs[ids[k]].len
    ensures h.mbufs[ids[k]].next == HeadOf(ids[k + 1..])
  {
    assert ids[k] in ids && WfMbuf(h, h.mbufs[ids[k]]);
    assert ids[..k + 1] == ids[..k] + [ids[k]];
    BytesOne(h, ids[k]);
    BytesAppend(h, ids[..k], [ids[k]]);
    assert After(ids, k, None) == HeadOf(ids[k + 1..]);
  }

  lemma {:induction false} SeekEnds(h: Heap, ids: seq<Ptr>, k: nat)
    requires Good(h) && IsChain(h, HeadOf(ids), ids) && k <= |ids|
    ensures k == |ids| ==> Bytes(h, ids[..k]) == Bytes(h, ids)
    ensures k < |ids| ==> ids[k] in h.mbufs && |Bytes(h, ids)| >= |Bytes(h, ids[..k])| + h.mbufs[ids[k]].len
  {
    if k == |ids| {
      assert ids[..k] == ids;
    } else {
      StepBytes(h, ids, k);
      ChainFrom(h, HeadOf(ids), ids, k + 1);
    }
  }

  /** The left chain keeps the bytes before the cut, the right chain has those after it. */
  ghost predicate CutInTwo(h: Heap, h': Heap, ids: seq<Ptr>, k: nat, len: nat, right: seq<Ptr>)
    requires Good(h) && Good(h') && Live(h, ids) && k < |ids| && Live(h', ids[..k + 1]) && Live(h', right)
  {
    && Live(h, ids[..k])
    && var at := |Bytes(h, ids[..k])| + len;
       && at <= |Bytes(h, ids)|
       && Bytes(h', ids[..k + 1]) == Bytes(h, ids)[..at]
       && Bytes(h', right) == Bytes(h, ids)[at..]
  }

  lemma {:induction false} SliceAround(b: seq<byte>, a: seq<byte>, d: seq<byte>, t: seq<byte>, len: nat, at: nat)
    requires b == a + (d + t) && len <= |d| && at == |a| + len
    ensures at <= |b| && b[..at] == a + d[..len] && b[at..] == d[len..] + t
  {
  }

  lemma {:induction false} CutChain(h: Heap, h': Heap, ids: seq<Ptr>, k: nat, len: nat, n: Ptr)
    requires Good(h) && Good(h') && IsChain(h, HeadOf(ids), ids) && k < |ids| && n !in ids && ids[k] in ids
    requires n in h'.mbufs && ids[k] in h'.mbufs && SameBufs(h, h') && len <= h.mbufs[ids[k]].len
    requires h'.mbufs == h.mbufs[n := h'.mbufs[n]][ids[k] := h.mbufs[ids[k]].(len := len, next := None)]
    requires WfMbuf(h, h.mbufs[ids[k]]) && WfMbuf(h', h'.mbufs[n])
    requires h'.mbufs[n].next == h.mbufs[ids[k]].next && Data(h', h'.mbufs[n]) == Data(h, h.mbufs[ids[k]])[len..]
    ensures IsChain(h', HeadOf(ids), ids[..k + 1]) && IsChain(h', Some(n), [n] + ids[k + 1..])
    ensures CutInTwo(h, h', ids, k, len, [n] + ids[k + 1..])
  {
    CutLinks(h, h', ids, k, n);
    CutBytes(h, h', ids, k, len, n);
  }

  lemma {:induction false} CutBytes(h: Heap, h': Heap, ids: seq<Ptr>, k: nat, len: nat, n: Ptr)
    requires Good(h) && Good(h') && Distinct(ids) && Live(h, ids) && k < |ids| && n !in ids && ids[k] in ids
    requires n in h'.mbufs && ids[k] in h'.mbufs && SameBufs(h, h') && len <= h.mbufs[ids[k]].len
    requires h'.mbufs == h.mbufs[n := h'.mbufs[n]][ids[k] := h.mbufs[ids[k]].(len := len, next := None)]
    requires WfMbuf(h, h.mbufs[ids[k]]) && WfMbuf(h', h'.mbufs[n])
      && Data(h', h'.mbufs[n]) == Data(h, h.mbufs[ids[k]])[len..]
    requires Live(h', ids[..k + 1]) && Live(h', [n] + ids[k + 1..])
    ensures CutInTwo(h, h', ids, k, len, [n] + ids[k + 1..])
  {
    var m, a, t := ids[k], ids[..k], ids[k + 1..];
    BytesAround(h, ids, k);
    LeftBytes(h, h', ids, k, len, n);
    RightBytes(h, h', ids, k, n);
    SliceAround(Bytes(h, ids), Bytes(h, a), Data(h, h.mbufs[m]), Bytes(h, t), len, |Bytes(h, ids[..k])| + len);
  }

  lemma {:induction false} LeftBytes(h: Heap, h': Heap, ids: seq<Ptr>, k: nat, len: nat, n: Ptr)
    requires Good(h) && Good(h') && Distinct(ids) && Live(h, ids) && k < |ids| && n !in ids && ids[k] in ids
    requires n in h'.mbufs && ids[k] in h'.mbufs && SameBufs(h, h') && len <= h.mbufs[ids[k]].len
      && WfMbuf(h, h.mbufs[ids[k]])
    requires h'.mbufs == h.mbufs[n := h'.mbufs[n]][ids[k] := h.mbufs[ids[k]].(len := len, next := None)]
    ensures Live(h, ids[..k]) && Live(h', ids[..k + 1])
    ensures Bytes(h', ids[..k + 1]) == Bytes(h, ids[..k]) + Data(h, h.mbufs[ids[k]])[..len]
  {
    assert Kept(h, h', ids[..k]);
    BytesWithLast(h, h', ids[..k], ids[k], len);
    assert ids[..k + 1] == ids[..k] + [ids[k]];
  }

  lemma {:induction false} RightBytes(h: Heap, h': Heap, ids: seq<Ptr>, k: nat, n: Ptr)
    requires Good(h) && Good(h') && Distinct(ids) && Live(h, ids) && k < |ids| && n !in ids && ids[k] in h'.mbufs
      && n in h'.mbufs && SameBufs(h, h')
    requires h'.mbufs == h.mbufs[n := h'.mbufs[n]][ids[k] := h'.mbufs[ids[k]]] && WfMbuf(h', h'.mbufs[n])
    ensures Live(h, ids[k + 1..]) && Live(h', [n] + ids[k + 1..])
    ensures Bytes(h', [n] + ids[k + 1..]) == Data(h', h'.mbufs[n]) + Bytes(h, ids[k + 1..])
  {
    assert Kept(h, h', ids[k + 1..]);
    BytesWithHead(h, h', n, ids[k + 1..]);
  }

  lemma {:induction false} BytesAround(h: Heap, ids: seq<Ptr>, k: nat)
    requires Good(h) && Live(h, ids) && k < |ids| && ids[k] in h.mbufs && WfMbuf(h, h.mbufs[ids[k]])
    ensures Live(h, ids[..k]) && Live(h, ids[k + 1..])
    ensures Bytes(h, ids) == Bytes(h, ids[..k]) + (Data(h, h.mbufs[ids[k]]) + Bytes(h, ids[k + 1..]))
  {
    assert ids == ids[..k] + ids[k..] && ids[k..][1..] == ids[k + 1..];
    BytesAppend(h, ids[..k], ids[k..]);
  }

  lemma {:induction false} BytesWithLast(h: Heap, h': Heap, a: seq<Ptr>, m: Ptr, len: nat)
    requires Good(h) && Good(h') && Kept(h, h', a) && m in h.mbufs && m in h'.mbufs && SameBufs(h, h')
    requires len <= h.mbufs[m].len && h'.mbufs[m] == h.mbufs[m].(len := len, next := h'.mbufs[m].next)
      && WfMbuf(h, h.mbufs[m])
    ensures Live(h', a + [m]) && Live(h, a) && Bytes(h', a + [m]) == Bytes(h, a) + Data(h, h.mbufs[m])[..len]
  {
    assert WfMbuf(h', h'.mbufs[m]);
    assert Data(h', h'.mbufs[m]) == Data(h, h.mbufs[m])[..len];
    BytesKept(h, h', a);
    assert Live(h', a + [m]) && Bytes(h', a + [m]) == Bytes(h', a) + Data(h', h'.mbufs[m]) by {
      BytesOne(h', m);
      BytesAppend(h', a, [m]);
    }
  }

  lemma {:induction false} BytesWithHead(h: Heap, h': Heap, n: Ptr, t: seq<Ptr>)
    requires Good(h) && Good(h') && Kept(h, h', t) && n in h'.mbufs && WfMbuf(h', h'.mbufs[n])
    ensures Live(h', [n] + t) && Live(h, t) && Bytes(h', [n] + t) == Data(h', h'.mbufs[n]) + Bytes(h, t)
  {
    BytesKept(h, h', t);
    BytesOne(h', n);
    BytesAppend(h', [n], t);
  }

  lemma {:induction false} CutLinks(h: Heap, h': Heap, ids: seq<Ptr>, k: nat, n: Ptr)
    requires IsChain(h, HeadOf(ids), ids) && k < |ids| && n !in ids && ids[k] in ids
    requires n in h'.mbufs && ids[k] in h'.mbufs && h'.mbufs[ids[k]].next == None
    requires h'.mbufs == h.mbufs[n := h'.mbufs[n]][ids[k] := h'.mbufs[ids[k]]]
    requires h'.mbufs[n].next == h.mbufs[ids[k]].next
    ensures IsChain(h', HeadOf(ids), ids[..k + 1]) && IsChain(h', Some(n), [n] + ids[k + 1..])
  {
    var left, right := ids[..k + 1], [n] + ids[k + 1..];
    forall i | 0 <= i < |left| ensures left[i] in h'.mbufs && h'.mbufs[left[i]].next == After(left, i, None) {
      assert h.mbufs[ids[i]].next == After(ids, i, None) && ids[i] in ids;
    }
    forall i | 0 <= i < |right| ensures right[i] in h'.mbufs && h'.mbufs[right[i]].next == After(right, i, None) {
      assert h.mbufs[ids[k + i]].next == After(ids, k + i, None) && ids[k + i] in ids;
    }
    assert Distinct(ids[k + 1..]);
  }

  /** Byte `len0` of the chain is byte `len` of its k-th mbuf `m`. */
  ghost predicate CutsAt(h: Heap, ids: seq<Ptr>, k: nat, m: Ptr, len0: nat, len: nat)
    requires Good(h)
  {
    k < |ids| && m == ids[k] && m in h.mbufs && len <= h.mbufs[m].len
    && Live(h, ids[..k]) && |Bytes(h, ids[..k])| + len == len0
  }

  /** Every mbuf of `s` is one of `ids` or new. */
  ghost predicate NoStrays(h: Heap, ids: seq<Ptr>, s: seq<Ptr>) {
    forall p :: p in s ==> p in ids || p !in h.mbufs
  }

  /** Every mbuf of `ids` is in one of the two chains, and every new mbuf is in the second. */
  ghost predicate NoLeaks(h: Heap, h': Heap, ids: seq<Ptr>, left: seq<Ptr>, right: seq<Ptr>) {
    && (forall p :: p in ids ==> p in left || p in right)
    && (forall p :: p in h'.mbufs && p !in h.mbufs ==> p in right)
  }

  /** Cut in two at `k`, with one new mbuf at most in between, nothing is lost. */
  lemma {:induction false} CutLosesNothing(h: Heap, h': Heap, ids: seq<Ptr>, k: nat, n: seq<Ptr>)
    requires k < |ids| && forall p :: p in h'.mbufs && p !in h.mbufs ==> p in n
    ensures NoLeaks(h, h', ids, ids[..k + 1], n + ids[k + 1..])
  {
    assert ids == ids[..k + 1] + ids[k + 1..];
  }

  /** The contract of a successful `m_split`. */
  ghost predicate SplitDone(h: Heap, h': Heap, ids: seq<Ptr>, len0: nat, n: Option<Ptr>, left: seq<Ptr>,
    right: seq<Ptr>)
    requires Good(h) && Live(h, ids)
  {
    && Good(h') && ids != [] && ids[0] in h.mbufs && ids[0] in h'.mbufs && len0 <= |Bytes(h, ids)|
    && IsChain(h', Some(ids[0]), left) && IsChain(h', n, right) && Disjoint(left, right)
    && NoStrays(h, ids, left) && NoStrays(h, ids, right) && NoLeaks(h, h', ids, left, right)
    && Bytes(h', left) == Bytes(h, ids)[..len0]
    && Bytes(h', right) == Bytes(h, ids)[len0..]
    && (h.mbufs[ids[0]].pkthdr.Some? ==>
          && h'.mbufs[ids[0]].pkthdr == Some(len0)
          && n.Some? && n.value in h'.mbufs
          && h'.mbufs[n.value].pkthdr == Some(h.mbufs[ids[0]].pkthdr.value - len0))
  }

  /** Where the first loop of `m_split` stops: the mbuf and the place in it, from the k-th mbuf on. */
  ghost function CutPlace(h: Heap, ids: seq<Ptr>, k: nat, len: nat): (r: Option<(nat, nat)>)
    requires Live(h, ids) && k <= |ids|
    ensures r.Some? ==> k <= r.value.0 < |ids| && ids[r.value.0] in h.mbufs && r.value.1 <= h.mbufs[ids[r.value.0]].len
    decreases |ids| - k
  {
    if k == |ids| then None else
    assert ids[k] in ids;
    if len <= h.mbufs[ids[k]].len then Some((k, len)) else CutPlace(h, ids, k + 1, len - h.mbufs[ids[k]].len)
  }

  /** The cut leaves bytes of its mbuf behind it. */
  ghost predicate CutsInside(h: Heap, ids: seq<Ptr>, len0: nat)
    requires Live(h, ids)
  {
    var p := CutPlace(h, ids, 0, len0);
    p.Some? && p.value.1 < h.mbufs[ids[p.value.0]].len
  }

  /** The cut falls in an mbuf without a cluster, with more behind it than a header mbuf can hold. */
  ghost predicate CutsDeep(h: Heap, ids: seq<Ptr>, len0: nat)
    requires Live(h, ids)
  {
    var p := CutPlace(h, ids, 0, len0);
    p.Some? && h.mbufs[ids[p.value.0]].ext.None? && h.mbufs[ids[p.value.0]].len - p.value.1 > MHLEN
  }

  /** A packet needs one mbuf, and a second one for a deep cut; other chains need one for a cut inside an mbuf. */
  ghost predicate SplitFails(h: Heap, ids: seq<Ptr>, len0: nat, memory: bool, memory2: bool)
    requires Live(h, ids) && ids != [] && ids[0] in h.mbufs
  {
    && CutPlace(h, ids, 0, len0).Some?
    && if h.mbufs[ids[0]].pkthdr.Some? then !memory || (CutsDeep(h, ids, len0) && !memory2)
       else CutsInside(h, ids, len0) && !memory
  }

  /** What a failed `m_split` leaves: the header of a packet was changed once the first mbuf was had. */
  ghost function AfterFailure(h: Heap, ids: seq<Ptr>, len0: nat, memory: bool): Heap
    requires ids != [] && ids[0] in h.mbufs
  {
    if h.mbufs[ids[0]].pkthdr.Some? && memory then Headed(h, ids[0], Some(len0)) else h
  }

  /**
   * Whichever allocation fails, the heap is as it was: exactly unless the cut is deep and the
   * header wrong after it.
   */
  lemma {:induction false} FailureRestoresExactly(h: Heap, ids: seq<Ptr>, len0: nat)
    requires Live(h, ids) && ids != [] && ids[0] in h.mbufs
    ensures
      (forall memory, memory2 :: SplitFails(h, ids, len0, memory, memory2) ==> AfterFailure(h, ids, len0, memory) == h)
      <==> h.mbufs[ids[0]].pkthdr in {None, Some(len0)} || !CutsDeep(h, ids, len0)
  {
    var h' := Headed(h, ids[0], Some(len0));
    if h.mbufs[ids[0]].pkthdr == Some(len0) {
      assert h'.mbufs == h.mbufs;
    } else if h.mbufs[ids[0]].pkthdr.Some? {
      assert h'.mbufs[ids[0]] != h.mbufs[ids[0]];
      assert SplitFails(h, ids, len0, true, false) <==> CutsDeep(h, ids, len0);
    }
  }

  /** A packet of two mbufs, cut behind the first byte of the second. */
  function TwoMbufs(): Heap {
    var dat := seq(MLEN, _ => 0);
    Heap(map[0 := Mbuf(Some(1), PKTDAT, 10, Some(226), None, dat), 1 := Mbuf(None, 0, MLEN, None, None, dat)], map[])
  }

  /** There the second allocation fails after the header of the packet was changed. */
  lemma {:induction false} FailureLeavesTrace()
    ensures Good(TwoMbufs()) && IsChain(TwoMbufs(), Some(0), [0, 1])
    ensures CutsDeep(TwoMbufs(), [0, 1], 11) && SplitFails(TwoMbufs(), [0, 1], 11, true, false)
    ensures AfterFailure(TwoMbufs(), [0, 1], 11, true) != TwoMbufs()
  {
    var h, ids := TwoMbufs(), [0, 1];
    assert CutPlace(h, ids, 1, 1) == Some((1, 1));
    assert CutPlace(h, ids, 0, 11) == Some((1, 1));
    assert Headed(h, 0, Some(11)).mbufs[0] != h.mbufs[0];
  }

  /** `h` with another length in the packet header of `m`. */
  function Headed(h: Heap, m: Ptr, pkthdr: Option<int>): Heap {
    if m in h.mbufs then h.(mbufs := h.mbufs[m := h.mbufs[m].(pkthdr := pkthdr)]) else h
  }

  /** Without the link behind the k-th mbuf there are two chains. */
  lemma {:induction false} CutBehind(h: Heap, h': Heap, ids: seq<Ptr>, k: nat)
    requires Good(h) && ids != [] && IsChain(h, Some(ids[0]), ids) && k < |ids| && ids[k] in h.mbufs
    requires h' == h.(mbufs := h.mbufs[ids[k] := h.mbufs[ids[k]].(next := None)])
    ensures IsChain(h', Some(ids[0]), ids[..k + 1]) && IsChain(h', h.mbufs[ids[k]].next, ids[k + 1..])
    ensures Disjoint(ids[..k + 1], ids[k + 1..])
  {
    var left, right := ids[..k + 1], ids[k + 1..];
    PartsDisjoint(ids, k + 1);
    ChainFrom(h, Some(ids[0]), ids, k + 1);
    assert h.mbufs[ids[k]].next == After(ids, k, None);
    forall i | 0 <= i < |left| ensures h'.mbufs[left[i]].next == After(left, i, None) {
      assert h.mbufs[ids[i]].next == After(ids, i, None);
    }
    assert ids[k] in left;
    assert forall i {:trigger After(right, i, None)} :: 0 <= i < |right| ==> right[i] in right;
  }

  lemma {:induction false} CutAfter(h: Heap, h': Heap, ids: seq<Ptr>, k: nat, len0: nat)
    requires Good(h) && ids != [] && IsChain(h, Some(ids[0]), ids) && k < |ids| && ids[k] in ids && ids[0] in h.mbufs
    requires h.mbufs[ids[0]].pkthdr.None? && CutsAt(h, ids, k, ids[k], len0, h.mbufs[ids[k]].len)
    requires Good(h') && h' == h.(mbufs := h.mbufs[ids[k] := h.mbufs[ids[k]].(next := None)])
    ensures SplitDone(h, h', ids, len0, h.mbufs[ids[k]].next, ids[..k + 1], ids[k + 1..])
    ensures Untouched(h, h', ids)
  {
    var left, right := ids[..k + 1], ids[k + 1..];
    StepBytes(h, ids, k);
    CutBehind(h, h', ids, k);
    ChainFrom(h, Some(ids[0]), ids, k + 1);
    BytesRelinked(h, ids[k], None, left);
    BytesRelinked(h, ids[k], None, right);
    assert NoLeaks(h, h', ids, left, right) by {
      CutLosesNothing(h, h', ids, k, []);
      assert [] + right == right;
    }
  }

  lemma {:induction false} PartsDisjoint(ids: seq<Ptr>, k: nat)
    requires Distinct(ids) && k <= |ids|
    ensures Disjoint(ids[..k], ids[k..])
  {
    forall p | p in ids[..k] ensures p !in ids[k..] {
      var i :| 0 <= i < k && ids[i] == p;
      forall j | 0 <= j < |ids[k..]| ensures ids[k..][j] != p {
        assert ids[k..][j] == ids[k + j];
      }
    }
  }

  /** A new mbuf in front of the second part: the parts are disjoint and have no strays. */
  lemma {:induction false} NewHeadApart(h: Heap, ids: seq<Ptr>, k: nat, n: Ptr)
    requires Distinct(ids) && k <= |ids| && n !in ids && n !in h.mbufs
    ensures Disjoint(ids[..k], [n] + ids[k..]) && NoStrays(h, ids, ids[..k]) && NoStrays(h, ids, [n] + ids[k..])
  {
    PartsDisjoint(ids, k);
  }

  lemma {:induction false} CutDone(h: Heap, h1: Heap, h': Heap, ids: seq<Ptr>, k: nat, m: Ptr, len0: nat, len: nat,
    n: Ptr)
    requires Good(h) && Good(h1) && Good(h') && ids != [] && IsChain(h, Some(ids[0]), ids)
      && CutsAt(h, ids, k, m, len0, len)
    requires n !in h.mbufs && n in h1.mbufs && h1.clusters == h.clusters && h1.mbufs == h.mbufs[n := h1.mbufs[n]]
    requires ids[0] in h.mbufs && h.mbufs[ids[0]].pkthdr.None? && n !in ids
    requires Live(h1, ids) && IsChain(h', Some(ids[0]), ids[..k + 1]) && IsChain(h', Some(n), [n] + ids[k + 1..])
    requires CutInTwo(h1, h', ids, k, len, [n] + ids[k + 1..]) && Untouched(h1, h', [n, m])
      && h'.mbufs.Keys == h1.mbufs.Keys
    requires m in h'.mbufs && m in h1.mbufs && h'.mbufs[m].pkthdr == h1.mbufs[m].pkthdr
    ensures SplitDone(h, h', ids, len0, Some(n), ids[..k + 1], [n] + ids[k + 1..])
    ensures Untouched(h, h', ids) && ids[0] in h'.mbufs && h'.mbufs[ids[0]].pkthdr.None?
  {
    assert m in ids;
    assert Bytes(h1, ids) == Bytes(h, ids) by {
      assert Kept(h, h1, ids);
      BytesKept(h, h1, ids);
    }
    assert Live(h1, ids[..k]) && Bytes(h1, ids[..k]) == Bytes(h, ids[..k]) by {
      assert Kept(h, h1, ids[..k]);
      BytesKept(h, h1, ids[..k]);
    }
    NewHeadApart(h, ids, k + 1, n);
    assert NoLeaks(h, h', ids, ids[..k + 1], [n] + ids[k + 1..]) by { CutLosesNothing(h, h', ids, k, [n]); }
    assert Untouched(h, h', ids) by {
      forall p | p in h.mbufs && p !in ids ensures p in h'.mbufs && h'.mbufs[p] == h.mbufs[p] {
        assert p != n && p !in [n, m] && p in h1.mbufs;
      }
    }
    assert ids[0] != m ==> ids[0] !in [n, m] by { assert ids[0] in ids; }
  }

  /** `h1` is `h` with the header mbuf `n` added and the length of `m0` set. */
  ghost predicate WithHeader(h: Heap, h1: Heap, m0: Ptr, len0: nat, n: Ptr) {
    && m0 in h.mbufs && h.mbufs[m0].pkthdr.Some? && n !in h.mbufs && n in h1.mbufs
    && h1 == h.(mbufs := h.mbufs[m0 := h.mbufs[m0].(pkthdr := Some(len0))][n := h1.mbufs[n]])
    && h1.mbufs[n].len == 0 && h1.mbufs[n].pkthdr == Some(h.mbufs[m0].pkthdr.value - len0)
  }

  lemma {:induction false} HeaderKeepsBytes(h: Heap, h1: Heap, m0: Ptr, len0: nat, n: Ptr, ids: seq<Ptr>)
    requires Good(h) && Good(h1) && WithHeader(h, h1, m0, len0, n) && Live(h, ids) && n !in ids
    ensures Live(h1, ids) && Bytes(h1, ids) == Bytes(h, ids)
    decreases |ids|
  {
    if ids != [] {
      assert ids[0] in ids;
      HeaderKeepsBytes(h, h1, m0, len0, n, ids[1..]);
    }
  }

  lemma {:induction false} HeaderKeepsCut(h: Heap, h1: Heap, ids: seq<Ptr>, n: Ptr, k: nat, m: Ptr, len0: nat, len: nat)
    requires Good(h) && Good(h1) && ids != [] && IsChain(h, Some(ids[0]), ids) && WithHeader(h, h1, ids[0], len0, n)
      && n !in ids
    requires CutsAt(h, ids, k, m, len0, len)
    ensures IsChain(h1, Some(ids[0]), ids) && Bytes(h1, ids) == Bytes(h, ids) && CutsAt(h1, ids, k, m, len0, len)
  {
    HeaderKeepsBytes(h, h1, ids[0], len0, n, ids);
    HeaderKeepsBytes(h, h1, ids[0], len0, n, ids[..k]);
    assert m in ids;
    forall i | 0 <= i < |ids| ensures h1.mbufs[ids[i]].next == After(ids, i, None) {
      assert h.mbufs[ids[i]].next == After(ids, i, None) && ids[i] in ids;
    }
  }

  lemma {:induction false} PacketCut(h: Heap, h1: Heap, h2: Heap, h': Heap, ids: seq<Ptr>, k: nat, m: Ptr, len0: nat,
    len: nat, n: Ptr)
    requires Good(h) && Good(h1) && Good(h2) && Good(h') && ids != [] && IsChain(h, Some(ids[0]), ids)
    requires WithHeader(h, h1, ids[0], len0, n) && n !in ids && Live(h1, ids) && Bytes(h1, ids) == Bytes(h, ids)
    requires CutsAt(h1, ids, k, m, len0, len) && n in h2.mbufs && h2 == h1.(mbufs := h1.mbufs[n := h2.mbufs[n]])
    requires h2.mbufs[n].pkthdr == h1.mbufs[n].pkthdr && Live(h2, ids)
    requires IsChain(h', Some(ids[0]), ids[..k + 1]) && IsChain(h', Some(n), [n] + ids[k + 1..])
    requires CutInTwo(h2, h', ids, k, len, [n] + ids[k + 1..]) && Untouched(h2, h', [n, m])
      && h'.mbufs.Keys == h2.mbufs.Keys
    requires n in h'.mbufs && m in h'.mbufs && m in h2.mbufs
    requires h'.mbufs[n].pkthdr == h2.mbufs[n].pkthdr && h'.mbufs[m].pkthdr == h2.mbufs[m].pkthdr
    ensures SplitDone(h, h', ids, len0, Some(n), ids[..k + 1], [n] + ids[k + 1..])
    ensures Untouched(h, h', ids) && ids[0] in h'.mbufs
  {
    var m0 := ids[0];
    assert m in ids && m0 in ids;
    assert Bytes(h2, ids) == Bytes(h1, ids) by {
      assert Kept(h1, h2, ids);
      BytesKept(h1, h2, ids);
    }
    assert Live(h2, ids[..k]) && Bytes(h2, ids[..k]) == Bytes(h1, ids[..k]) by {
      assert Kept(h1, h2, ids[..k]);
      BytesKept(h1, h2, ids[..k]);
    }
    NewHeadApart(h, ids, k + 1, n);
    assert NoLeaks(h, h', ids, ids[..k + 1], [n] + ids[k + 1..]) by { CutLosesNothing(h, h', ids, k, [n]); }
    assert m0 != m ==> h'.mbufs[m0] == h2.mbufs[m0] by { assert m0 != m ==> m0 !in [n, m]; }
    assert Untouched(h, h', ids) by {
      forall p | p in h.mbufs && p !in ids ensures p in h'.mbufs && h'.mbufs[p] == h.mbufs[p] {
        assert p != n && p !in [n, m] && p in h2.mbufs;
      }
    }
  }

  /** The chain from the k-th mbuf on, which has no header and is cut inside that mbuf. */
  lemma {:induction false} DeepPlace(h1: Heap, h2: Heap, ids: seq<Ptr>, k: nat, m0: Ptr, n: Ptr, len: nat)
    requires Good(h1) && Good(h2) && IsChain(h1, Some(m0), ids) && k < |ids| && ids[k] in h2.mbufs && n !in ids
    requires n in h2.mbufs && h2.clusters == h1.clusters && h2.mbufs == h1.mbufs[n := h2.mbufs[n]]
    requires h2.mbufs[ids[k]].ext.None? && h2.mbufs[ids[k]].len - len > MHLEN
    ensures IsChain(h2, Some(m0), ids) && IsChain(h2, Some(ids[k]), ids[k..]) && n !in ids[k..] && m0 in ids
    ensures len < |Bytes(h2, ids[k..])| && h2.mbufs[ids[k]].pkthdr.None?
    ensures CutPlace(h2, ids[k..], 0, len) == Some((0, len)) && CutsInside(h2, ids[k..], len)
  {
    assert ids[k] in ids && WfMbuf(h2, h2.mbufs[ids[k]]);
    SegmentKept(h1, h2, Some(m0), ids, None);
    ChainFrom(h2, Some(m0), ids, k);
    HeadBytes(h2, ids[k..]);
  }

  lemma {:induction false} DeepChains(h2: Heap, h3: Heap, ids: seq<Ptr>, k: nat, m: Ptr, len: nat, n: Ptr,
    tail: Option<Ptr>, l: seq<Ptr>, r: seq<Ptr>)
    requires Good(h2) && Good(h3) && k < |ids| && m == ids[k] && IsChain(h2, HeadOf(ids), ids) && Live(h2, ids[k..])
    requires SplitDone(h2, h3, ids[k..], len, tail, l, r) && Untouched(h2, h3, ids[k..])
    requires n in h2.mbufs && n !in ids
    ensures n in h3.mbufs && h3.mbufs[n] == h2.mbufs[n] && Segment(h3, Some(n), [n], h3.mbufs[n].next)
    ensures n !in l && n !in r && Distinct([n] + r)
    ensures Live(h2, ids[..k]) && Live(h3, ids[..k]) && Bytes(h3, ids[..k]) == Bytes(h2, ids[..k])
    ensures Kept(h2, h3, ids[..k])
  {
    PartsDisjoint(ids, k);
    assert forall p :: p in ids[..k] ==> p in ids;
    BytesKept(h2, h3, ids[..k]);
  }

  lemma {:induction false} ConcatChain(h: Heap, a: seq<Ptr>, b: seq<Ptr>)
    requires Links(h, a, HeadOf(b)) && Links(h, b, None) && Distinct(a + b)
    ensures IsChain(h, HeadOf(a + b), a + b)
  {
    var all := a + b;
    forall i | 0 <= i < |all| ensures h.mbufs[all[i]].next == After(all, i, None) {
      if i < |a| {
        assert h.mbufs[a[i]].next == After(a, i, HeadOf(b));
      } else {
        assert h.mbufs[b[i - |a|]].next == After(b, i - |a|, None);
      }
    }
  }

  lemma {:induction false} PrefixLinks(h: Heap, h': Heap, ids: seq<Ptr>, k: nat)
    requires IsChain(h, HeadOf(ids), ids) && k < |ids| && Kept(h, h', ids[..k])
    ensures Links(h', ids[..k], Some(ids[k]))
  {
    var a := ids[..k];
    forall i | 0 <= i < |a| ensures h'.mbufs[a[i]].next == After(a, i, Some(ids[k])) {
      assert h.mbufs[ids[i]].next == After(ids, i, None) && a[i] in a;
    }
  }

  lemma {:induction false} DeepDone(h: Heap, h1: Heap, h2: Heap, h3: Heap, h': Heap, ids: seq<Ptr>, k: nat, m: Ptr,
    len0: nat, len: nat, n: Ptr,
                 tail: Option<Ptr>, l: seq<Ptr>, r: seq<Ptr>)
    requires Good(h) && Good(h1) && Good(h2) && Good(h3) && Good(h') && ids != [] && IsChain(h, Some(ids[0]), ids)
    requires WithHeader(h, h1, ids[0], len0, n) && n !in ids && Live(h1, ids) && Bytes(h1, ids) == Bytes(h, ids)
      && CutsAt(h1, ids, k, m, len0, len)
    requires n in h2.mbufs && h2 == h1.(mbufs := h1.mbufs[n := h1.mbufs[n].(data := h2.mbufs[n].data)])
    requires IsChain(h2, Some(ids[0]), ids) && m != ids[0] && Live(h2, ids[k..])
    requires SplitDone(h2, h3, ids[k..], len, tail, l, r) && Untouched(h2, h3, ids[k..])
    requires n in h3.mbufs && h3.mbufs[n] == h2.mbufs[n] && n !in l && n !in r && Kept(h2, h3, ids[..k])
    requires h'.clusters == h3.clusters && h'.mbufs == h3.mbufs[n := h3.mbufs[n].(next := tail)]
    requires IsChain(h', Some(n), [n] + r) && Live(h3, [n]) && Live(h3, r)
      && Bytes(h', [n] + r) == Bytes(h3, [n]) + Bytes(h3, r)
    ensures SplitDone(h, h', ids, len0, Some(n), ids[..k] + l, [n] + r)
    ensures Untouched(h, h', ids) && ids[0] in h'.mbufs
  {
    DeepBytes(h1, h2, h3, h', ids, k, m, len0, len, n, tail, l, r);
    DeepLeft(h1, h2, h3, h', ids, k, m, n, l);
    DeepFrame(h, h1, h2, h3, h', ids, k, len0, n, l, r);
  }

  /** The two parts are apart, hold no stranger, and everything outside the chain is as it was. */
  lemma {:induction false} DeepFrame(h: Heap, h1: Heap, h2: Heap, h3: Heap, h': Heap, ids: seq<Ptr>, k: nat, len0: nat,
    n: Ptr, l: seq<Ptr>, r: seq<Ptr>)
    requires 0 < k < |ids| && Distinct(ids) && Live(h2, ids) && WithHeader(h, h1, ids[0], len0, n) && n !in ids
    requires n in h2.mbufs && h2 == h1.(mbufs := h1.mbufs[n := h2.mbufs[n]])
    requires Untouched(h2, h3, ids[k..]) && NoStrays(h2, ids[k..], l) && NoStrays(h2, ids[k..], r) && Disjoint(l, r)
    requires n in h3.mbufs && n !in l && n !in r && Kept(h2, h3, ids[..k])
    requires n in h'.mbufs && h'.clusters == h3.clusters && h'.mbufs == h3.mbufs[n := h'.mbufs[n]]
    ensures NoStrays(h, ids, ids[..k] + l) && NoStrays(h, ids, [n] + r) && Disjoint(ids[..k] + l, [n] + r)
    ensures Untouched(h, h', ids) && ids[0] in h'.mbufs && ids[0] in h2.mbufs && h'.mbufs[ids[0]] == h2.mbufs[ids[0]]
  {
    PartsDisjoint(ids, k);
    assert ids[0] == ids[..k][0] && ids[0] in ids[..k];
    assert forall p :: p in ids[k..] ==> p in ids;
    assert forall p :: p in ids[..k] ==> p in ids;
    assert NoStrays(h, ids, l) && NoStrays(h, ids, r) by {
      assert forall p :: p in h.mbufs ==> p in h2.mbufs;
    }
    assert Disjoint(ids[..k] + l, [n] + r) by {
      assert forall p :: p in ids[..k] ==> p in h2.mbufs && p !in ids[k..];
    }
    forall p | p in h.mbufs && p !in ids ensures p in h'.mbufs && h'.mbufs[p] == h.mbufs[p] {
      assert p != n && p !in ids[k..] && p in h2.mbufs;
    }
  }

  lemma {:induction false} DeepLeft(h1: Heap, h2: Heap, h3: Heap, h': Heap, ids: seq<Ptr>, k: nat, m: Ptr, n: Ptr,
    l: seq<Ptr>)
    requires k < |ids| && m == ids[k] && n !in ids && n !in l && n in h3.mbufs
    requires IsChain(h2, HeadOf(ids), ids) && Kept(h2, h3, ids[..k])
    requires IsChain(h3, Some(m), l) && NoStrays(h2, ids[k..], l)
    requires n in h'.mbufs && h'.clusters == h3.clusters && h'.mbufs == h3.mbufs[n := h'.mbufs[n]]
    ensures IsChain(h', HeadOf(ids), ids[..k] + l)
  {
    var a := ids[..k];
    PrefixLinks(h2, h3, ids, k);
    PartsDisjoint(ids, k);
    assert forall p :: p in a ==> p in h2.mbufs;
    DistinctJoin(a, l);
    ConcatChain(h3, a, l);
    assert n !in a + l;
    forall i | 0 <= i < |a + l| ensures h'.mbufs[(a + l)[i]].next == After(a + l, i, None) {
      assert h3.mbufs[(a + l)[i]].next == After(a + l, i, None) && (a + l)[i] in a + l;
    }
    assert HeadOf(a + l) == HeadOf(ids);
  }

  lemma {:induction false} DeepBytes(h1: Heap, h2: Heap, h3: Heap, h': Heap, ids: seq<Ptr>, k: nat, m: Ptr, len0: nat,
    len: nat, n: Ptr,
                  tail: Option<Ptr>, l: seq<Ptr>, r: seq<Ptr>)
    requires Good(h1) && Good(h2) && Good(h3) && Good(h') && Live(h1, ids) && CutsAt(h1, ids, k, m, len0, len)
      && n !in ids
    requires n in h1.mbufs && h1.mbufs[n].len == 0 && n in h2.mbufs
    requires h2 == h1.(mbufs := h1.mbufs[n := h1.mbufs[n].(data := h2.mbufs[n].data)])
    requires Live(h2, ids[k..]) && len <= |Bytes(h2, ids[k..])| && Live(h3, l) && Live(h3, r)
    requires Bytes(h3, l) == Bytes(h2, ids[k..])[..len] && Bytes(h3, r) == Bytes(h2, ids[k..])[len..]
    requires n in h3.mbufs && h3.mbufs[n] == h2.mbufs[n] && n !in l && Kept(h2, h3, ids[..k])
    requires h'.clusters == h3.clusters && h'.mbufs == h3.mbufs[n := h3.mbufs[n].(next := tail)]
    requires Live(h', [n] + r) && Live(h3, [n]) && Live(h3, r) && Bytes(h', [n] + r) == Bytes(h3, [n]) + Bytes(h3, r)
    ensures Live(h', ids[..k] + l) && len0 <= |Bytes(h1, ids)|
    ensures Bytes(h', ids[..k] + l) == Bytes(h1, ids)[..len0]
    ensures Bytes(h', [n] + r) == Bytes(h1, ids)[len0..]
  {
    var a, t := ids[..k], ids[k..];
    BytesCut(h1, ids, k);
    BytesElsewhere(h1, h2, n, ids, k);
    assert Bytes(h', a + l) == Bytes(h2, a) + Bytes(h3, l) && Live(h', a + l) by {
      assert n !in a;
      DeepLeftBytes(h2, h3, h', a, n, l);
    }
    assert Bytes(h3, [n]) == [];
    Halves(Bytes(h1, ids), Bytes(h1, a), Bytes(h1, t), Bytes(h3, l), Bytes(h3, r), Bytes(h', a + l),
      Bytes(h', [n] + r), len, len0);
  }

  /** Changing one mbuf changes no bytes of a chain that it is not in. */
  lemma {:induction false} BytesElsewhere(h1: Heap, h2: Heap, n: Ptr, ids: seq<Ptr>, k: nat)
    requires Good(h1) && Good(h2) && Live(h1, ids) && n !in ids && k <= |ids|
    requires n in h2.mbufs && h2.clusters == h1.clusters && h2.mbufs == h1.mbufs[n := h2.mbufs[n]]
    ensures Live(h1, ids[..k]) && Live(h1, ids[k..]) && Live(h2, ids[..k]) && Live(h2, ids[k..])
    ensures Bytes(h2, ids[..k]) == Bytes(h1, ids[..k]) && Bytes(h2, ids[k..]) == Bytes(h1, ids[k..])
  {
    assert Kept(h1, h2, ids[..k]) && Kept(h1, h2, ids[k..]);
    BytesKept(h1, h2, ids[..k]);
    BytesKept(h1, h2, ids[k..]);
  }

  lemma {:induction false} BytesCut(h: Heap, ids: seq<Ptr>, k: nat)
    requires Good(h) && Live(h, ids) && k <= |ids|
    ensures Live(h, ids[..k]) && Live(h, ids[k..]) && Bytes(h, ids) == Bytes(h, ids[..k]) + Bytes(h, ids[k..])
  {
    assert ids == ids[..k] + ids[k..];
    BytesAppend(h, ids[..k], ids[k..]);
  }

  lemma {:induction false} Halves(b: seq<byte>, a: seq<byte>, t: seq<byte>, lt: seq<byte>, rt: seq<byte>,
    left: seq<byte>, right: seq<byte>, len: nat, at: nat)
    requires b == a + t && len <= |t| && lt == t[..len] && rt == t[len..] && left == a + lt && right == [] + rt
      && at == |a| + len
    ensures at <= |b| && left == b[..at] && right == b[at..]
  {
  }

  lemma {:induction false} DeepLeftBytes(h2: Heap, h3: Heap, h': Heap, a: seq<Ptr>, n: Ptr, l: seq<Ptr>)
    requires Good(h2) && Good(h3) && Good(h') && n !in a && n !in l && Kept(h2, h3, a) && Live(h3, l)
    requires n in h'.mbufs && h'.clusters == h3.clusters && h'.mbufs == h3.mbufs[n := h'.mbufs[n]]
    ensures Live(h2, a) && Live(h', a + l) && Bytes(h', a + l) == Bytes(h2, a) + Bytes(h3, l)
  {
    assert Live(h', a) && Live(h2, a) && Bytes(h', a) == Bytes(h2, a) by { BytesKept(h2, h', a); }
    assert Live(h', l) && Bytes(h', l) == Bytes(h3, l) by { BytesKept(h3, h', l); }
    BytesAppend(h', a, l);
  }

  // ------------------------------------------------------- lemmas on m_copym

  /** `h'` has the mbufs of `h` and those of `copy`, which are new. */
  ghost predicate Grown(h: Heap, h': Heap, copy: seq<Ptr>) {
    && (forall p :: p in copy ==> p !in h.mbufs && p in h'.mbufs)
    && (forall p :: p in h'.mbufs ==> p in h.mbufs || p in copy)
  }

  lemma {:induction false} TailBytes(h: Heap, ids: seq<Ptr>, k: nat)
    requires Good(h) && IsChain(h, HeadOf(ids), ids) && k <= |ids|
    ensures Live(h, ids[k..])
    ensures k == |ids| ==> Bytes(h, ids[k..]) == []
    ensures k < |ids| ==>
      && ids[k] in h.mbufs && WfMbuf(h, h.mbufs[ids[k]]) && Live(h, ids[k + 1..])
      && Bytes(h, ids[k..]) == Data(h, h.mbufs[ids[k]]) + Bytes(h, ids[k + 1..])
      && h.mbufs[ids[k]].next == HeadOf(ids[k + 1..])
  {
    if k < |ids| {
      assert ids[k] in ids && WfMbuf(h, h.mbufs[ids[k]]);
      assert ids[k..][1..] == ids[k + 1..];
      assert After(ids, k, None) == HeadOf(ids[k + 1..]);
    }
  }

  lemma {:induction false} WantedFrom(b: seq<byte>, c: seq<byte>, off0: nat, off: nat, len: nat)
    requires off0 <= |b| && off <= |c| && b[off0..] == c[off..]
    ensures Wanted(b, off0, len) == Wanted(c, off, len)
  {
    assert |b| - off0 == |c| - off;
    if len != M_COPYALL {
      var n := Min(len, |b| - off0);
      assert b[off0..off0 + n] == b[off0..][..n] && c[off..off + n] == c[off..][..n];
    }
  }

  lemma {:induction false} CopyUndone(h: Heap, h1: Heap, h': Heap, copy: seq<Ptr>)
    requires Good(h) && Good(h') && Untouched(h, h1, []) && Grown(h, h1, copy)
    requires h'.mbufs == h1.mbufs - (set x | x in copy) && SameBufs(h1, h')
    ensures h' == h
  {
    assert h'.mbufs.Keys == h.mbufs.Keys;
    assert h'.mbufs == h.mbufs;
    GoodDetermined(h, h');
  }

  lemma {:induction false} CopyGrows(h: Heap, h1: Heap, h2: Heap, top: Option<Ptr>, copy: seq<Ptr>, n: Ptr)
    requires Good(h1) && Good(h2) && Untouched(h, h1, []) && Grown(h, h1, copy) && IsChain(h1, top, copy)
    requires n !in h1.mbufs && n in h2.mbufs && h2.mbufs == h1.mbufs[n := h2.mbufs[n]] && Untouched(h1, h2, [])
    requires h2.mbufs[n].next == None
    ensures IsChain(h2, top, copy) && Bytes(h2, copy) == Bytes(h1, copy)
    ensures IsChain(h2, Some(n), [n]) && Distinct(copy + [n]) && n !in copy
    ensures Untouched(h, h2, []) && Grown(h, h2, copy + [n])
  {
    assert n !in copy;
    SegmentKept(h1, h2, top, copy, None);
    DistinctJoin(copy, [n]);
  }

  /** An mbuf without data, fresh from the allocator. */
  predicate Blank(m: Mbuf) {
    m.next == None && m.len == 0 && m.ext == None && m.data == if m.pkthdr.Some? then PKTDAT else 0
  }

  /** The packet header that the first mbuf of a copy of `m` gets. */
  function CopiedHeader(m: Mbuf, len: nat, copyhdr: bool): Option<int>
    requires copyhdr ==> m.pkthdr.Some?
  {
    if copyhdr then Some(if len == M_COPYALL then m.pkthdr.value else len) else None
  }

  /** Where the first loop of `m_copym` stops: the mbuf and the offset in it, from the k-th mbuf on. */
  ghost function SkipPlace(h: Heap, ids: seq<Ptr>, k: nat, off: nat): (r: (nat, nat))
    requires Live(h, ids) && k <= |ids|
    ensures k <= r.0 <= |ids|
    decreases |ids| - k
  {
    if off == 0 || k == |ids| then (k, off) else
    assert ids[k] in ids;
    if off < h.mbufs[ids[k]].len then (k, off) else SkipPlace(h, ids, k + 1, off - h.mbufs[ids[k]].len)
  }

  /** The bytes that mbuf `m` supplies from `off` on when `len` are asked for. */
  function Supply(h: Heap, m: Ptr, off: nat, len: nat): nat
    requires m in h.mbufs
  {
    Min(len, Max(0, h.mbufs[m].len - off))
  }

  /** How many mbufs the second loop copies, each with an allocation. */
  ghost function Turns(h: Heap, ids: seq<Ptr>, k: nat, off: nat, len: nat): nat
    requires Live(h, ids) && k <= |ids|
    decreases |ids| - k
  {
    if len == 0 || k == |ids| then 0 else
    assert ids[k] in ids;
    1 + Turns(h, ids, k + 1, 0, Less(len, Supply(h, ids[k], off, len)))
  }

  lemma {:induction false} TurnsStep(h: Heap, ids: seq<Ptr>, k: nat, off: nat, len: nat, count: nat)
    requires Live(h, ids) && k < |ids| && ids[k] in h.mbufs && count == Min(len, h.mbufs[ids[k]].len - off)
    ensures len > 0 ==> Turns(h, ids, k, off, len) == 1 + Turns(h, ids, k + 1, 0, Less(len, count))
  {
  }

  /** The mbufs that a copy needs: one for each mbuf from the one at `off0` on until `len0` bytes are had. */
  ghost function Needed(h: Heap, ids: seq<Ptr>, off0: nat, len0: nat): nat
    requires Live(h, ids)
  {
    var (k, off) := SkipPlace(h, ids, 0, off0);
    Turns(h, ids, k, off, len0)
  }

  lemma {:induction false} Skipped(b: seq<byte>, d: seq<byte>, t: seq<byte>, off: nat)
    requires b == d + t && |d| <= off <= |b|
    ensures off - |d| <= |t| && b[off..] == t[off - |d|..]
  {
  }

  /** One of the first `n` allocations is among the lost ones. */
  predicate Hits(lost: set<nat>, n: nat) {
    exists j :: j in lost && j < n
  }

  lemma {:induction false} HitsNext(lost: set<nat>, turn: nat, n: nat)
    ensures Hits(lost, turn + 1) <==> Hits(lost, turn) || turn in lost
    ensures turn in lost && turn < n ==> Hits(lost, n)
  {
  }

  /** What is still asked for after `count` bytes. */
  function Less(len: nat, count: nat): nat
    requires count <= len
  {
    if len == M_COPYALL then len else len - count
  }

  /** Mbuf `n` holds the `count` bytes that `m` holds from `off` on. */
  ghost predicate Piece(h: Heap, h': Heap, m: Ptr, n: Ptr, off: nat, count: nat) {
    && m in h.mbufs && n in h'.mbufs && WfMbuf(h, h.mbufs[m]) && WfMbuf(h', h'.mbufs[n])
    && off + count <= h.mbufs[m].len
    && Data(h', h'.mbufs[n]) == Data(h, h.mbufs[m])[off..off + count]
  }

  lemma {:induction false} SharedPiece(h: Heap, h': Heap, m: Ptr, n: Ptr, off: nat, count: nat)
    requires Good(h) && Good(h') && m in h.mbufs && n in h.mbufs && WfMbuf(h, h.mbufs[m])
    requires h.mbufs[m].ext.Some? && off + count <= h.mbufs[m].len
    requires h' == Shared(h, n, h.mbufs[m].ext.value, h.mbufs[m].data + off, count)
    ensures Piece(h, h', m, n, off, count)
  {
    assert WfMbuf(h', h'.mbufs[n]);
    SliceOfSlice(Store(h, h.mbufs[m]), h.mbufs[m].data, h.mbufs[m].len, off, count);
  }

  lemma {:induction false} SliceOfSlice(s: seq<byte>, data: nat, len: nat, off: nat, count: nat)
    requires data + len <= |s| && off + count <= len
    ensures s[data + off..data + off + count] == s[data..data + len][off..off + count]
  {
    var d := s[data..data + len];
    var a, b := s[data + off..data + off + count], d[off..off + count];
    assert |a| == |b| == count;
    forall i | 0 <= i < count ensures a[i] == b[i] {
      assert b[i] == d[off + i] == s[data + (off + i)];
    }
  }

  lemma {:induction false} StillThere(h: Heap, h1: Heap, m: Ptr)
    requires Good(h) && Good(h1) && Untouched(h, h1, []) && m in h.mbufs
    ensures m in h1.mbufs && h1.mbufs[m] == h.mbufs[m] && WfMbuf(h, h.mbufs[m]) && WfMbuf(h1, h.mbufs[m])
    ensures Data(h1, h.mbufs[m]) == Data(h, h.mbufs[m])
  {
    assert WfMbuf(h, h.mbufs[m]) && WfMbuf(h1, h1.mbufs[m]);
  }

  lemma {:induction false} PieceOfOriginal(h: Heap, h1: Heap, h2: Heap, h3: Heap, m: Ptr, n: Ptr, off: nat, count: nat)
    requires Good(h) && Good(h1) && Good(h2) && Untouched(h, h1, []) && m in h.mbufs
    requires h2.clusters == h1.clusters && m in h1.mbufs && m in h2.mbufs && h2.mbufs[m] == h1.mbufs[m]
    requires Piece(h2, h3, m, n, off, count)
    ensures Piece(h, h3, m, n, off, count)
  {
    StillThere(h, h1, m);
  }

  /**
   * The state of `m_copym` before its k-th mbuf: the copy so far, followed by what is asked of
   * the mbufs still to come, makes the bytes wanted.
   */
  ghost predicate Copying(h: Heap, h': Heap, ids: seq<Ptr>, k: nat, off: nat, len: nat, top: Option<Ptr>,
    copy: seq<Ptr>, want: seq<byte>)
    requires Good(h) && IsChain(h, HeadOf(ids), ids)
  {
    && Good(h') && Untouched(h, h', []) && Grown(h, h', copy) && IsChain(h', top, copy)
    && k <= |ids| && Live(h, ids[k..]) && off <= |Bytes(h, ids[k..])| && len <= M_COPYALL
    && (k < |ids| ==> ids[k] in h.mbufs && off <= h.mbufs[ids[k]].len)
    && Bytes(h', copy) + Wanted(Bytes(h, ids[k..]), off, len) == want
  }

  lemma {:induction false} CopyBegins(h: Heap, ids: seq<Ptr>, k: nat, off0: nat, off: nat, len: nat)
    requires Good(h) && IsChain(h, HeadOf(ids), ids) && k <= |ids| && Live(h, ids[k..]) && len <= M_COPYALL
    requires off <= |Bytes(h, ids[k..])| && (off > 0 ==> k < |ids| && ids[k] in h.mbufs && off < h.mbufs[ids[k]].len)
    requires off0 <= |Bytes(h, ids)| && Bytes(h, ids)[off0..] == Bytes(h, ids[k..])[off..]
    ensures Copying(h, h, ids, k, off, len, None, [], Wanted(Bytes(h, ids), off0, len))
  {
    var want := Wanted(Bytes(h, ids[k..]), off, len);
    assert Wanted(Bytes(h, ids), off0, len) ==
      want by { WantedFrom(Bytes(h, ids), Bytes(h, ids[k..]), off0, off, len); }
    assert k < |ids| ==> ids[k] in h.mbufs by { TailBytes(h, ids, k); }
    assert Bytes(h, []) == [] && [] + want == want;
  }

  lemma {:induction false} CopyLinked(h: Heap, h3: Heap, h': Heap, top: Option<Ptr>, copy: seq<Ptr>, n: Ptr)
    requires Good(h3) && Good(h') && IsChain(h3, top, copy) && n in h3.mbufs && WfMbuf(h3, h3.mbufs[n])
    requires Untouched(h, h3, []) && Grown(h, h3, copy + [n]) && IsChain(h3, Some(n), [n])
    requires copy == [] ==> h' == h3
    requires copy != [] ==>
      copy[|copy| - 1] in h3.mbufs && h' == Joined(h3, copy, Some(n)) && IsChain(h', top, copy + [n])
    requires copy != [] ==> Bytes(h', copy + [n]) == Bytes(h3, copy) + Bytes(h3, [n])
    ensures Untouched(h, h', []) && Grown(h, h', copy + [n])
      && IsChain(h', if copy == [] then Some(n) else top, copy + [n])
    ensures Bytes(h', copy + [n]) == Bytes(h3, copy) + Data(h3, h3.mbufs[n])
  {
    BytesOne(h3, n);
    if copy == [] {
      assert copy + [n] == [n];
    } else {
      assert copy[|copy| - 1] in copy && copy[|copy| - 1] in copy + [n];
    }
  }

  /** The copy with `n` linked behind it. */
  lemma {:induction false} CopyStep(h: Heap, h1: Heap, h3: Heap, h': Heap, ids: seq<Ptr>, k: nat, off: nat, len: nat,
    count: nat,
                                    top: Option<Ptr>, copy: seq<Ptr>, n: Ptr, top': Option<Ptr>, copy': seq<Ptr>,
                                      want: seq<byte>)
    requires Good(h) && IsChain(h, HeadOf(ids), ids) && k < |ids| && Good(h3) && Good(h')
    requires Copying(h, h1, ids, k, off, len, top, copy, want) && count == Min(len, h.mbufs[ids[k]].len - off)
    requires Live(h3, copy) && Bytes(h3, copy) == Bytes(h1, copy) && Piece(h, h3, ids[k], n, off, count)
    requires Untouched(h, h', []) && Grown(h, h', copy') && IsChain(h', top', copy')
    requires Bytes(h', copy') == Bytes(h3, copy) + Data(h3, h3.mbufs[n])
    ensures Copying(h, h', ids, k + 1, 0, Less(len, count), top', copy', want)
  {
    CopyAsks(h, ids, k, off, len, Bytes(h1, copy), Bytes(h', copy'), want);
  }

  /** What one mbuf supplies and what is asked of those behind it. */
  lemma {:induction false} CopyAsks(h: Heap, ids: seq<Ptr>, k: nat, off: nat, len: nat, done: seq<byte>,
    done': seq<byte>, want: seq<byte>)
    requires Good(h) && IsChain(h, HeadOf(ids), ids) && k < |ids| && ids[k] in h.mbufs && WfMbuf(h, h.mbufs[ids[k]])
    requires Live(h, ids[k..]) && off <= |Bytes(h, ids[k..])| && len <= M_COPYALL && off <= h.mbufs[ids[k]].len
    requires done + Wanted(Bytes(h, ids[k..]), off, len) == want
    requires done' == done + Data(h, h.mbufs[ids[k]])[off..off + Min(len, h.mbufs[ids[k]].len - off)]
    ensures Live(h, ids[k + 1..]) && (k + 1 < |ids| ==> ids[k + 1] in h.mbufs)
    ensures done' + Wanted(Bytes(h, ids[k + 1..]), 0, Less(len, Min(len, h.mbufs[ids[k]].len - off))) == want
  {
    TailBytes(h, ids, k);
    TailBytes(h, ids, k + 1);
    DataSize(h, ids[k]);
    CopyBytes(done, Data(h, h.mbufs[ids[k]]), Bytes(h, ids[k + 1..]), off, len, Bytes(h, ids[k..]), done', want);
  }

  /** What the copy has and what it still lacks, before and after one mbuf. */
  lemma {:induction false} CopyBytes(done: seq<byte>, d: seq<byte>, t: seq<byte>, off: nat, len: nat, b: seq<byte>,
    done': seq<byte>, want: seq<byte>)
    requires off <= |d| <= MCLBYTES && len <= M_COPYALL
    requires b == d + t && done + Wanted(b, off, len) == want && done' == done + d[off..off + Min(len, |d| - off)]
    ensures done' + Wanted(t, 0, Less(len, Min(len, |d| - off))) == want
  {
    var n := Min(len, |d| - off);
    WantedSplits(d, t, off, len);
    Associative(done, d[off..off + n], Wanted(t, 0, Less(len, n)));
  }

  lemma {:induction false} DataSize(h: Heap, p: Ptr)
    requires Good(h) && p in h.mbufs && WfMbuf(h, h.mbufs[p])
    ensures h.mbufs[p].len <= MCLBYTES
  {
    if h.mbufs[p].ext.Some? {
      assert WfCluster(h, h.mbufs[p].ext.value);
    }
  }

  lemma {:induction false} CopyEnds(h: Heap, h': Heap, ids: seq<Ptr>, k: nat, off: nat, len: nat, top: Option<Ptr>,
    copy: seq<Ptr>, want: seq<byte>)
    requires Good(h) && IsChain(h, HeadOf(ids), ids) && Copying(h, h', ids, k, off, len, top, copy, want)
      && (len == 0 || k == |ids|)
    ensures Bytes(h', copy) == want
    ensures top.None? ==> h' == h
  {
    TailBytes(h, ids, k);
    assert Wanted(Bytes(h, ids[k..]), off, len) == [];
    if copy == [] {
      assert h'.mbufs.Keys == h.mbufs.Keys;
      assert h'.mbufs == h.mbufs;
      GoodDetermined(h, h');
    }
  }

  /** What `m_copym` was asked for: the heap and the chain it found, the bytes, their offset and number. */
  datatype Job = Job(h: Heap, ids: seq<Ptr>, want: seq<byte>, start: nat, len0: nat)

  ghost predicate Working(job: Job, h': Heap, k: nat, off: nat, len: nat, top: Option<Ptr>, copy: seq<Ptr>) {
    && Good(job.h) && job.ids != [] && job.ids[0] in job.h.mbufs && IsChain(job.h, HeadOf(job.ids), job.ids)
    && Copying(job.h, h', job.ids, k, off, len, top, copy, job.want)
  }

  /** The copy gets the packet header of the original. */
  predicate HasHeader(job: Job) {
    job.ids != [] && job.ids[0] in job.h.mbufs && job.start == 0 && job.h.mbufs[job.ids[0]].pkthdr.Some?
  }

  /** The header of the copy's first mbuf is settled, or still to be written from the first mbuf `m`. */
  ghost predicate HeaderSettled(job: Job, h': Heap, len: nat, m: Option<Ptr>, copyhdr: bool, copy: seq<Ptr>,
    last: Ptr) {
    if copy == [] then
      copyhdr == HasHeader(job) && len == job.len0 && (copyhdr ==> m == Some(job.ids[0]))
    else
      && !copyhdr && last == copy[|copy| - 1] && copy[0] in h'.mbufs
      && (HasHeader(job) ==> h'.mbufs[copy[0]].pkthdr == CopiedHeader(job.h.mbufs[job.ids[0]], job.len0, true))
  }

  lemma {:induction false} HeaderStep(job: Job, h1: Heap, h2: Heap, h': Heap, len: nat, m: Ptr, copyhdr: bool,
                                      copy: seq<Ptr>, last: Ptr, n: Ptr, len': nat, m': Option<Ptr>)
    requires m in job.h.mbufs && HeaderSettled(job, h1, len, Some(m), copyhdr, copy, last)
    requires n !in h1.mbufs && n in h2.mbufs && n in h'.mbufs && h2.mbufs == h1.mbufs[n := h2.mbufs[n]]
    requires copyhdr ==> job.h.mbufs[m].pkthdr.Some?
    requires h2.mbufs[n].pkthdr == CopiedHeader(job.h.mbufs[m], len, copyhdr)
    requires forall p :: p in h'.mbufs ==> p in h2.mbufs && h'.mbufs[p].pkthdr == h2.mbufs[p].pkthdr
    requires copy != [] ==> copy[0] in h'.mbufs
    ensures HeaderSettled(job, h', len', m', false, copy + [n], n)
  {
    assert (copy + [n])[0] == if copy == [] then n else copy[0];
  }
}
