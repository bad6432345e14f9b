/** The accept queues of user_socket.c, for any number of listening sockets. */
module AcceptQueue {
  import opened Common

  type Sid = nat

  const SOMAXCONN := 128

  /**
   * `so_count`, `so_head`, the two bits of `so_qstate`, SCTP_SO_ACCEPTCONN, `so_qlimit`, the two
   * queues and their counters. `taken` is history: what accept has handed out so far, in order.
   */
  datatype Sock = Sock(
    count: int, head: Option<Sid>, sqIncomp: bool, sqComp: bool, listening: bool, qlimit: nat,
    incomp: seq<Sid>, comp: seq<Sid>, incqlen: int, qlen: int, taken: seq<Sid>)

  /** The live sockets; `next` is an address not handed out yet. */
  datatype Net = Net(socks: map<Sid, Sock>, next: Sid)

  // ------------------------------------------------------------------ invariant

  predicate InComp(n: Net, h: Sid, s: Sid) {
    s in n.socks && n.socks[s].head == Some(h) && n.socks[s].sqComp && !n.socks[s].sqIncomp
  }

  predicate InIncomp(n: Net, h: Sid, s: Sid) {
    s in n.socks && n.socks[s].head == Some(h) && n.socks[s].sqIncomp && !n.socks[s].sqComp
  }

  /** A socket that accept handed out is in no queue. */
  predicate Out(n: Net, s: Sid) {
    s < n.next && (s in n.socks ==> n.socks[s].head.None?)
  }

  /** Everything that ever lined up to be accepted and was not aborted. */
  function Line(k: Sock): seq<Sid> {
    k.taken + k.comp
  }

  /** The counters are the lengths, and the queues hold exactly what their members' flags say. */
  ghost predicate WfHead(n: Net, h: Sid)
    requires h in n.socks
  {
    var k := n.socks[h];
    && k.qlen == |k.comp| && k.incqlen == |k.incomp| && Distinct(k.incomp) && Distinct(Line(k))
    && (forall s :: s in k.comp ==> InComp(n, h, s))
    && (forall s :: s in k.incomp ==> InIncomp(n, h, s))
    && (forall s :: s in k.taken ==> Out(n, s))
  }

  predicate WfSock(n: Net, s: Sid)
    requires s in n.socks
  {
    var k := n.socks[s];
    && s < n.next
    && match k.head
       case None => !k.sqComp && !k.sqIncomp && k.count >= 1
       case Some(h) =>
         && k.count == 0 && k.comp == [] && k.incomp == [] && !k.listening && k.taken == []
         && h in n.socks && k.sqComp == !k.sqIncomp
         && (if k.sqComp then s in n.socks[h].comp else s in n.socks[h].incomp)
  }

  ghost predicate Good(n: Net) {
    && (forall h {:trigger WfHead(n, h)} :: h in n.socks ==> WfHead(n, h))
    && (forall s {:trigger WfSock(n, s)} :: s in n.socks ==> WfSock(n, s))
  }

  /** The queues of one listener never hold more than this. */
  predicate Short(k: Sock) {
    |k.incomp| <= k.qlimit + 1 && |k.comp| + |k.incomp| <= 3 * k.qlimit / 2 + k.qlimit + 2
  }

  ghost predicate Bounded(n: Net) {
    forall h {:trigger Short(n.socks[h])} :: h in n.socks ==> Short(n.socks[h])
  }

  // ----------------------------------------------------------------- operations

  const BLANK := Sock(0, None, false, false, false, 0, [], [], 0, 0, [])

  /** `socreate` */
  function Created(n: Net): Net {
    Net(n.socks[n.next := BLANK.(count := 1)], n.next + 1)
  }

  /** `solisten_proto` */
  function Listening(n: Net, h: Sid, backlog: int): Net
    requires h in n.socks
  {
    n.(socks := n.socks[h := n.socks[h].(qlimit := if backlog < 0
      || backlog > SOMAXCONN then SOMAXCONN else backlog, listening := true)])
  }

  /** A new socket at the end of `so_comp`. */
  function WithComp(n: Net, h: Sid): Net
    requires h in n.socks
  {
    var k := n.socks[h];
    Net(n.socks[n.next := BLANK.(head := Some(h), sqComp := true)][h := k.(comp := k.comp + [n.next],
      qlen := k.qlen + 1)], n.next + 1)
  }

  /** A new socket at the end of `so_incomp`. */
  function WithIncomp(n: Net, h: Sid): Net
    requires h in n.socks
  {
    var k := n.socks[h];
    Net(n.socks[n.next := BLANK.(head := Some(h), sqIncomp := true)][h := k.(incomp := k.incomp + [n.next],
      incqlen := k.incqlen + 1)], n.next + 1)
  }

  /** An incomplete socket leaves its queue and is freed: eviction, or `sofree`. */
  function Evicted(n: Net, h: Sid, s: Sid): Net
    requires h in n.socks
  {
    var k := n.socks[h];
    n.(socks := n.socks[h := k.(incomp := Without(k.incomp, s), incqlen := k.incqlen - 1)] - {s})
  }

  /** The loop of `sonewconn`: evict from the front until there is room. */
  function Trimmed(n: Net, h: Sid): Net
    requires h in n.socks
    decreases if h in n.socks then |n.socks[h].incomp| else 0
  {
    var k := n.socks[h];
    if k.incqlen > k.qlimit && k.incomp != [] && k.incomp[0] != h then
      WithoutAbsent(k.incomp, k.incomp[0]);
      Trimmed(Evicted(n, h, k.incomp[0]), h)
    else n
  }

  predicate Over(k: Sock) {
    k.qlen > 3 * k.qlimit / 2
  }

  /** `sonewconn`; `resources` says whether the socket and its protocol state can be had. */
  function NewConnection(n: Net, h: Sid, connected: bool, resources: bool): Net
    requires h in n.socks
  {
    if Over(n.socks[h]) || !resources then n
    else if connected then WithComp(n, h)
    else var t := Trimmed(n, h); if h in t.socks then WithIncomp(t, h) else t
  }

  /** `soisconnected` */
  function Connected(n: Net, s: Sid): Net
    requires s in n.socks
  {
    var so := n.socks[s];
    if so.head.None? || !so.sqIncomp || so.head.value !in n.socks || so.head.value == s then n else
    var h := so.head.value;
    var k := n.socks[h];
    n.(socks := n.socks[s := so.(sqIncomp := false, sqComp := true)]
                       [h := k.(incomp := Without(k.incomp, s), incqlen := k.incqlen - 1, comp := k.comp + [s],
                         qlen := k.qlen + 1)])
  }

  /** What `user_accept` hands out, if it does not fail or wait. */
  function Accepts(n: Net, h: Sid): Option<Sid>
    requires h in n.socks
  {
    var k := n.socks[h];
    if k.listening && k.comp != [] then Some(k.comp[0]) else None
  }

  function Accepted(n: Net, h: Sid): Net
    requires h in n.socks
  {
    var k := n.socks[h];
    if Accepts(n, h).None? || k.comp[0] !in n.socks || k.comp[0] == h then n else
    var s := k.comp[0];
    var so := n.socks[s];
    n.(socks := n.socks[s := so.(count := so.count + 1, sqComp := false, head := None)]
                       [h := k.(comp := k.comp[1..], qlen := k.qlen - 1, taken := k.taken + [s])])
  }

  /** `usrsctp_peeloff`: the new socket passes through `so_comp`; it goes when the protocol refuses. */
  function PeeledOff(n: Net, h: Sid, resources: bool, agreed: bool): Net
    requires h in n.socks
  {
    if Over(n.socks[h]) || !resources then n
    else if agreed then Created(n) else n.(next := n.next + 1)
  }

  /** `sofree`, called by the protocol: only an incomplete socket without references goes. */
  function Released(n: Net, s: Sid): Net
    requires s in n.socks
  {
    var so := n.socks[s];
    if so.count != 0 || so.sqComp then n
    else if so.head.Some? && so.head.value in n.socks then Evicted(n, so.head.value, s)
    else n.(socks := n.socks - {s})
  }

  /** A completed socket is taken out of its queue and aborted. */
  function Aborted(n: Net, h: Sid): Net
    requires h in n.socks && n.socks[h].comp != []
  {
    var k := n.socks[h];
    n.(socks := n.socks[h := k.(comp := k.comp[1..], qlen := k.qlen - 1)] - {k.comp[0]})
  }

  /** The loop of `usrsctp_close`: `so_comp` is emptied; nobody looks at `so_incomp`. */
  function Drained(n: Net, h: Sid): Net
    requires h in n.socks
    decreases if h in n.socks then |n.socks[h].comp| else 0
  {
    var k := n.socks[h];
    if k.comp != [] && k.comp[0] != h then Drained(Aborted(n, h), h) else n
  }

  /** `sorele` */
  function Dropped(n: Net, h: Sid): Net
    requires h in n.socks
  {
    var k := n.socks[h];
    if k.count > 1 then n.(socks := n.socks[h := k.(count := k.count - 1)]) else n.(socks := n.socks - {h})
  }

  /** `usrsctp_close` */
  function Closed(n: Net, h: Sid): Net
    requires h in n.socks
  {
    var d := if n.socks[h].listening then Drained(n, h) else n;
    if h in d.socks then Dropped(d, h) else d
  }

  // ----------------------------------------------- every operation keeps the invariant

  /** An address not handed out yet is in no queue. */
  lemma {:induction false} NextIsNew(n: Net, h: Sid)
    requires Good(n) && h in n.socks
    ensures n.next !in n.socks && n.next !in n.socks[h].comp && n.next !in n.socks[h].incomp
      && n.next !in n.socks[h].taken
  {
    assert WfHead(n, h);
    forall s | s in n.socks ensures s < n.next {
      assert WfSock(n, s);
    }
  }

  lemma {:induction false} CreatedGood(n: Net)
    requires Good(n)
    ensures Good(Created(n))
  {
    var n', s := Created(n), n.next;
    forall h | h in n'.socks ensures WfHead(n', h) {
      if h != s {
        assert WfHead(n, h);
        NextIsNew(n, h);
      }
    }
    forall x | x in n'.socks ensures WfSock(n', x) {
      if x != s {
        assert WfSock(n, x);
        NextIsNew(n, x);
      }
    }
  }

  lemma {:induction false} ListeningGood(n: Net, h: Sid, backlog: int)
    requires Good(n) && h in n.socks && n.socks[h].head.None?
    ensures Good(Listening(n, h, backlog))
  {
    var n' := Listening(n, h, backlog);
    forall g | g in n'.socks ensures WfHead(n', g) {
      assert WfHead(n, g);
    }
    forall x | x in n'.socks ensures WfSock(n', x) {
      assert WfSock(n, x);
    }
  }

  /** A head that no queue holds stays in place while its own queues change. */
  lemma {:induction false} WithCompGood(n: Net, h: Sid)
    requires Good(n) && h in n.socks && n.socks[h].head.None?
    ensures Good(WithComp(n, h))
  {
    var n', s := WithComp(n, h), n.next;
    NextIsNew(n, h);
    forall g | g in n'.socks ensures WfHead(n', g) {
      if g != s {
        assert WfHead(n, g);
        NextIsNew(n, g);
        Appended(Line(n.socks[g]), s);
        assert Line(n.socks[h].(comp := n.socks[h].comp + [s])) == Line(n.socks[h]) + [s];
      }
    }
    forall x | x in n'.socks ensures WfSock(n', x) {
      if x != s {
        assert WfSock(n, x);
      }
    }
  }

  lemma {:induction false} WithIncompGood(n: Net, h: Sid)
    requires Good(n) && h in n.socks && n.socks[h].head.None?
    ensures Good(WithIncomp(n, h))
  {
    var n', s := WithIncomp(n, h), n.next;
    NextIsNew(n, h);
    forall g | g in n'.socks ensures WfHead(n', g) {
      if g != s {
        assert WfHead(n, g);
        NextIsNew(n, g);
        Appended(n.socks[g].incomp, s);
      }
    }
    forall x | x in n'.socks ensures WfSock(n', x) {
      if x != s {
        assert WfSock(n, x);
      }
    }
  }

  lemma {:induction false} Appended(a: seq<Sid>, s: Sid)
    requires Distinct(a) && s !in a
    ensures Distinct(a + [s])
  {
  }

  lemma {:induction false} EvictedGood(n: Net, h: Sid, s: Sid)
    requires Good(n) && h in n.socks && s in n.socks[h].incomp
    ensures s != h && h in Evicted(n, h, s).socks && Good(Evicted(n, h, s))
    ensures |Evicted(n, h, s).socks[h].incomp| == |n.socks[h].incomp| - 1
  {
    var n', k := Evicted(n, h, s), n.socks[h];
    assert WfHead(n, h) && InIncomp(n, h, s) && WfSock(n, s) && WfSock(n, h);
    WithoutMembers(k.incomp, s);
    WithoutDistinct(k.incomp, s);
    forall g | g in n'.socks ensures WfHead(n', g) {
      assert WfHead(n, g);
      assert g != h ==> s !in n.socks[g].incomp && s !in n.socks[g].comp;
    }
    forall x | x in n'.socks ensures WfSock(n', x) {
      assert WfSock(n, x);
      assert n.socks[x].head != Some(s);
    }
  }

  lemma {:induction false} ConnectedGood(n: Net, s: Sid)
    requires Good(n) && s in n.socks
    ensures Good(Connected(n, s))
  {
    assert WfSock(n, s);
    var n', so := Connected(n, s), n.socks[s];
    if n' != n {
      var h := so.head.value;
      var k := n.socks[h];
      assert WfHead(n, h) && WfSock(n, h);
      WithoutMembers(k.incomp, s);
      assert n'.socks.Keys == n.socks.Keys;
      forall g | g in n'.socks ensures WfHead(n', g) {
        ConnectedHead(n, s, g);
      }
      forall x | x in n'.socks ensures WfSock(n', x) {
        assert WfSock(n, x);
      }
    }
  }

  lemma {:induction false} ConnectedHead(n: Net, s: Sid, g: Sid)
    requires Good(n) && s in n.socks && WfSock(n, s) && n.socks[s].head.Some? && n.socks[s].sqIncomp && g in n.socks
    ensures g in Connected(n, s).socks && WfHead(Connected(n, s), g)
  {
    var n', h := Connected(n, s), n.socks[s].head.value;
    assert WfHead(n, g) && WfHead(n, h) && WfSock(n, h);
    if g == h {
      var k := n.socks[h];
      WithoutMembers(k.incomp, s);
      WithoutDistinct(k.incomp, s);
      Appended(Line(k), s);
      assert Line(n'.socks[h]) == Line(k) + [s];
    }
  }

  lemma {:induction false} AcceptedGood(n: Net, h: Sid)
    requires Good(n) && h in n.socks
    ensures Good(Accepted(n, h)) && h in Accepted(n, h).socks && Line(Accepted(n, h).socks[h]) == Line(n.socks[h])
    ensures Accepts(n, h).Some? ==> Accepted(n, h).socks[h].taken == n.socks[h].taken + [Accepts(n, h).value]
  {
    var n', k := Accepted(n, h), n.socks[h];
    if Accepts(n, h).Some? {
      var s := k.comp[0];
      assert WfHead(n, h) && InComp(n, h, s) && WfSock(n, s) && WfSock(n, h);
      assert Line(n'.socks[h]) == Line(k);
      assert s !in k.comp[1..] by { TailDistinct(k); }
      assert forall y :: y in k.comp[1..] ==> y in k.comp;
      forall g | g in n'.socks ensures WfHead(n', g) {
        assert WfHead(n, g);
      }
      forall x | x in n'.socks ensures WfSock(n', x) {
        assert WfSock(n, x);
        assert x in k.comp && x != s ==> x in k.comp[1..];
      }
    }
  }

  lemma {:induction false} AbortedGood(n: Net, h: Sid)
    requires Good(n) && h in n.socks && n.socks[h].comp != []
    ensures n.socks[h].comp[0] != h && h in Aborted(n, h).socks && Good(Aborted(n, h))
  {
    var n', k := Aborted(n, h), n.socks[h];
    var s := k.comp[0];
    assert WfHead(n, h) && InComp(n, h, s) && WfSock(n, s) && WfSock(n, h);
    assert s !in k.comp[1..] && Distinct(Line(n'.socks[h])) by { TailDistinct(k); }
    assert forall y :: y in k.comp[1..] ==> y in k.comp;
    forall g | g in n'.socks ensures WfHead(n', g) {
      assert WfHead(n, g);
    }
    forall x | x in n'.socks ensures WfSock(n', x) {
      assert WfSock(n, x);
      assert x in k.comp && x != s ==> x in k.comp[1..];
    }
  }

  lemma {:induction false} TailDistinct(k: Sock)
    requires Distinct(Line(k)) && k.comp != []
    ensures k.comp[0] !in k.comp[1..] && Distinct(k.taken + k.comp[1..])
  {
    var a, b, t := Line(k), k.taken + k.comp[1..], |k.taken|;
    forall i, j | 0 <= i < j < |b| ensures b[i] != b[j] {
      assert b[i] == a[if i < t then i else i + 1] && b[j] == a[if j < t then j else j + 1];
    }
    forall i | 0 <= i < |k.comp[1..]| ensures k.comp[1..][i] != k.comp[0] {
      assert a[t] == k.comp[0] && a[t + i + 1] == k.comp[1..][i];
    }
  }

  // --------------------------------------------------------- what the loops leave

  /** Socket `g` and its queues are as they were. */
  predicate Same(n: Net, n': Net, g: Sid) {
    g in n.socks && g in n'.socks && n'.socks[g] == n.socks[g]
  }

  /** The sockets that applications own, apart from `h`, are as they were. */
  ghost predicate OthersSame(n: Net, n': Net, h: Sid) {
    forall g {:trigger Same(n, n', g)} :: g in n.socks && n.socks[g].head.None? && g != h ==> Same(n, n', g)
  }

  lemma {:induction false} OthersSameTrans(n: Net, m: Net, n': Net, h: Sid)
    requires OthersSame(n, m, h) && OthersSame(m, n', h)
    ensures OthersSame(n, n', h)
  {
    forall g | g in n.socks && n.socks[g].head.None? && g != h ensures Same(n, n', g) {
      assert Same(n, m, g) && Same(m, n', g);
    }
  }

  /** A listener with the newest `so_qlimit` of its incomplete sockets. */
  function Newest(k: Sock): Sock {
    var drop := Max(0, |k.incomp| - k.qlimit);
    k.(incomp := k.incomp[drop..], incqlen := |k.incomp| - drop)
  }

  lemma {:induction false} NewestStep(k: Sock)
    requires k.incqlen == |k.incomp|
    ensures |k.incomp| <= k.qlimit ==> Newest(k) == k
    ensures |k.incomp| > k.qlimit ==> Newest(k.(incomp := k.incomp[1..], incqlen := k.incqlen - 1)) == Newest(k)
  {
    if |k.incomp| > k.qlimit {
      var drop := |k.incomp| - k.qlimit;
      assert k.incomp[1..][drop - 1..] == k.incomp[drop..];
    }
  }

  /** The loop leaves the newest `so_qlimit` incomplete sockets, and touches nothing else of the listener. */
  lemma {:induction false} TrimmedKeeps(n: Net, h: Sid)
    requires Good(n) && h in n.socks && n.socks[h].head.None?
    ensures Good(Trimmed(n, h)) && h in Trimmed(n, h).socks && Trimmed(n, h).next == n.next
      && OthersSame(n, Trimmed(n, h), h)
    ensures Trimmed(n, h).socks[h] == Newest(n.socks[h])
    decreases |n.socks[h].incomp|
  {
    var k := n.socks[h];
    assert WfHead(n, h);
    NewestStep(k);
    if k.incqlen > k.qlimit {
      var s := k.incomp[0];
      EvictedGood(n, h, s);
      var m := Evicted(n, h, s);
      FirstOut(k.incomp);
      EvictedOthers(n, h, s);
      TrimmedKeeps(m, h);
      OthersSameTrans(n, m, Trimmed(m, h), h);
    }
  }

  lemma {:induction false} EvictedOthers(n: Net, h: Sid, s: Sid)
    requires Good(n) && h in n.socks && s in n.socks[h].incomp
    ensures OthersSame(n, Evicted(n, h, s), h)
  {
    assert WfHead(n, h) && InIncomp(n, h, s);
  }

  lemma {:induction false} FirstOut(a: seq<Sid>)
    requires Distinct(a) && a != []
    ensures Without(a, a[0]) == a[1..]
  {
    WithoutAbsent(a[1..], a[0]);
  }

  /** The loop empties `so_comp`, and touches nothing else of the listener. */
  lemma {:induction false} DrainedKeeps(n: Net, h: Sid)
    requires Good(n) && h in n.socks && n.socks[h].head.None?
    ensures Good(Drained(n, h)) && h in Drained(n, h).socks && Drained(n, h).next == n.next
      && OthersSame(n, Drained(n, h), h)
    ensures Drained(n, h).socks[h] == n.socks[h].(comp := [], qlen := 0)
    decreases |n.socks[h].comp|
  {
    var k := n.socks[h];
    assert WfHead(n, h);
    if k.comp != [] {
      AbortedGood(n, h);
      var m := Aborted(n, h);
      assert InComp(n, h, k.comp[0]);
      DrainedKeeps(m, h);
      assert OthersSame(n, m, h);
      OthersSameTrans(n, m, Drained(m, h), h);
    }
  }

  // ------------------------------------------------------------------- closing

  /** Closing leaves no socket behind with a pointer to the freed listener. */
  predicate CloseSafe(k: Sock) {
    k.count > 1 || (k.incomp == [] && (k.listening || k.comp == []))
  }

  /** Freeing a socket is harmless exactly when its queues are empty. */
  lemma {:induction false} FreedExactly(n: Net, h: Sid)
    requires Good(n) && h in n.socks && n.socks[h].head.None?
    ensures Good(n.(socks := n.socks - {h})) <==> n.socks[h].incomp == [] && n.socks[h].comp == []
  {
    var n', k := n.(socks := n.socks - {h}), n.socks[h];
    assert WfHead(n, h);
    if k.incomp == [] && k.comp == [] {
      forall g | g in n'.socks ensures WfHead(n', g) {
        assert WfHead(n, g);
      }
      forall x | x in n'.socks ensures WfSock(n', x) {
        assert WfSock(n, x);
      }
    } else {
      var s := if k.incomp != [] then k.incomp[0] else k.comp[0];
      assert k.incomp != [] ==> InIncomp(n, h, s);
      assert k.incomp == [] ==> InComp(n, h, s);
      assert s in n'.socks && !WfSock(n', s);
    }
  }

  /** `usrsctp_close` keeps the invariant exactly when no connection is still incomplete. */
  lemma {:induction false} CloseExactly(n: Net, h: Sid)
    requires Good(n) && h in n.socks && n.socks[h].head.None?
    ensures Good(Closed(n, h)) <==> CloseSafe(n.socks[h])
    ensures OthersSame(n, Closed(n, h), h)
    ensures h in Closed(n, h).socks <==> n.socks[h].count > 1
  {
    var k := n.socks[h];
    assert WfSock(n, h);
    if k.listening {
      DrainedKeeps(n, h);
    }
    var d := if k.listening then Drained(n, h) else n;
    assert WfSock(d, h);
    var n' := Closed(n, h);
    if k.count > 1 {
      forall g | g in n'.socks ensures WfHead(n', g) {
        assert WfHead(d, g);
      }
      forall x | x in n'.socks ensures WfSock(n', x) {
        assert WfSock(d, x);
      }
    } else {
      FreedExactly(d, h);
    }
    assert forall g :: Same(n, d, g) && g != h ==> Same(n, n', g);
  }

  /** `sofree` by the protocol. */
  lemma {:induction false} ReleasedGood(n: Net, s: Sid)
    requires Good(n) && s in n.socks
    ensures Good(Released(n, s))
    ensures n.socks[s].head.None? ==> Released(n, s) == n
  {
    assert WfSock(n, s);
    if n.socks[s].head.Some? && !n.socks[s].sqComp {
      EvictedGood(n, n.socks[s].head.value, s);
    }
  }

  // ---------------------------------------------------------------------- runs

  datatype Op =
    | Create
    | Listen(h: Sid, backlog: int)
    | NewConn(h: Sid, connected: bool, resources: bool)
    | Connect(s: Sid)
    | Accept(h: Sid)
    | PeelOff(h: Sid, resources: bool, agreed: bool)
    | Free(s: Sid)
    | Close(h: Sid)

  /** The application calls on sockets it owns, the protocol on any live socket. */
  predicate Enabled(n: Net, op: Op) {
    match op
    case Create => true
    case Connect(s) => s in n.socks
    case Free(s) => s in n.socks
    case _ => op.h in n.socks && n.socks[op.h].head.None?
  }

  function Step(n: Net, op: Op): Net {
    if !Enabled(n, op) then n else
    match op
    case Create => Created(n)
    case Listen(h, backlog) => Listening(n, h, backlog)
    case NewConn(h, connected, resources) => NewConnection(n, h, connected, resources)
    case Connect(s) => Connected(n, s)
    case Accept(h) => Accepted(n, h)
    case PeelOff(h, resources, agreed) => PeeledOff(n, h, resources, agreed)
    case Free(s) => Released(n, s)
    case Close(h) => Closed(n, h)
  }

  function Run(n: Net, ops: seq<Op>): Net
    decreases |ops|
  {
    if ops == [] then n else Run(Step(n, ops[0]), ops[1..])
  }

  predicate SafeOp(n: Net, op: Op) {
    op.Close? && Enabled(n, op) ==> CloseSafe(n.socks[op.h])
  }

  /** No listener is closed in the run while one of its connections is incomplete. */
  predicate SafeRun(n: Net, ops: seq<Op>)
    decreases |ops|
  {
    ops == [] || (SafeOp(n, ops[0]) && SafeRun(Step(n, ops[0]), ops[1..]))
  }

  lemma {:induction false} PeeledOffGood(n: Net, h: Sid, resources: bool, agreed: bool)
    requires Good(n) && h in n.socks
    ensures Good(PeeledOff(n, h, resources, agreed))
  {
    var n' := PeeledOff(n, h, resources, agreed);
    if agreed {
      CreatedGood(n);
    } else {
      forall g | g in n'.socks ensures WfHead(n', g) {
        assert WfHead(n, g);
      }
      forall x | x in n'.socks ensures WfSock(n', x) {
        assert WfSock(n, x);
      }
    }
  }

  lemma {:induction false} StepKeepsGood(n: Net, op: Op)
    requires Good(n)
    ensures Good(Step(n, op)) <==> SafeOp(n, op)
  {
    if Enabled(n, op) {
      match op
      case Create => CreatedGood(n);
      case Listen(h, backlog) => ListeningGood(n, h, backlog);
      case NewConn(h, connected, resources) =>
        if connected {
          WithCompGood(n, h);
        } else {
          TrimmedKeeps(n, h);
          WithIncompGood(Trimmed(n, h), h);
        }
      case Connect(s) => ConnectedGood(n, s);
      case Accept(h) => AcceptedGood(n, h);
      case PeelOff(h, resources, agreed) => PeeledOffGood(n, h, resources, agreed);
      case Free(s) => ReleasedGood(n, s);
      case Close(h) => CloseExactly(n, h);
    }
  }

  /** Counters, flags and queues agree in every state of every safe run. */
  lemma {:induction false} RunKeepsGood(n: Net, ops: seq<Op>)
    requires Good(n) && SafeRun(n, ops)
    ensures Good(Run(n, ops))
    decreases |ops|
  {
    if ops != [] {
      StepKeepsGood(n, ops[0]);
      RunKeepsGood(Step(n, ops[0]), ops[1..]);
    }
  }

  /** A listener with one incomplete connection is closed: the connection points at a freed socket. */
  lemma {:induction false} CloseLeavesDangling()
    ensures
      var n := Step(Step(Step(Created(Net(map[], 0)), Listen(0, 1)), NewConn(0, false, true)), Close(0));
      !Good(n) && 1 in n.socks && n.socks[1].head == Some(0) && 0 !in n.socks
  {
    var n0 := Created(Net(map[], 0));
    CreatedGood(Net(map[], 0));
    var n1 := Step(n0, Listen(0, 1));
    StepKeepsGood(n0, Listen(0, 1));
    var n2 := Step(n1, NewConn(0, false, true));
    StepKeepsGood(n1, NewConn(0, false, true));
    assert n2.socks[0].incomp == [1] && n2.socks[0].comp == [] && n2.socks[0].count == 1;
    StepKeepsGood(n2, Close(0));
  }

  // ---------------------------------------------- what each call does, one by one

  /** The sockets other than those of `but` are as they were. */
  ghost predicate RestSame(n: Net, n': Net, but: set<Sid>) {
    forall g :: g !in but ==> (g in n.socks <==> g in n'.socks) && (g in n.socks ==> n'.socks[g] == n.socks[g])
  }

  /** The sockets of `gone` are freed, and those other than `h` are as they were. */
  ghost predicate Frees(n: Net, n': Net, h: Sid, gone: seq<Sid>) {
    RestSame(n, n', {h} + set s | s in gone) && (forall s :: s in gone ==> s !in n'.socks) && n'.next == n.next
  }

  lemma {:induction false} FreesMore(n: Net, m: Net, n': Net, h: Sid, s: Sid, gone: seq<Sid>)
    requires RestSame(n, m, {h, s}) && s !in m.socks && s != h && m.next == n.next
    requires Frees(m, n', h, gone) && s !in gone
    ensures Frees(n, n', h, [s] + gone)
  {
  }

  /** The incomplete sockets beyond `so_qlimit`, from the front. */
  function Oldest(k: Sock): seq<Sid> {
    k.incomp[..Max(0, |k.incomp| - k.qlimit)]
  }

  /** The eviction loop frees just these. */
  lemma {:induction false} TrimmedExactly(n: Net, h: Sid)
    requires Good(n) && h in n.socks && n.socks[h].head.None?
    ensures Frees(n, Trimmed(n, h), h, Oldest(n.socks[h]))
    decreases |n.socks[h].incomp|
  {
    var k := n.socks[h];
    assert WfHead(n, h);
    if k.incqlen > k.qlimit {
      var s := k.incomp[0];
      EvictedGood(n, h, s);
      var m := Evicted(n, h, s);
      assert m.socks[h].incomp == k.incomp[1..] by { FirstOut(k.incomp); }
      TrimmedExactly(m, h);
      assert Oldest(k) == [s] + Oldest(m.socks[h]);
      FreesMore(n, m, Trimmed(m, h), h, s, Oldest(m.socks[h]));
    }
  }

  /** `sonewconn` refuses a listener whose queue is over three halves of its limit; else the new socket is the last. */
  lemma {:induction false} NewConnectionExactly(n: Net, h: Sid, connected: bool, resources: bool)
    requires Good(n) && h in n.socks && n.socks[h].head.None?
    ensures
      var k, s, n' := n.socks[h], n.next, NewConnection(n, h, connected, resources);
      if 2 * |k.comp| > 3 * k.qlimit || !resources then n' == n else
      var gone := if connected then [] else Oldest(k);
      && s !in n.socks && s in n'.socks && h in n'.socks
      && n'.socks[s].head == Some(h) && n'.socks[s].sqComp == connected && n'.socks[s].count == 0
      && n'.socks[h].comp == k.comp + (if connected then [s] else [])
      && n'.socks[h].incomp == k.incomp[|gone|..] + (if connected then [] else [s])
      && n'.socks[h].taken == k.taken
      && RestSame(n, n', {h, s} + set x | x in gone)
      && forall x :: x in gone ==> x !in n'.socks
  {
    var k := n.socks[h];
    NextIsNew(n, h);
    assert WfHead(n, h);
    assert k.incomp[0..] == k.incomp;
    if !connected {
      TrimmedKeeps(n, h);
      TrimmedExactly(n, h);
    }
  }

  /** `soisconnected` moves an incomplete socket to the end of the line, and does nothing to any other. */
  lemma {:induction false} ConnectedExactly(n: Net, s: Sid)
    requires Good(n) && s in n.socks
    ensures
      var so, n' := n.socks[s], Connected(n, s);
      if so.head.None? || !so.sqIncomp then n' == n else
      var h := so.head.value;
      && h in n.socks && h in n'.socks && s in n'.socks && s != h && n'.next == n.next
      && n'.socks[s] == so.(sqIncomp := false, sqComp := true)
      && n'.socks[h].comp == n.socks[h].comp + [s] && n'.socks[h].taken == n.socks[h].taken
      && (forall x :: x in n'.socks[h].incomp <==> x in n.socks[h].incomp && x != s)
      && RestSame(n, n', {h, s})
  {
    assert WfSock(n, s);
    if n.socks[s].head.Some? && n.socks[s].sqIncomp {
      var h := n.socks[s].head.value;
      assert WfSock(n, h) && WfHead(n, h);
      WithoutMembers(n.socks[h].incomp, s);
    }
  }

  /** `user_accept` takes the first completed socket, whenever there is one. */
  lemma {:induction false} AcceptedExactly(n: Net, h: Sid)
    requires Good(n) && h in n.socks && n.socks[h].head.None?
    ensures
      var k, n' := n.socks[h], Accepted(n, h);
      if !k.listening || k.comp == [] then n' == n && Accepts(n, h) == None else
      var s := k.comp[0];
      && Accepts(n, h) == Some(s) && s in n.socks && s in n'.socks && h in n'.socks && s != h && n'.next == n.next
      && n'.socks[s] == n.socks[s].(count := 1, sqComp := false, head := None)
      && n'.socks[h].comp == k.comp[1..] && n'.socks[h].taken == k.taken + [s] && n'.socks[h].incomp == k.incomp
      && RestSame(n, n', {h, s})
  {
    var k := n.socks[h];
    assert WfHead(n, h) && WfSock(n, h);
    if k.comp != [] {
      assert InComp(n, h, k.comp[0]) && WfSock(n, k.comp[0]);
    }
  }

  /** `sofree` frees exactly the incomplete sockets. */
  lemma {:induction false} ReleasedExactly(n: Net, s: Sid)
    requires Good(n) && s in n.socks
    ensures
      var so, n' := n.socks[s], Released(n, s);
      if so.head.None? || !so.sqIncomp then n' == n else
      var h := so.head.value;
      && h in n.socks && h in n'.socks && s !in n'.socks && s != h && n'.next == n.next
      && n'.socks[h].comp == n.socks[h].comp && n'.socks[h].taken == n.socks[h].taken
      && (forall x :: x in n'.socks[h].incomp <==> x in n.socks[h].incomp && x != s)
      && RestSame(n, n', {h, s})
  {
    assert WfSock(n, s);
    if n.socks[s].head.Some? && n.socks[s].sqIncomp {
      var h := n.socks[s].head.value;
      assert WfSock(n, h) && WfHead(n, h);
      WithoutMembers(n.socks[h].incomp, s);
    }
  }

  /** `usrsctp_close` frees the completed sockets of a listener, and the socket with its last reference. */
  lemma {:induction false} ClosedExactly(n: Net, h: Sid)
    requires Good(n) && h in n.socks && n.socks[h].head.None?
    ensures
      var k, n' := n.socks[h], Closed(n, h);
      var gone := if k.listening then k.comp else [];
      && Frees(n, n', h, gone)
      && (h in n'.socks <==> k.count > 1)
      && (h in n'.socks ==>
            n'.socks[h].count == k.count - 1 && n'.socks[h].incomp == k.incomp && n'.socks[h].taken == k.taken
            && n'.socks[h].comp == if k.listening then [] else k.comp)
  {
    if n.socks[h].listening {
      DrainedKeeps(n, h);
      DrainedExactly(n, h);
    }
  }

  lemma {:induction false} DrainedExactly(n: Net, h: Sid)
    requires Good(n) && h in n.socks && n.socks[h].head.None?
    ensures Frees(n, Drained(n, h), h, n.socks[h].comp)
    decreases |n.socks[h].comp|
  {
    var k := n.socks[h];
    assert WfHead(n, h);
    if k.comp != [] {
      AbortedGood(n, h);
      var m := Aborted(n, h);
      DrainedExactly(m, h);
      assert k.comp == [k.comp[0]] + k.comp[1..];
      TailDistinct(k);
      FreesMore(n, m, Drained(m, h), h, k.comp[0], k.comp[1..]);
    }
  }

  // -------------------------------------------------------------- first in, first out

  /** The sockets that a call adds to the line of `g`: new connections, and incomplete ones that get connected. */
  function Completes(n: Net, op: Op, g: Sid): seq<Sid>
    requires g in n.socks
  {
    match op
    case NewConn(h, connected, resources) =>
      if h == g && connected && resources && 2 * |n.socks[g].comp| <= 3 * n.socks[g].qlimit then [n.next] else []
    case Connect(s) => if s in n.socks && n.socks[s].head == Some(g) && n.socks[s].sqIncomp then [s] else []
    case _ => []
  }

  /** And what it hands out. */
  function HandsOut(k: Sock, op: Op, g: Sid): seq<Sid> {
    if op == Accept(g) && k.listening && k.comp != [] then [k.comp[0]] else []
  }

  /** Socket `g` is still there, and one call did that to its line. */
  ghost predicate StepLine(n: Net, op: Op, n': Net, g: Sid)
    requires g in n.socks
  {
    var k := n.socks[g];
    && g in n'.socks && n'.socks[g].head.None?
    && Line(n'.socks[g]) == Line(k) + Completes(n, op, g)
    && n'.socks[g].taken == k.taken + HandsOut(k, op, g)
    && n'.socks[g].listening == (k.listening || (op.Listen? && op.h == g))
  }

  /** A call that leaves `g` as it is, or does not change its line. */
  lemma {:induction false} SameLine(n: Net, op: Op, n': Net, g: Sid)
    requires g in n.socks && g in n'.socks && n.socks[g].head.None? && n'.socks[g].head.None?
    requires Line(n'.socks[g]) == Line(n.socks[g]) && n'.socks[g].taken == n.socks[g].taken
    requires n'.socks[g].listening == (n.socks[g].listening || (op.Listen? && op.h == g))
    requires Completes(n, op, g) == [] && HandsOut(n.socks[g], op, g) == []
    ensures StepLine(n, op, n', g)
  {
    assert Line(n.socks[g]) + [] == Line(n.socks[g]) && n.socks[g].taken + [] == n.socks[g].taken;
  }

  lemma {:induction false} NewConnLine(n: Net, h: Sid, connected: bool, resources: bool, g: Sid)
    requires Good(n) && g in n.socks && n.socks[g].head.None? && h in n.socks && n.socks[h].head.None?
    ensures StepLine(n, NewConn(h, connected, resources), NewConnection(n, h, connected, resources), g)
  {
    var op, n' := NewConn(h, connected, resources), NewConnection(n, h, connected, resources);
    NextIsNew(n, g);
    assert WfHead(n, h);
    if connected && g == h && n' != n {
      assert Line(n'.socks[g]) == Line(n.socks[g]) + [n.next];
      assert n'.socks[g].taken == n.socks[g].taken + [];
    } else {
      if !connected {
        TrimmedKeeps(n, h);
        assert g != h ==> Same(n, Trimmed(n, h), g);
      }
      SameLine(n, op, n', g);
    }
  }

  lemma {:induction false} ConnectLine(n: Net, s: Sid, g: Sid)
    requires Good(n) && g in n.socks && n.socks[g].head.None? && s in n.socks
    ensures StepLine(n, Connect(s), Connected(n, s), g)
  {
    var n' := Connected(n, s);
    ConnectedExactly(n, s);
    assert WfSock(n, s);
    if Completes(n, Connect(s), g) == [s] {
      assert Line(n'.socks[g]) == Line(n.socks[g]) + [s];
      assert n'.socks[g].taken == n.socks[g].taken + [];
    } else {
      SameLine(n, Connect(s), n', g);
    }
  }

  lemma {:induction false} AcceptLine(n: Net, h: Sid, g: Sid)
    requires Good(n) && g in n.socks && n.socks[g].head.None? && h in n.socks && n.socks[h].head.None?
    ensures StepLine(n, Accept(h), Accepted(n, h), g)
  {
    AcceptedExactly(n, h);
    assert WfHead(n, h);
    if g == h && Accepts(n, h).Some? {
      AcceptedGood(n, h);
      assert Line(n.socks[g]) + [] == Line(n.socks[g]);
    } else {
      assert n.socks[h].comp != [] ==> InComp(n, h, n.socks[h].comp[0]);
      SameLine(n, Accept(h), Accepted(n, h), g);
    }
  }

  lemma {:induction false} StepLines(n: Net, op: Op, g: Sid)
    requires Good(n) && g in n.socks && n.socks[g].head.None? && op != Close(g)
    ensures StepLine(n, op, Step(n, op), g)
  {
    assert WfSock(n, g);
    if !Enabled(n, op) {
      SameLine(n, op, n, g);
    } else {
      match op
      case NewConn(h, connected, resources) => NewConnLine(n, h, connected, resources, g);
      case Connect(s) => ConnectLine(n, s, g);
      case Accept(h) => AcceptLine(n, h, g);
      case Create =>
        NextIsNew(n, g);
        SameLine(n, op, Step(n, op), g);
      case Listen(h, backlog) => SameLine(n, op, Step(n, op), g);
      case PeelOff(h, resources, agreed) =>
        NextIsNew(n, g);
        SameLine(n, op, Step(n, op), g);
      case Free(s) =>
        ReleasedExactly(n, s);
        assert WfSock(n, s);
        SameLine(n, op, Step(n, op), g);
      case Close(h) =>
        CloseExactly(n, h);
        assert Same(n, Closed(n, h), g);
        SameLine(n, op, Step(n, op), g);
    }
  }

  /** What completes in a run, in order. */
  function CompletedIn(n: Net, ops: seq<Op>, g: Sid): seq<Sid>
    decreases |ops|
  {
    if ops == [] then []
    else (if g in n.socks then Completes(n, ops[0], g) else []) + CompletedIn(Step(n, ops[0]), ops[1..], g)
  }

  /** The number of accepts on `g`, from when it listens. */
  function AcceptsOn(ops: seq<Op>, g: Sid, listening: bool): nat
    decreases |ops|
  {
    if ops == [] then 0 else
    var listens := listening || (ops[0].Listen? && ops[0].h == g);
    Unit(ops[0] == Accept(g) && listening) + AcceptsOn(ops[1..], g, listens)
  }

  /**
   * Over a whole run, accept hands out sockets in the order in which they completed, and none
   * twice: what was handed out is the beginning of a line to which exactly the sockets that
   * completed were added.
   */
  lemma {:induction false} RunIsFifo(n: Net, ops: seq<Op>, g: Sid)
    requires Good(n) && SafeRun(n, ops) && g in n.socks && n.socks[g].head.None? && Close(g) !in ops
    ensures
      var n' := Run(n, ops);
      && g in n'.socks && n'.socks[g].head.None?
      && var k := n'.socks[g];
         && Line(k) == Line(n.socks[g]) + CompletedIn(n, ops, g)
         && n.socks[g].taken <= k.taken <= Line(k) && Distinct(Line(k)) && Distinct(k.taken)
    decreases |ops|
  {
    if ops == [] {
      assert WfHead(n, g);
      var k := n.socks[g];
      assert forall i :: 0 <= i < |k.taken| ==> Line(k)[i] == k.taken[i];
      assert Line(k) + [] == Line(k);
    } else {
      StepLines(n, ops[0], g);
      StepKeepsGood(n, ops[0]);
      var m := Step(n, ops[0]);
      RunIsFifo(m, ops[1..], g);
      Associative(Line(n.socks[g]), Completes(n, ops[0], g), CompletedIn(m, ops[1..], g));
    }
  }

  /**
   * And it does hand them out: of the sockets in line at the start, as many as there are accepts, or
   * all, are handed out by the end, whatever else happens meanwhile; and never more than accepts.
   */
  lemma {:induction false} RunServes(n: Net, ops: seq<Op>, g: Sid)
    requires Good(n) && SafeRun(n, ops) && g in n.socks && n.socks[g].head.None? && Close(g) !in ops
    ensures
      var n' := Run(n, ops);
      && g in n'.socks
      && var (k, k', calls) := (n.socks[g], n'.socks[g], AcceptsOn(ops, g, n.socks[g].listening));
         && k.taken + k.comp[..Min(calls, |k.comp|)] <= k'.taken
         && |k'.taken| <= |k.taken| + calls
    decreases |ops|
  {
    RunIsFifo(n, ops, g);
    if ops != [] {
      StepLines(n, ops[0], g);
      StepKeepsGood(n, ops[0]);
      RunServes(Step(n, ops[0]), ops[1..], g);
    }
  }

  // ------------------------------------------------------------------- the bound

  /** A listener's backlog is set once, or raised. */
  predicate Steady(n: Net, op: Op) {
    op.Listen? && Enabled(n, op) ==>
      n.socks[op.h].qlimit <= (if op.backlog < 0 || op.backlog > SOMAXCONN then SOMAXCONN else op.backlog)
  }

  predicate SteadyRun(n: Net, ops: seq<Op>)
    decreases |ops|
  {
    ops == [] || (Steady(n, ops[0]) && SteadyRun(Step(n, ops[0]), ops[1..]))
  }

  /** What became of one socket's queues in one step. */
  lemma {:induction false} StepBounded(n: Net, op: Op)
    requires Good(n) && Bounded(n) && Steady(n, op)
    ensures Bounded(Step(n, op))
  {
    var n' := Step(n, op);
    forall g | g in n'.socks ensures Short(n'.socks[g]) {
      assert g in n.socks ==> WfHead(n, g) && WfSock(n, g) && Short(n.socks[g]);
      if Enabled(n, op) {
        match op
        case Create =>
        case Listen(h, backlog) =>
        case NewConn(h, connected, resources) => NewConnShort(n, h, connected, resources, g);
        case Connect(s) => ConnectShort(n, s, g);
        case Accept(h) =>
        case PeelOff(h, resources, agreed) =>
        case Free(s) =>
        case Close(h) => CloseShort(n, h, g);
      }
    }
  }

  lemma {:induction false} NewConnShort(n: Net, h: Sid, connected: bool, resources: bool, g: Sid)
    requires Good(n) && Bounded(n) && h in n.socks && n.socks[h].head.None?
    requires g in NewConnection(n, h, connected, resources).socks
    ensures Short(NewConnection(n, h, connected, resources).socks[g])
  {
    assert WfHead(n, h) && Short(n.socks[h]);
    assert g in n.socks ==> Short(n.socks[g]);
    if !connected && resources && !Over(n.socks[h]) {
      TrimmedKeeps(n, h);
      var t := Trimmed(n, h);
      if g != h && g != t.next {
        TrimmedExactly(n, h);
      }
    }
  }

  lemma {:induction false} ConnectShort(n: Net, s: Sid, g: Sid)
    requires Good(n) && s in n.socks && g in Connected(n, s).socks
    ensures g in n.socks && (Short(n.socks[g]) ==> Short(Connected(n, s).socks[g]))
  {
    assert WfSock(n, s) && WfHead(n, g);
    var so := n.socks[s];
    if so.head == Some(g) && so.sqIncomp {
      WithoutDistinct(n.socks[g].incomp, s);
    }
  }

  lemma {:induction false} CloseShort(n: Net, h: Sid, g: Sid)
    requires Good(n) && h in n.socks && n.socks[h].head.None? && g in Closed(n, h).socks
    ensures g in n.socks && (Short(n.socks[g]) ==> Short(Closed(n, h).socks[g]))
  {
    if n.socks[h].listening {
      DrainedKeeps(n, h);
      if g != h {
        DrainedExactly(n, h);
      }
    }
  }

  /** In every safe run with a fixed backlog q, a listener's queues hold at most 3q/2 + q + 2 sockets. */
  lemma {:induction false} RunBounded(n: Net, ops: seq<Op>)
    requires Good(n) && Bounded(n) && SafeRun(n, ops) && SteadyRun(n, ops)
    ensures Bounded(Run(n, ops))
    decreases |ops|
  {
    if ops != [] {
      StepKeepsGood(n, ops[0]);
      StepBounded(n, ops[0]);
      RunBounded(Step(n, ops[0]), ops[1..]);
    }
  }

  /** The run that fills both queues of one listener. */
  function Filling(q: nat): seq<Op> {
    [Create, Listen(0, q)] + seq(q + 1, _ => NewConn(0, false, true)) + seq(3 * q / 2 + 1, _ => NewConn(0, true, true))
  }

  predicate Fill(n: Net, q: nat, incomp: nat, comp: nat) {
    && 0 in n.socks && n.socks[0].head.None? && n.socks[0].qlimit == q && 0 < n.next
    && |n.socks[0].incomp| == n.socks[0].incqlen == incomp && |n.socks[0].comp| == n.socks[0].qlen == comp
  }

  lemma {:induction false} FillIncomp(n: Net, q: nat, i: nat, k: nat)
    requires Fill(n, q, i, 0) && i + k <= q + 1
    ensures Fill(Run(n, seq(k, _ => NewConn(0, false, true))), q, i + k, 0)
    decreases k
  {
    var op := NewConn(0, false, true);
    if k > 0 {
      assert seq(k, _ => op)[1..] == seq(k - 1, _ => op);
      FillIncomp(Step(n, op), q, i + 1, k - 1);
    }
  }

  lemma {:induction false} FillComp(n: Net, q: nat, i: nat, j: nat, k: nat)
    requires Fill(n, q, i, j) && j + k <= 3 * q / 2 + 1
    ensures Fill(Run(n, seq(k, _ => NewConn(0, true, true))), q, i, j + k)
    decreases k
  {
    var op := NewConn(0, true, true);
    if k > 0 {
      assert seq(k, _ => op)[1..] == seq(k - 1, _ => op);
      FillComp(Step(n, op), q, i, j + 1, k - 1);
    }
  }

  lemma {:induction false} RunAppend(n: Net, a: seq<Op>, b: seq<Op>)
    ensures Run(n, a + b) == Run(Run(n, a), b)
    decreases |a|
  {
    if a == [] {
      assert a + b == b;
    } else {
      assert (a + b)[1..] == a[1..] + b;
      RunAppend(Step(n, a[0]), a[1..], b);
    }
  }

  /** The bound is reached, whatever the backlog. */
  lemma {:induction false} BoundIsTight(q: nat)
    requires q <= SOMAXCONN
    ensures
      var n := Run(Net(map[], 0), Filling(q));
      0 in n.socks && n.socks[0].qlimit == q && |n.socks[0].comp| + |n.socks[0].incomp| == 3 * q / 2 + q + 2
  {
    var n0 := Net(map[], 0);
    var a, b := seq(q + 1, _ => NewConn(0, false, true)), seq(3 * q / 2 + 1, _ => NewConn(0, true, true));
    var start := [Create, Listen(0, q)];
    RunAppend(n0, start + a, b);
    RunAppend(n0, start, a);
    assert start[1..] == [Listen(0, q)] && start[1..][1..] == [];
    var n1 := Step(Step(n0, Create), Listen(0, q));
    assert Run(n0, start) == Run(Step(n0, Create), [Listen(0, q)]) == Run(n1, []) == n1;
    assert Fill(n1, q, 0, 0);
    FillIncomp(n1, q, 0, q + 1);
    FillComp(Run(n1, a), q, q + 1, 0, 3 * q / 2 + 1);
  }

  lemma {:induction false} LastOut(a: seq<Sid>, s: Sid)
    requires s !in a
    ensures Without(a + [s], s) == a
  {
    WithoutAppend(a, [s], s);
    WithoutAbsent(a, s);
    assert Without([s], s) == [s][1..] == [];
  }

  // ------------------------------------------------------- the calls themselves

  class Stack {
    var socks: map<Sid, Sock>
    var next: Sid

    function S(): Net
      reads this
    {
      Net(socks, next)
    }

    ghost predicate Valid()
      reads this
    {
      Good(S())
    }

    constructor ()
      ensures Valid() && S() == Net(map[], 0)
    {
      socks, next := map[], 0;
    }

    /** `socreate`: a socket of its own, with one reference. */
    method SoCreate() returns (s: Sid)
      requires Valid()
      modifies this
      ensures Valid() && S() == Step(old(S()), Create)
      ensures s !in old(socks) && socks == old(socks)[s := BLANK.(count := 1)]
    {
      CreatedGood(S());
      assert next in socks ==> WfSock(S(), next);
      s, next := next, next + 1;
      socks := socks[s := BLANK.(count := 1)];
    }

    /** `solisten_proto`: a backlog out of range counts as SOMAXCONN. */
    method SoListen(h: Sid, backlog: int)
      requires Valid() && h in socks && socks[h].head.None?
      modifies this
      ensures Valid() && S() == Step(old(S()), Listen(h, backlog))
      ensures h in socks && socks[h].listening && socks[h].qlimit == if 0 <= backlog <= 128 then backlog else 128
    {
      ListeningGood(S(), h, backlog);
      var limit := backlog;
      if limit < 0 || limit > SOMAXCONN {
        limit := SOMAXCONN;
      }
      socks := socks[h := socks[h].(qlimit := limit, listening := true)];
    }

    /** `sonewconn` */
    method SoNewConn(h: Sid, connected: bool, resources: bool) returns (r: Option<Sid>)
      requires Valid() && h in socks && socks[h].head.None?
      modifies this
      ensures Valid() && S() == Step(old(S()), NewConn(h, connected, resources))
      ensures r == if Over(old(socks[h])) || !resources then None else Some(old(next))
    {
      ghost var n := S();
      StepKeepsGood(n, NewConn(h, connected, resources));
      if socks[h].qlen > 3 * socks[h].qlimit / 2 || !resources {
        return None;
      }
      var so := next;
      if connected {
        Append(h, true);
      } else {
        while socks[h].incqlen > socks[h].qlimit
          invariant Valid() && h in socks && socks[h].head.None? && next == so
          invariant Trimmed(S(), h) == Trimmed(n, h)
          decreases |socks[h].incomp|
        {
          assert WfHead(S(), h);
          var sp := socks[h].incomp[0];
          EvictedGood(S(), h, sp);
          var k := socks[h];
          socks := socks[h := k.(incomp := Without(k.incomp, sp), incqlen := k.incqlen - 1)];
          socks := socks - {sp};
        }
        Append(h, false);
      }
      return Some(so);
    }

    /** The new socket joins one of the queues. */
    method Append(h: Sid, connected: bool)
      requires Valid() && h in socks && socks[h].head.None?
      modifies this
      ensures S() == if connected then WithComp(old(S()), h) else WithIncomp(old(S()), h)
    {
      var so, k := next, socks[h];
      next := next + 1;
      if connected {
        socks := socks[so := BLANK.(head := Some(h), sqComp := true)][h := k.(comp := k.comp + [so],
          qlen := k.qlen + 1)];
      } else {
        socks := socks[so := BLANK.(head := Some(h), sqIncomp := true)][h := k.(incomp := k.incomp + [so],
          incqlen := k.incqlen + 1)];
      }
    }

    /** `soisconnected` */
    method SoIsConnected(s: Sid)
      requires Valid() && s in socks
      modifies this
      ensures Valid() && S() == Step(old(S()), Connect(s))
    {
      ConnectedGood(S(), s);
      assert WfSock(S(), s);
      var so := socks[s];
      if so.head.Some? && so.sqIncomp {
        var h := so.head.value;
        assert WfSock(S(), h);
        var k := socks[h];
        socks := socks[s := so.(sqIncomp := false, sqComp := true)];
        socks := socks[h := k.(incomp := Without(k.incomp, s), incqlen := k.incqlen - 1, comp := k.comp + [s],
          qlen := k.qlen + 1)];
      }
    }

    /**
     * `usrsctp_accept`, when it does not wait. A pending error changes no queue; an error of
     * `soaccept`, when `agreed` is false, comes after the socket has left its queue: nobody gets it.
     */
    method UserAccept(h: Sid, pending: bool, agreed: bool) returns (r: Option<Sid>)
      requires Valid() && h in socks && socks[h].head.None?
      modifies this
      ensures Valid() && S() == if pending then old(S()) else Step(old(S()), Accept(h))
      ensures r == if pending || !agreed then None else Accepts(old(S()), h)
      ensures r.Some? <==> !pending && agreed && old(socks[h]).listening && old(socks[h]).comp != []
      ensures r.Some? ==> r.value == old(socks[h]).comp[0]
      ensures !pending && old(socks[h]).listening && old(socks[h]).comp != [] ==>
        h in socks && socks[h].comp == old(socks[h]).comp[1..]
      ensures h in socks && Line(socks[h]) == old(Line(socks[h]))
      ensures r.Some? ==> r.value == old(Line(socks[h]))[old(|socks[h].taken|)]
      ensures socks[h].taken == old(socks[h].taken) +
        if pending || Accepts(old(S()), h).None? then [] else [old(Line(socks[h]))[old(|socks[h].taken|)]]
    {
      AcceptedGood(S(), h);
      var k := socks[h];
      if pending || !k.listening || k.comp == [] {
        return None;
      }
      var s := k.comp[0];
      assert WfHead(S(), h) && InComp(S(), h, s);
      var so := socks[s];
      socks := socks[s := so.(count := so.count + 1, sqComp := false, head := None)];
      socks := socks[h := k.(comp := k.comp[1..], qlen := k.qlen - 1, taken := k.taken + [s])];
      return if agreed then Some(s) else None;
    }

    /** `usrsctp_peeloff` */
    method PeelOffAssoc(h: Sid, resources: bool, agreed: bool) returns (r: Option<Sid>)
      requires Valid() && h in socks && socks[h].head.None?
      modifies this
      ensures Valid() && S() == Step(old(S()), PeelOff(h, resources, agreed))
      ensures r == if Over(old(socks[h])) || !resources || !agreed then None else Some(old(next))
      ensures socks == if r.None? then old(socks) else old(socks)[r.value := BLANK.(count := 1)]
      ensures r.Some? ==> r.value !in old(socks)
    {
      ghost var n := S();
      PeeledOffGood(n, h, resources, agreed);
      NextIsNew(n, h);
      r := SoNewConn(h, true, resources);
      if r.None? {
        return;
      }
      var so, k := r.value, socks[h];
      LastOut(n.socks[h].comp, so);
      socks := socks[so := socks[so].(count := 1, sqComp := false, head := None)];
      socks := socks[h := k.(comp := Without(k.comp, so), qlen := k.qlen - 1)];
      assert socks == n.socks[so := BLANK.(count := 1)];
      if !agreed {
        socks := socks - {so};
        assert socks == n.socks;
        return None;
      }
    }

    /** `sofree`, called by the protocol. */
    method SoFree(s: Sid)
      requires Valid() && s in socks
      modifies this
      ensures Valid() && S() == Step(old(S()), Free(s))
    {
      ReleasedGood(S(), s);
      assert WfSock(S(), s);
      var so := socks[s];
      if so.count != 0 || so.sqComp {
        return;
      }
      var h := so.head.value;
      var k := socks[h];
      socks := socks[h := k.(incomp := Without(k.incomp, s), incqlen := k.incqlen - 1)];
      socks := socks - {s};
    }

    /** `usrsctp_close`: all is well afterwards exactly when no connection was still incomplete. */
    method UsrClose(h: Sid)
      requires Valid() && h in socks && socks[h].head.None?
      modifies this
      ensures S() == Step(old(S()), Close(h))
      ensures Valid() <==> CloseSafe(old(socks[h]))
    {
      ghost var n := S();
      CloseExactly(n, h);
      if socks[h].listening {
        DrainedKeeps(n, h);
        while socks[h].comp != []
          invariant Valid() && h in socks && socks[h].head.None? && next == n.next
          invariant Drained(S(), h) == Drained(n, h)
          decreases |socks[h].comp|
        {
          AbortedGood(S(), h);
          var k := socks[h];
          socks := socks[h := k.(comp := k.comp[1..], qlen := k.qlen - 1)];
          socks := socks - {k.comp[0]};
        }
      }
      if socks[h].count > 1 {
        socks := socks[h := socks[h].(count := socks[h].count - 1)];
      } else {
        socks := socks - {h};
      }
    }
  }
}
