/**
 * The timer wheel of sctp_callout.c: a queue of callouts, a tick count, and a
 * cursor that start and stop keep valid while the tick loop has dropped its lock.
 */
module Callout {
  import opened Common

  type TimerId = nat

  /** `struct sctp_callout`: due time, the two flag bits, and what to call. */
  datatype Callout = Callout(time: int, active: bool, pending: bool, func: Option<nat>, arg: int)

  /** What `sctp_os_timer_init` leaves behind. */
  const ZEROED := Callout(0, false, false, None, 0)

  /** The globals `ticks`, the call queue and `sctp_os_timer_next`, and the callouts themselves. */
  datatype Wheel = Wheel(ticks: int, queue: seq<TimerId>, next: Option<TimerId>, callouts: map<TimerId, Callout>)

  /** One locked operation on the wheel; `None` is a null pointer. */
  datatype Op =
    | Start(timer: Option<TimerId>, toTicks: int, ftn: Option<nat>, arg: int)
    | Stop(c: TimerId)

  datatype Firing = Firing(timer: TimerId, func: Option<nat>, arg: int)

  function Get(callouts: map<TimerId, Callout>, c: TimerId): Callout {
    if c in callouts then callouts[c] else ZEROED
  }

  /** `TAILQ_NEXT`. */
  function Successor(q: seq<TimerId>, c: TimerId): Option<TimerId> {
    if q == [] then None
    else if q[0] != c then Successor(q[1..], c)
    else if |q| == 1 then None
    else Some(q[1])
  }

  /** Unlink a queued timer, moving the cursor off it. */
  function Unlink(w: Wheel, c: TimerId): Wheel {
    w.(next := if w.next == Some(c) then Successor(w.queue, c) else w.next, queue := Without(w.queue, c))
  }

  function Started(w: Wheel, c: TimerId, toTicks: int, ftn: nat, arg: int): Wheel {
    var u := if Get(w.callouts, c).pending then Unlink(w, c) else w;
    var delay := if toTicks <= 0 then 1 else toTicks;
    u.(callouts := u.callouts[c := Callout(w.ticks + delay, true, true, Some(ftn), arg)],
       queue := u.queue + [c])
  }

  function Stopped(w: Wheel, c: TimerId): Wheel {
    var t := Get(w.callouts, c);
    if !t.pending then w.(callouts := w.callouts[c := t.(active := false)])
    else Unlink(w, c).(callouts := w.callouts[c := t.(active := false, pending := false)])
  }

  function Apply(w: Wheel, op: Op): Wheel {
    match op
    case Start(Some(c), toTicks, Some(ftn), arg) => Started(w, c, toTicks, ftn, arg)
    case Start(_, _, _, _) => w
    case Stop(c) => Stopped(w, c)
  }

  function ApplyAll(w: Wheel, ops: seq<Op>): Wheel
    decreases |ops|
  {
    if ops == [] then w
    else ApplyAll(Apply(w, ops[0]), ops[1..])
  }

  predicate Touches(op: Op, c: TimerId) {
    match op
    case Start(t, _, ftn, _) => t == Some(c) && ftn.Some?
    case Stop(d) => d == c
  }

  predicate TouchedBy(ops: seq<Op>, c: TimerId) {
    exists i :: 0 <= i < |ops| && Touches(ops[i], c)
  }

  /** Every queued timer is pending and conversely, no timer is queued twice, the cursor is queued. */
  ghost predicate Valid(w: Wheel) {
    && Distinct(w.queue)
    && (forall c: TimerId :: Get(w.callouts, c).pending <==> c in w.queue)
    && (w.next.Some? ==> w.next.value in w.queue)
  }

  predicate IsDue(cs: map<TimerId, Callout>, now: int, c: TimerId) {
    Get(cs, c).time <= now
  }

  /** The due timers of `q`, in order. */
  function DueIn(cs: map<TimerId, Callout>, now: int, q: seq<TimerId>): (r: seq<TimerId>)
    ensures |r| <= |q|
  {
    if q == [] then [] else (if IsDue(cs, now, q[0]) then [q[0]] else []) + DueIn(cs, now, q[1..])
  }

  const EMPTY := Wheel(0, [], None, map[])

  // ------------------------------------------------- the cursor-free reference

  /** Take `c` off the queue to run its callback. */
  function Fire(w: Wheel, c: TimerId): Wheel {
    w.(queue := Without(w.queue, c), callouts := w.callouts[c := Get(w.callouts, c).(pending := false)])
  }

  function FiringOf(w: Wheel, c: TimerId): Firing {
    Firing(c, Get(w.callouts, c).func, Get(w.callouts, c).arg)
  }

  /** Cross a timer off the agenda when it is restarted or stopped. */
  function Cross(agenda: seq<TimerId>, op: Op): (r: seq<TimerId>)
    ensures |r| <= |agenda|
  {
    match op
    case Start(Some(c), _, Some(_), _) => Without(agenda, c)
    case Start(_, _, _, _) => agenda
    case Stop(c) => Without(agenda, c)
  }

  function CrossAll(agenda: seq<TimerId>, ops: seq<Op>): (r: seq<TimerId>)
    ensures |r| <= |agenda|
    decreases |ops|
  {
    if ops == [] then agenda else CrossAll(Cross(agenda, ops[0]), ops[1..])
  }

  /**
   * The simple form of a tick: with the due timers listed once, in queue order, fire the
   * first and cross off whatever its callback touched, until the list is empty.
   */
  function RunAgenda(w: Wheel, agenda: seq<TimerId>, env: nat -> seq<Op>, k: nat): (Wheel, seq<Firing>)
    decreases |agenda|
  {
    if agenda == [] then (w, [])
    else
      var c := agenda[0];
      var (end, later) := RunAgenda(ApplyAll(Fire(w, c), env(k)), CrossAll(agenda[1..], env(k)), env, k + 1);
      (end, [FiringOf(w, c)] + later)
  }

  /** The wheel after the tick count moved, before any timer is looked at. */
  function Advance(w: Wheel, delta: int): Wheel {
    w.(ticks := w.ticks + delta, next := None)
  }

  function Tick(w: Wheel, delta: int, env: nat -> seq<Op>): (Wheel, seq<Firing>) {
    var a := Advance(w, delta);
    RunAgenda(a, DueIn(a.callouts, a.ticks, a.queue), env, 0)
  }

  // ------------------------------------------------------ lemmas on the queue

  lemma {:induction false} DueInAppend(cs: map<TimerId, Callout>, now: int, a: seq<TimerId>, b: seq<TimerId>)
    ensures DueIn(cs, now, a + b) == DueIn(cs, now, a) + DueIn(cs, now, b)
  {
    if a == [] {
      assert a + b == b;
    } else {
      assert (a + b)[1..] == a[1..] + b;
      DueInAppend(cs, now, a[1..], b);
      Associative(if IsDue(cs, now, a[0]) then [a[0]] else [], DueIn(cs, now, a[1..]), DueIn(cs, now, b));
    }
  }

  lemma {:induction false} DueInWithout(cs: map<TimerId, Callout>, now: int, q: seq<TimerId>, x: TimerId)
    ensures DueIn(cs, now, Without(q, x)) == Without(DueIn(cs, now, q), x)
  {
    if q != [] {
      DueInWithout(cs, now, q[1..], x);
      var first := if IsDue(cs, now, q[0]) then [q[0]] else [];
      WithoutAppend(first, DueIn(cs, now, q[1..]), x);
      var kept := if q[0] == x then [] else [q[0]];
      DueInAppend(cs, now, kept, Without(q[1..], x));
    }
  }

  /** Changing the record of a timer outside `q` does not matter to `q`. */
  lemma {:induction false} DueInFrame(cs: map<TimerId, Callout>, now: int, q: seq<TimerId>, x: TimerId, t: Callout)
    requires x !in q || t.time == Get(cs, x).time
    ensures DueIn(cs[x := t], now, q) == DueIn(cs, now, q)
  {
    if q != [] {
      DueInFrame(cs, now, q[1..], x, t);
    }
  }

  lemma {:induction false} DueInMembers(cs: map<TimerId, Callout>, now: int, q: seq<TimerId>)
    ensures forall c :: c in DueIn(cs, now, q) <==> c in q && IsDue(cs, now, c)
  {
    if q != [] {
      DueInMembers(cs, now, q[1..]);
      assert q == [q[0]] + q[1..];
    }
  }

  lemma {:induction false} DueInDistinct(cs: map<TimerId, Callout>, now: int, q: seq<TimerId>)
    requires Distinct(q)
    ensures Distinct(DueIn(cs, now, q))
    ensures Subsequence(DueIn(cs, now, q), q)
  {
    if q != [] {
      assert Distinct(q[1..]);
      DueInDistinct(cs, now, q[1..]);
      DueInMembers(cs, now, q[1..]);
      assert q[0] !in q[1..];
      var d := DueIn(cs, now, q[1..]);
      assert d != [] ==> d[0] in d;
      assert !IsDue(cs, now, q[0]) ==> DueIn(cs, now, q) == d;
    }
  }

  /** The queue from the cursor on. */
  function From(q: seq<TimerId>, c: Option<TimerId>): (r: seq<TimerId>)
    ensures |r| <= |q|
    ensures c.Some? && c.value in q ==> r != [] && r[0] == c.value
  {
    if c.None? || q == [] then []
    else if q[0] == c.value then q
    else From(q[1..], c)
  }

  lemma {:induction false} FromMembers(q: seq<TimerId>, c: Option<TimerId>)
    ensures forall x :: x in From(q, c) ==> x in q
  {
    if c.Some? && q != [] && q[0] != c.value {
      FromMembers(q[1..], c);
    }
  }

  function HeadOf(q: seq<TimerId>): Option<TimerId> {
    if q == [] then None else Some(q[0])
  }

  lemma {:induction false} FromUnlinked(q: seq<TimerId>, n: Option<TimerId>, x: TimerId)
    requires Distinct(q) && x in q
    requires n.Some? ==> n.value in q
    ensures
      var n' := if n == Some(x) then Successor(q, x) else n;
      && From(Without(q, x), n') == Without(From(q, n), x)
      && (n'.Some? ==> n'.value in Without(q, x))
  {
    var rest := q[1..];
    assert Distinct(rest) && q[0] !in rest;
    if n.None? {
    } else if q[0] == x {
      assert Without(q, x) == rest by { WithoutAbsent(rest, x); }
      if n.value == x {
        assert rest != [] ==> From(rest, Some(q[1])) == rest;
      } else {
        assert x !in From(rest, n) by { FromMembers(rest, n); }
        WithoutAbsent(From(rest, n), x);
      }
    } else if q[0] == n.value {
      assert Without(q, x)[0] == n.value;
    } else {
      FromUnlinked(rest, n, x);
      assert q[0] !in Without(rest, x) by { WithoutMembers(rest, x); }
      assert Without(q, x)[1..] == Without(rest, x);
    }
  }

  lemma {:induction false} FromAppend(q: seq<TimerId>, n: Option<TimerId>, x: TimerId)
    requires n.Some? ==> n.value in q
    ensures From(q + [x], n) == if n.None? then [] else From(q, n) + [x]
  {
    if n.Some? && q[0] != n.value {
      assert (q + [x])[1..] == q[1..] + [x];
      FromAppend(q[1..], n, x);
    }
  }

  lemma {:induction false} FromSuccessor(q: seq<TimerId>, c: TimerId)
    requires Distinct(q) && c in q
    ensures From(q, Successor(q, c)) == From(q, Some(c))[1..]
    ensures Successor(q, c).Some? ==> Successor(q, c).value in q
    ensures Distinct(From(q, Some(c)))
  {
    assert Distinct(q[1..]);
    if q[0] != c {
      FromSuccessor(q[1..], c);
      assert q[0] !in q[1..];
    } else if |q| > 1 {
      assert q[1] != q[0];
      assert From(q[1..], Some(q[1])) == q[1..];
    }
  }

  // ------------------------------------------- what the cursor is good for

  /** The due timers the loop has still to reach. */
  function Pending(w: Wheel, c: Option<TimerId>): seq<TimerId> {
    DueIn(w.callouts, w.ticks, From(w.queue, c))
  }

  /** A cursor is sound when no due timer is queued before it. */
  ghost predicate AtCursor(w: Wheel, c: Option<TimerId>) {
    && Valid(w)
    && (c.Some? ==> c.value in w.queue)
    && DueIn(w.callouts, w.ticks, w.queue) == Pending(w, c)
  }

  /** What one start or stop does to the rest of a tick in progress. */
  ghost predicate Carries(w: Wheel, w': Wheel, pending': seq<TimerId>) {
    && AtCursor(w', w'.next)
    && w'.ticks == w.ticks
    && Pending(w', w'.next) == pending'
  }

  lemma {:induction false} UnlinkValid(w: Wheel, x: TimerId, t: Callout)
    requires Valid(w) && x in w.queue && !t.pending
    ensures Valid(Unlink(w, x).(callouts := w.callouts[x := t]))
  {
    FromUnlinked(w.queue, w.next, x);
    WithoutDistinct(w.queue, x);
    WithoutMembers(w.queue, x);
  }

  lemma {:induction false} UnlinkCarries(w: Wheel, x: TimerId, t: Callout)
    requires AtCursor(w, w.next) && x in w.queue && !t.pending && t.time == Get(w.callouts, x).time
    ensures Carries(w, Unlink(w, x).(callouts := w.callouts[x := t]), Without(Pending(w, w.next), x))
  {
    var u := Unlink(w, x).(callouts := w.callouts[x := t]);
    UnlinkValid(w, x, t);
    FromUnlinked(w.queue, w.next, x);
    DueInWithout(w.callouts, w.ticks, From(w.queue, w.next), x);
    DueInWithout(w.callouts, w.ticks, w.queue, x);
    DueInFrame(w.callouts, w.ticks, From(u.queue, u.next), x, t);
    DueInFrame(w.callouts, w.ticks, u.queue, x, t);
  }

  lemma {:induction false} EnqueueValid(w: Wheel, x: TimerId, t: Callout)
    requires Valid(w) && x !in w.queue && t.pending
    ensures Valid(w.(callouts := w.callouts[x := t], queue := w.queue + [x]))
  {
  }

  lemma {:induction false} EnqueueCarries(w: Wheel, x: TimerId, t: Callout)
    requires AtCursor(w, w.next) && x !in w.queue && t.pending && w.ticks < t.time
    ensures Carries(w, w.(callouts := w.callouts[x := t], queue := w.queue + [x]), Pending(w, w.next))
  {
    var u := w.(callouts := w.callouts[x := t], queue := w.queue + [x]);
    var at := From(w.queue, w.next);
    EnqueueValid(w, x, t);
    FromAppend(w.queue, w.next, x);
    assert DueIn(u.callouts, u.ticks, [x]) == [];
    DueInAppend(u.callouts, u.ticks, at, [x]);
    DueInAppend(u.callouts, u.ticks, w.queue, [x]);
    assert x !in at by { FromMembers(w.queue, w.next); }
    DueInFrame(w.callouts, w.ticks, at, x, t);
    DueInFrame(w.callouts, w.ticks, w.queue, x, t);
  }

  lemma {:induction false} StartCarries(w: Wheel, c: TimerId, toTicks: int, ftn: nat, arg: int)
    requires AtCursor(w, w.next)
    ensures Carries(w, Started(w, c, toTicks, ftn, arg), Without(Pending(w, w.next), c))
  {
    var t := Callout(w.ticks + (if toTicks <= 0 then 1 else toTicks), true, true, Some(ftn), arg);
    if Get(w.callouts, c).pending {
      var idle := Get(w.callouts, c).(active := false, pending := false);
      UnlinkCarries(w, c, idle);
      var u := Unlink(w, c).(callouts := w.callouts[c := idle]);
      WithoutMembers(w.queue, c);
      EnqueueCarries(u, c, t);
      assert u.callouts[c := t] == w.callouts[c := t];
    } else {
      EnqueueCarries(w, c, t);
      NotPending(w, c);
    }
  }

  lemma {:induction false} NotPending(w: Wheel, c: TimerId)
    requires c !in w.queue
    ensures Without(Pending(w, w.next), c) == Pending(w, w.next)
  {
    FromMembers(w.queue, w.next);
    DueInMembers(w.callouts, w.ticks, From(w.queue, w.next));
    WithoutAbsent(Pending(w, w.next), c);
  }

  lemma {:induction false} OpCarries(w: Wheel, op: Op)
    requires AtCursor(w, w.next)
    ensures Carries(w, Apply(w, op), Cross(Pending(w, w.next), op))
  {
    match op
    case Start(Some(c), toTicks, Some(ftn), arg) => StartCarries(w, c, toTicks, ftn, arg);
    case Start(_, _, _, _) =>
    case Stop(c) =>
      var t := Get(w.callouts, c);
      if t.pending {
        UnlinkCarries(w, c, t.(active := false, pending := false));
      } else {
        DueInFrame(w.callouts, w.ticks, From(w.queue, w.next), c, t.(active := false));
        DueInFrame(w.callouts, w.ticks, w.queue, c, t.(active := false));
        NotPending(w, c);
      }
  }

  lemma {:induction false} OpsCarry(w: Wheel, ops: seq<Op>)
    requires AtCursor(w, w.next)
    ensures Carries(w, ApplyAll(w, ops), CrossAll(Pending(w, w.next), ops))
    decreases |ops|
  {
    if ops != [] {
      OpCarries(w, ops[0]);
      OpsCarry(Apply(w, ops[0]), ops[1..]);
    }
  }

  /** Start and stop do not depend on the cursor. */
  lemma {:induction false} OpsForgetCursor(w: Wheel, ops: seq<Op>)
    ensures ApplyAll(w, ops).(next := None) == ApplyAll(w.(next := None), ops)
    decreases |ops|
  {
    if ops != [] {
      assert Apply(w, ops[0]).(next := None) == Apply(w.(next := None), ops[0]);
      OpsForgetCursor(Apply(w, ops[0]), ops[1..]);
      OpsForgetCursor(Apply(w.(next := None), ops[0]), ops[1..]);
    }
  }

  /** Running on from `w` at cursor `c` completes the tick that began at `start`. */
  ghost predicate Resumes(start: Wheel, env: nat -> seq<Op>, w: Wheel, c: Option<TimerId>, fired: seq<Firing>) {
    var whole := RunAgenda(start.(next := None), DueIn(start.callouts, start.ticks, start.queue), env, 0);
    var rest := RunAgenda(w.(next := None), Pending(w, c), env, |fired|);
    whole.0 == rest.0 && whole.1 == fired + rest.1
  }

  lemma {:induction false} BeginResumes(start: Wheel, env: nat -> seq<Op>)
    requires Valid(start)
    ensures AtCursor(start, HeadOf(start.queue))
    ensures Resumes(start, env, start, HeadOf(start.queue), [])
  {
    assert From(start.queue, HeadOf(start.queue)) == start.queue;
  }

  /** Taking the due timer `t` off the queue leaves the cursor on the rest of the agenda. */
  lemma {:induction false} FireCarries(w: Wheel, t: TimerId)
    requires AtCursor(w, Some(t)) && IsDue(w.callouts, w.ticks, t)
    ensures
      var mid := Fire(w, t).(next := Successor(w.queue, t));
      Carries(w, mid, Pending(w, Some(t))[1..]) && Pending(w, Some(t)) != [] && Pending(w, Some(t))[0] == t
  {
    var at := w.(next := Some(t));
    UnlinkCarries(at, t, Get(w.callouts, t).(pending := false));
    var rest := From(w.queue, Some(t));
    FromSuccessor(w.queue, t);
    assert rest == [t] + rest[1..];
    assert t !in rest[1..];
    assert Pending(w, Some(t)) == [t] + DueIn(w.callouts, w.ticks, rest[1..]);
    DueInMembers(w.callouts, w.ticks, rest[1..]);
    WithoutAbsent(DueIn(w.callouts, w.ticks, rest[1..]), t);
    WithoutAppend([t], DueIn(w.callouts, w.ticks, rest[1..]), t);
  }

  /** Firing the due timer `t` under the cursor, then letting `env` run. */
  lemma {:induction false} FireResumes(start: Wheel, env: nat -> seq<Op>, w: Wheel, t: TimerId, fired: seq<Firing>)
    requires AtCursor(w, Some(t)) && IsDue(w.callouts, w.ticks, t)
    requires Resumes(start, env, w, Some(t), fired)
    ensures
      var w' := ApplyAll(Fire(w, t).(next := Successor(w.queue, t)), env(|fired|));
      && AtCursor(w', w'.next)
      && Resumes(start, env, w', w'.next, fired + [FiringOf(w, t)])
      && |Pending(w', w'.next)| < |Pending(w, Some(t))|
  {
    var n := Successor(w.queue, t);
    var mid := Fire(w, t).(next := n);
    var w' := ApplyAll(mid, env(|fired|));
    FireCarries(w, t);
    OpsCarry(mid, env(|fired|));
    OpsForgetCursor(mid, env(|fired|));
    var base := w.(next := None);
    assert mid.(next := None) == Fire(base, t);
    var later := RunAgenda(w'.(next := None), Pending(w', w'.next), env, |fired| + 1).1;
    assert RunAgenda(base, Pending(w, Some(t)), env, |fired|).1 == [FiringOf(w, t)] + later;
    assert fired + ([FiringOf(w, t)] + later) == (fired + [FiringOf(w, t)]) + later;
  }

  lemma {:induction false} NoneDue(w: Wheel)
    requires AtCursor(w, None)
    ensures forall c :: c in w.queue ==> w.ticks < Get(w.callouts, c).time
  {
    DueInMembers(w.callouts, w.ticks, w.queue);
    assert forall c :: c in w.queue && IsDue(w.callouts, w.ticks, c) ==> c in DueIn(w.callouts, w.ticks, w.queue);
  }

  lemma {:induction false} SkipResumes(start: Wheel, env: nat -> seq<Op>, w: Wheel, t: TimerId, fired: seq<Firing>)
    requires AtCursor(w, Some(t)) && !IsDue(w.callouts, w.ticks, t)
    requires Resumes(start, env, w, Some(t), fired)
    ensures AtCursor(w, Successor(w.queue, t))
    ensures Resumes(start, env, w, Successor(w.queue, t), fired)
    ensures |From(w.queue, Successor(w.queue, t))| < |From(w.queue, Some(t))|
  {
    FromSuccessor(w.queue, t);
    var at := From(w.queue, Some(t));
    assert at == [t] + at[1..];
  }

  // ------------------------------------------------ what a tick guarantees

  /** The agenda lists exactly the due timers in the queue, each once. */
  ghost predicate Agenda(w: Wheel, agenda: seq<TimerId>) {
    && Valid(w) && w.next == None
    && Distinct(agenda)
    && agenda == DueIn(w.callouts, w.ticks, w.queue)
  }

  lemma {:induction false} TickBegins(w: Wheel, delta: int)
    requires Valid(w)
    ensures Agenda(Advance(w, delta), DueIn(w.callouts, w.ticks + delta, w.queue))
  {
    DueInDistinct(w.callouts, w.ticks + delta, w.queue);
  }

  /** One round of the agenda leaves an agenda. */
  lemma {:induction false} RoundKeepsAgenda(w: Wheel, agenda: seq<TimerId>, ops: seq<Op>)
    requires Agenda(w, agenda) && agenda != []
    ensures Agenda(ApplyAll(Fire(w, agenda[0]), ops), CrossAll(agenda[1..], ops))
    ensures ApplyAll(Fire(w, agenda[0]), ops).ticks == w.ticks
  {
    FireKeepsAgenda(w, agenda);
    OpsKeepAgenda(Fire(w, agenda[0]), agenda[1..], ops);
  }

  lemma {:induction false} FireKeepsAgenda(w: Wheel, agenda: seq<TimerId>)
    requires Agenda(w, agenda) && agenda != []
    ensures Agenda(Fire(w, agenda[0]), agenda[1..]) && Fire(w, agenda[0]).ticks == w.ticks
  {
    var c := agenda[0];
    assert c in agenda;
    var f := Fire(w, c);
    assert Valid(f) by {
      DueInMembers(w.callouts, w.ticks, w.queue);
      UnlinkValid(w, c, Get(w.callouts, c).(pending := false));
    }
    DueInWithout(w.callouts, w.ticks, w.queue, c);
    DueInFrame(w.callouts, w.ticks, f.queue, c, Get(w.callouts, c).(pending := false));
    assert Without(agenda, c) == agenda[1..] by {
      assert c !in agenda[1..];
      WithoutAbsent(agenda[1..], c);
    }
  }

  lemma {:induction false} OpsKeepAgenda(w: Wheel, agenda: seq<TimerId>, ops: seq<Op>)
    requires Agenda(w, agenda)
    ensures Agenda(ApplyAll(w, ops), CrossAll(agenda, ops))
    ensures ApplyAll(w, ops).ticks == w.ticks
    decreases |ops|
  {
    if ops != [] {
      OpKeepsAgenda(w, agenda, ops[0]);
      OpsKeepAgenda(Apply(w, ops[0]), Cross(agenda, ops[0]), ops[1..]);
    }
  }

  lemma {:induction false} OpKeepsAgenda(w: Wheel, agenda: seq<TimerId>, op: Op)
    requires Agenda(w, agenda)
    ensures Agenda(Apply(w, op), Cross(agenda, op))
    ensures Apply(w, op).ticks == w.ticks
  {
    var h := HeadOf(w.queue);
    var at := w.(next := h);
    assert From(w.queue, h) == w.queue;
    OpCarries(at, op);
    var at' := Apply(at, op);
    assert Apply(w, op) == at'.(next := None);
    if op.Stop? {
      WithoutDistinct(agenda, op.c);
    } else if op.timer.Some? {
      WithoutDistinct(agenda, op.timer.value);
    }
  }

  /** After a tick the wheel is consistent, the cursor is null, and nothing queued is due. */
  lemma {:induction false} AgendaEmpties(w: Wheel, agenda: seq<TimerId>, env: nat -> seq<Op>, k: nat)
    requires Agenda(w, agenda)
    ensures
      var end := RunAgenda(w, agenda, env, k).0;
      Agenda(end, []) && end.ticks == w.ticks
    decreases |agenda|
  {
    if agenda != [] {
      RoundKeepsAgenda(w, agenda, env(k));
      AgendaEmpties(ApplyAll(Fire(w, agenda[0]), env(k)), CrossAll(agenda[1..], env(k)), env, k + 1);
    }
  }

  lemma {:induction false} TickLeavesNothingDue(w: Wheel, delta: int, env: nat -> seq<Op>)
    requires Valid(w)
    ensures
      var end := Tick(w, delta, env).0;
      && Valid(end) && end.next == None
      && end.ticks == w.ticks + delta
      && forall c :: c in end.queue ==> end.ticks < Get(end.callouts, c).time
  {
    TickBegins(w, delta);
    var a := Advance(w, delta);
    AgendaEmpties(a, DueIn(a.callouts, a.ticks, a.queue), env, 0);
    NoneDue(Tick(w, delta, env).0);
  }

  function Timers(fired: seq<Firing>): (r: seq<TimerId>)
    ensures |r| == |fired|
    ensures forall i :: 0 <= i < |fired| ==> r[i] == fired[i].timer
  {
    seq(|fired|, i requires 0 <= i < |fired| => fired[i].timer)
  }

  lemma {:induction false} CrossAllMembers(agenda: seq<TimerId>, ops: seq<Op>, c: TimerId)
    ensures c in CrossAll(agenda, ops) <==> c in agenda && !TouchedBy(ops, c)
    decreases |ops|
  {
    if ops != [] {
      CrossAllMembers(Cross(agenda, ops[0]), ops[1..], c);
      assert ops == [ops[0]] + ops[1..];
      assert TouchedBy(ops, c) <==> Touches(ops[0], c) || TouchedBy(ops[1..], c) by {
        if TouchedBy(ops[1..], c) {
          var i :| 0 <= i < |ops[1..]| && Touches(ops[1..][i], c);
          assert Touches(ops[i + 1], c);
        }
        if TouchedBy(ops, c) {
          var i :| 0 <= i < |ops| && Touches(ops[i], c);
          assert i > 0 ==> Touches(ops[1..][i - 1], c);
        }
      }
      CrossMembers(agenda, ops[0], c);
    }
  }

  lemma {:induction false} CrossMembers(agenda: seq<TimerId>, op: Op, c: TimerId)
    ensures c in Cross(agenda, op) <==> c in agenda && !Touches(op, c)
  {
    match op
    case Start(Some(d), _, Some(_), _) => WithoutMembers(agenda, d);
    case Start(_, _, _, _) =>
    case Stop(d) => WithoutMembers(agenda, d);
  }

  lemma {:induction false} SubsequenceMono(a: seq<TimerId>, b: seq<TimerId>, x: TimerId)
    requires Subsequence(a, Without(b, x))
    ensures Subsequence(a, b)
    decreases |b|
  {
    if a != [] && b != [] {
      var r := Without(b, x);
      if b[0] == x {
        assert r == Without(b[1..], x);
        SubsequenceMono(a, b[1..], x);
      } else {
        assert r[1..] == Without(b[1..], x);
        if a[0] == b[0] && Subsequence(a[1..], r[1..]) {
          SubsequenceMono(a[1..], b[1..], x);
        } else {
          SubsequenceMono(a, b[1..], x);
        }
      }
    }
  }

  lemma {:induction false} SubsequenceMembers(a: seq<TimerId>, b: seq<TimerId>)
    requires Subsequence(a, b)
    ensures forall x :: x in a ==> x in b
    decreases |b|
  {
    if a != [] {
      assert a == [a[0]] + a[1..];
      if a[0] == b[0] && Subsequence(a[1..], b[1..]) {
        SubsequenceMembers(a[1..], b[1..]);
      } else {
        SubsequenceMembers(a, b[1..]);
      }
    }
  }

  lemma {:induction false} CrossAllSubsequence(a: seq<TimerId>, agenda: seq<TimerId>, ops: seq<Op>)
    requires Subsequence(a, CrossAll(agenda, ops))
    ensures Subsequence(a, agenda)
    decreases |ops|
  {
    if ops != [] {
      CrossAllSubsequence(a, Cross(agenda, ops[0]), ops[1..]);
      match ops[0]
      case Start(Some(c), _, Some(_), _) => SubsequenceMono(a, agenda, c);
      case Start(_, _, _, _) =>
      case Stop(c) => SubsequenceMono(a, agenda, c);
    }
  }

  /** What the first round of a non-empty agenda leaves to do. */
  function Round(w: Wheel, agenda: seq<TimerId>, ops: seq<Op>): (Wheel, seq<TimerId>)
    requires agenda != []
  {
    (ApplyAll(Fire(w, agenda[0]), ops), CrossAll(agenda[1..], ops))
  }

  lemma {:induction false} RunFirst(w: Wheel, agenda: seq<TimerId>, env: nat -> seq<Op>, k: nat)
    requires agenda != []
    ensures
      var (w1, later) := Round(w, agenda, env(k));
      var rest := RunAgenda(w1, later, env, k + 1).1;
      && RunAgenda(w, agenda, env, k).0 == RunAgenda(w1, later, env, k + 1).0
      && RunAgenda(w, agenda, env, k).1 == [FiringOf(w, agenda[0])] + rest
      && Timers(RunAgenda(w, agenda, env, k).1) == [agenda[0]] + Timers(rest)
  {
  }

  /** The timers fired are due ones, in queue order, each at most once. */
  lemma {:induction false} FiredInOrder(w: Wheel, agenda: seq<TimerId>, env: nat -> seq<Op>, k: nat)
    requires Distinct(agenda)
    ensures
      var ids := Timers(RunAgenda(w, agenda, env, k).1);
      Subsequence(ids, agenda) && Distinct(ids)
    decreases |agenda|
  {
    if agenda != [] {
      var (w1, later) := Round(w, agenda, env(k));
      var rest := Timers(RunAgenda(w1, later, env, k + 1).1);
      RunFirst(w, agenda, env, k);
      CrossAllDistinct(agenda[1..], env(k));
      FiredInOrder(w1, later, env, k + 1);
      CrossAllSubsequence(rest, agenda[1..], env(k));
      assert agenda[0] !in rest by { SubsequenceMembers(rest, agenda[1..]); }
    }
  }

  lemma {:induction false} CrossAllDistinct(agenda: seq<TimerId>, ops: seq<Op>)
    requires Distinct(agenda)
    ensures Distinct(CrossAll(agenda, ops))
    decreases |ops|
  {
    if ops != [] {
      match ops[0] {
        case Start(Some(c), _, Some(_), _) => WithoutDistinct(agenda, c);
        case Start(_, _, _, _) =>
        case Stop(c) => WithoutDistinct(agenda, c);
      }
      CrossAllDistinct(Cross(agenda, ops[0]), ops[1..]);
    }
  }

  /** `c` was restarted or stopped while the callback of some firing before the `n`-th ran. */
  ghost predicate TouchedBefore(env: nat -> seq<Op>, k: nat, n: nat, c: TimerId) {
    exists j: nat :: k <= j < k + n && TouchedBy(env(j), c)
  }

  /** `x` comes before `c` in `q`. */
  predicate Precedes(q: seq<TimerId>, x: TimerId, c: TimerId) {
    q != [] && ((q[0] == x && c in q[1..]) || Precedes(q[1..], x, c))
  }

  lemma {:induction false} PrecedesMembers(q: seq<TimerId>, x: TimerId, c: TimerId)
    requires Precedes(q, x, c)
    ensures x in q && c in q[1..]
  {
    if !(q[0] == x && c in q[1..]) {
      PrecedesMembers(q[1..], x, c);
    }
  }

  /** Taking another timer out does not change which of two comes first. */
  lemma {:induction false} PrecedesWithout(q: seq<TimerId>, d: TimerId, x: TimerId, c: TimerId)
    requires x != d && c != d
    ensures Precedes(Without(q, d), x, c) <==> Precedes(q, x, c)
  {
    if q != [] {
      PrecedesWithout(q[1..], d, x, c);
      WithoutMembers(q[1..], d);
      if q[0] != d {
        assert Without(q, d)[1..] == Without(q[1..], d);
      } else {
        assert Without(q, d) == Without(q[1..], d);
      }
    }
  }

  lemma {:induction false} PrecedesCrossAll(agenda: seq<TimerId>, ops: seq<Op>, x: TimerId, c: TimerId)
    requires x in CrossAll(agenda, ops) && c in CrossAll(agenda, ops)
    ensures Precedes(CrossAll(agenda, ops), x, c) <==> Precedes(agenda, x, c)
    decreases |ops|
  {
    if ops != [] {
      var next := Cross(agenda, ops[0]);
      CrossAllMembers(next, ops[1..], x);
      CrossAllMembers(next, ops[1..], c);
      PrecedesCrossAll(next, ops[1..], x, c);
      match ops[0]
      case Start(Some(d), _, Some(_), _) =>
        WithoutMembers(agenda, d);
        PrecedesWithout(agenda, d, x, c);
      case Start(_, _, _, _) =>
      case Stop(d) =>
        WithoutMembers(agenda, d);
        PrecedesWithout(agenda, d, x, c);
    }
  }

  /** The j-th callback, of a timer before `c`, restarted or stopped `c`. */
  predicate KnocksOut(agenda: seq<TimerId>, fired: seq<Firing>, env: nat -> seq<Op>, k: nat, c: TimerId, j: nat)
    requires j < |fired|
  {
    TouchedBy(env(k + j), c) && Precedes(agenda, fired[j].timer, c)
  }

  /** `c` was restarted or stopped before its turn. */
  ghost predicate KnockedOut(agenda: seq<TimerId>, fired: seq<Firing>, env: nat -> seq<Op>, k: nat, c: TimerId) {
    exists j: nat :: j < |fired| && KnocksOut(agenda, fired, env, k, c, j)
  }

  /**
   * A timer on the agenda fires exactly if it is not touched before its turn; one that fires as the
   * i-th was not touched by any earlier callback, and is called with the function and argument it
   * was last started with.
   */
  ghost predicate FiresProperly(w: Wheel, agenda: seq<TimerId>, fired: seq<Firing>, env: nat -> seq<Op>, k: nat,
    c: TimerId)
  {
    && (c in Timers(fired) <==> !KnockedOut(agenda, fired, env, k, c))
    && (forall i :: 0 <= i < |fired| && fired[i].timer == c ==>
          !TouchedBefore(env, k, i, c) && fired[i] == FiringOf(w, c))
  }

  lemma {:induction false} FiresUnlessTouched(w: Wheel, agenda: seq<TimerId>, env: nat -> seq<Op>, k: nat, c: TimerId)
    requires Distinct(agenda) && c in agenda
    ensures FiresProperly(w, agenda, RunAgenda(w, agenda, env, k).1, env, k, c)
    decreases |agenda|
  {
    var (w1, later) := Round(w, agenda, env(k));
    var rest := RunAgenda(w1, later, env, k + 1).1;
    RunFirst(w, agenda, env, k);
    CrossAllDistinct(agenda[1..], env(k));
    FiredInOrder(w1, later, env, k + 1);
    CrossAllMembers(agenda[1..], env(k), c);
    SubsequenceMembers(Timers(rest), later);
    if c in later {
      FiresUnlessTouched(w1, later, env, k + 1, c);
      OpsSpare(Fire(w, agenda[0]), env(k), c);
      KnockedOutLater(w, agenda, rest, env, k, c);
      LaterFires(w, w1, agenda, later, FiringOf(w, agenda[0]), rest, env, k, c);
    } else {
      FirstOrNever(w, agenda, FiringOf(w, agenda[0]), rest, env, k, c);
    }
  }

  /** A timer that survives the first round is knocked out by a later one, or not at all. */
  lemma {:induction false} KnockedOutLater(w: Wheel, agenda: seq<TimerId>, rest: seq<Firing>, env: nat -> seq<Op>,
    k: nat, c: TimerId)
    requires agenda != [] && Distinct(agenda) && c in CrossAll(agenda[1..], env(k)) && !TouchedBy(env(k), c)
    requires forall x :: x in Timers(rest) ==> x in CrossAll(agenda[1..], env(k))
    ensures KnockedOut(agenda, [FiringOf(w, agenda[0])] + rest, env, k, c) <==>
      KnockedOut(CrossAll(agenda[1..], env(k)), rest, env, k + 1, c)
  {
    var later, fired := CrossAll(agenda[1..], env(k)), [FiringOf(w, agenda[0])] + rest;
    forall i: nat | 0 < i < |fired|
      ensures KnocksOut(agenda, fired, env, k, c, i) <==> KnocksOut(later, rest, env, k + 1, c, i - 1)
    {
      var x := rest[i - 1].timer;
      assert Timers(rest)[i - 1] in Timers(rest);
      PrecedesCrossAll(agenda[1..], env(k), x, c);
      CrossAllMembers(agenda[1..], env(k), x);
      assert agenda[0] !in agenda[1..];
      assert fired[i] == rest[i - 1] && k + i == k + 1 + (i - 1);
    }
    if KnockedOut(agenda, fired, env, k, c) {
      var j: nat :| j < |fired| && KnocksOut(agenda, fired, env, k, c, j);
      assert j > 0 && KnocksOut(later, rest, env, k + 1, c, j - 1);
    }
    if KnockedOut(later, rest, env, k + 1, c) {
      var j: nat :| j < |rest| && KnocksOut(later, rest, env, k + 1, c, j);
      assert KnocksOut(agenda, fired, env, k, c, j + 1);
    }
  }

  lemma {:induction false} LaterFires(w: Wheel, w1: Wheel, agenda: seq<TimerId>, later: seq<TimerId>, first: Firing,
    rest: seq<Firing>, env: nat -> seq<Op>, k: nat, c: TimerId)
    requires first.timer != c && !TouchedBy(env(k), c)
    requires FiringOf(w1, c) == FiringOf(w, c)
    requires FiresProperly(w1, later, rest, env, k + 1, c)
    requires KnockedOut(agenda, [first] + rest, env, k, c) <==> KnockedOut(later, rest, env, k + 1, c)
    ensures FiresProperly(w, agenda, [first] + rest, env, k, c)
  {
    var fired := [first] + rest;
    assert Timers(fired) == [first.timer] + Timers(rest);
    forall i | 0 <= i < |fired| && fired[i].timer == c
      ensures !TouchedBefore(env, k, i, c) && fired[i] == FiringOf(w, c)
    {
      assert fired[i] == rest[i - 1];
    }
  }

  lemma {:induction false} FirstOrNever(w: Wheel, agenda: seq<TimerId>, first: Firing, rest: seq<Firing>,
    env: nat -> seq<Op>, k: nat, c: TimerId)
    requires agenda != [] && Distinct(agenda) && c in agenda && c !in Timers(rest)
    requires first == FiringOf(w, agenda[0]) && (c == agenda[0] || TouchedBy(env(k), c))
    ensures FiresProperly(w, agenda, [first] + rest, env, k, c)
  {
    var fired := [first] + rest;
    assert Timers(fired) == [first.timer] + Timers(rest);
    forall j | 0 <= j < |rest|
      ensures rest[j].timer != c
    {
      assert Timers(rest)[j] in Timers(rest);
    }
    if c == agenda[0] {
      forall j: nat | j < |fired| ensures !KnocksOut(agenda, fired, env, k, c, j) {
        if Precedes(agenda, fired[j].timer, c) {
          PrecedesMembers(agenda, fired[j].timer, c);
        }
      }
    } else {
      assert agenda == [agenda[0]] + agenda[1..];
      assert KnocksOut(agenda, fired, env, k, c, 0);
    }
  }

  /** Operations on other timers leave the record of `c` alone. */
  lemma {:induction false} OpsSpare(w: Wheel, ops: seq<Op>, c: TimerId)
    requires !TouchedBy(ops, c)
    ensures Get(ApplyAll(w, ops).callouts, c) == Get(w.callouts, c)
    decreases |ops|
  {
    if ops != [] {
      assert !Touches(ops[0], c);
      assert !TouchedBy(ops[1..], c) by {
        forall i | 0 <= i < |ops[1..]| ensures !Touches(ops[1..][i], c) { assert !Touches(ops[i + 1], c); }
      }
      OpsSpare(Apply(w, ops[0]), ops[1..], c);
    }
  }

  /**
   * The contract of one tick, for every behaviour of callbacks and other threads: a timer due at
   * the start fires, once, exactly unless restarted or stopped before its turn; nothing else fires;
   * the order is the queue order; each firing uses the function and argument of the latest start.
   */
  lemma {:induction false} TickFires(w: Wheel, delta: int, env: nat -> seq<Op>)
    requires Valid(w)
    ensures
      var fired := Tick(w, delta, env).1;
      var due := DueIn(w.callouts, w.ticks + delta, w.queue);
      && Distinct(Timers(fired)) && Subsequence(Timers(fired), due)
      && (forall c :: c in due ==> (c in Timers(fired) <==> !KnockedOut(due, fired, env, 0, c)))
      && (forall i :: 0 <= i < |fired| ==>
            && fired[i].timer in due
            && !TouchedBefore(env, 0, i, fired[i].timer)
            && fired[i] == FiringOf(w, fired[i].timer))
  {
    var a := Advance(w, delta);
    var due := DueIn(w.callouts, w.ticks + delta, w.queue);
    var fired := Tick(w, delta, env).1;
    DueInDistinct(w.callouts, a.ticks, w.queue);
    FiredInOrder(a, due, env, 0);
    SubsequenceMembers(Timers(fired), due);
    forall c | c in due ensures c in Timers(fired) <==> !KnockedOut(due, fired, env, 0, c) {
      FiresUnlessTouched(a, due, env, 0, c);
    }
    forall i | 0 <= i < |fired|
      ensures
        && fired[i].timer in due
        && !TouchedBefore(env, 0, i, fired[i].timer)
        && fired[i] == FiringOf(w, fired[i].timer)
    {
      assert Timers(fired)[i] in Timers(fired);
      FiresUnlessTouched(a, due, env, 0, fired[i].timer);
    }
  }

  // ---------------------------------------- whole runs and the order of starts

  /** A history is the list of timers started so far; `-1` when `c` was never started. */
  function LatestStart(history: seq<TimerId>, c: TimerId): (r: int)
    ensures -1 <= r < |history|
  {
    if history == [] then -1
    else if history[|history| - 1] == c then |history| - 1
    else LatestStart(history[..|history| - 1], c)
  }

  ghost predicate InStartOrder(q: seq<TimerId>, history: seq<TimerId>) {
    forall i, j :: 0 <= i < j < |q| ==> LatestStart(history, q[i]) < LatestStart(history, q[j])
  }

  function StartsOf(op: Op): seq<TimerId> {
    if op.Start? && op.timer.Some? && op.ftn.Some? then [op.timer.value] else []
  }

  function Starts(ops: seq<Op>): seq<TimerId> {
    if ops == [] then [] else StartsOf(ops[0]) + Starts(ops[1..])
  }

  /** The starts made during `n` rounds of a tick, from the `k`-th on. */
  function TickStarts(env: nat -> seq<Op>, k: nat, n: nat): seq<TimerId>
    decreases n
  {
    if n == 0 then [] else Starts(env(k)) + TickStarts(env, k + 1, n - 1)
  }

  lemma {:induction false} SubsequenceInOrder(a: seq<TimerId>, q: seq<TimerId>, history: seq<TimerId>)
    requires Subsequence(a, q) && InStartOrder(q, history)
    ensures InStartOrder(a, history)
    decreases |q|
  {
    if a != [] {
      assert InStartOrder(q[1..], history);
      if a[0] == q[0] && Subsequence(a[1..], q[1..]) {
        SubsequenceInOrder(a[1..], q[1..], history);
        forall j | 0 < j < |a| ensures LatestStart(history, a[0]) < LatestStart(history, a[j]) {
          SubsequenceMembers(a[1..], q[1..]);
          assert a[j] in a[1..];
          var i :| 0 <= i < |q[1..]| && q[1..][i] == a[j];
          assert q[i + 1] == a[j];
        }
        forall i, j | 0 <= i < j < |a| ensures LatestStart(history, a[i]) < LatestStart(history, a[j]) {
          if i > 0 {
            assert a[1..][i - 1] == a[i] && a[1..][j - 1] == a[j];
          }
        }
      } else {
        SubsequenceInOrder(a, q[1..], history);
      }
    }
  }

  lemma {:induction false} WithoutSubsequence(q: seq<TimerId>, x: TimerId)
    ensures Subsequence(Without(q, x), q)
  {
    if q != [] {
      WithoutSubsequence(q[1..], x);
      if q[0] == x {
        assert Without(q, x) == Without(q[1..], x);
      } else {
        assert Without(q, x)[1..] == Without(q[1..], x);
      }
    }
  }

  lemma {:induction false} StartKeepsOrder(q: seq<TimerId>, history: seq<TimerId>, c: TimerId)
    requires InStartOrder(q, history) && c !in q
    ensures InStartOrder(q + [c], history + [c])
  {
    forall x | x != c ensures LatestStart(history + [c], x) == LatestStart(history, x) {
      assert (history + [c])[..|history|] == history;
    }
  }

  lemma {:induction false} WithoutKeepsOrder(q: seq<TimerId>, c: TimerId, history: seq<TimerId>)
    requires InStartOrder(q, history)
    ensures InStartOrder(Without(q, c), history)
  {
    WithoutSubsequence(q, c);
    SubsequenceInOrder(Without(q, c), q, history);
  }

  lemma {:induction false} OpKeepsOrder(w: Wheel, op: Op, history: seq<TimerId>)
    requires Valid(w) && InStartOrder(w.queue, history)
    ensures InStartOrder(Apply(w, op).queue, history + StartsOf(op))
  {
    assert history + [] == history;
    match op
    case Start(Some(c), _, Some(_), _) =>
      WithoutKeepsOrder(w.queue, c, history);
      WithoutMembers(w.queue, c);
      StartKeepsOrder(Without(w.queue, c), history, c);
      WithoutAbsent(w.queue, c);
    case Start(_, _, _, _) =>
    case Stop(c) =>
      WithoutKeepsOrder(w.queue, c, history);
  }

  lemma {:induction false} OpKeepsValid(w: Wheel, op: Op)
    requires Valid(w) && w.next == None
    ensures Valid(Apply(w, op)) && Apply(w, op).next == None
  {
    match op
    case Start(Some(c), toTicks, Some(ftn), arg) =>
      var t := Get(w.callouts, c);
      var idle := w.callouts[c := t.(pending := false)];
      WithoutMembers(w.queue, c);
      if t.pending {
        UnlinkValid(w, c, t.(pending := false));
      } else {
        WithoutAbsent(w.queue, c);
      }
      var u := if t.pending then Unlink(w, c).(callouts := idle) else w;
      var started := Apply(w, op);
      EnqueueValid(u, c, started.callouts[c]);
      assert u.callouts[c := started.callouts[c]] == started.callouts;
    case Start(_, _, _, _) =>
    case Stop(c) =>
      if Get(w.callouts, c).pending {
        UnlinkValid(w, c, Get(w.callouts, c).(active := false, pending := false));
      }
  }

  lemma {:induction false} OpsKeepOrder(w: Wheel, ops: seq<Op>, history: seq<TimerId>)
    requires Valid(w) && w.next == None && InStartOrder(w.queue, history)
    ensures InStartOrder(ApplyAll(w, ops).queue, history + Starts(ops))
    decreases |ops|
  {
    if ops == [] {
      assert history + [] == history;
    } else {
      OpKeepsOrder(w, ops[0], history);
      OpKeepsValid(w, ops[0]);
      OpsKeepOrder(Apply(w, ops[0]), ops[1..], history + StartsOf(ops[0]));
      assert (history + StartsOf(ops[0])) + Starts(ops[1..]) == history + Starts(ops);
    }
  }

  lemma {:induction false} RoundKeepsOrder(w: Wheel, agenda: seq<TimerId>, ops: seq<Op>, history: seq<TimerId>)
    requires Agenda(w, agenda) && agenda != [] && InStartOrder(w.queue, history)
    ensures InStartOrder(Round(w, agenda, ops).0.queue, history + Starts(ops))
  {
    var f := Fire(w, agenda[0]);
    assert Valid(f) by { RoundKeepsAgenda(w, agenda, []); }
    WithoutSubsequence(w.queue, agenda[0]);
    SubsequenceInOrder(f.queue, w.queue, history);
    OpsKeepOrder(f, ops, history);
  }

  lemma {:induction false} TickStartsFirst(env: nat -> seq<Op>, k: nat, n: nat, history: seq<TimerId>)
    ensures history + TickStarts(env, k, n + 1) == (history + Starts(env(k))) + TickStarts(env, k + 1, n)
  {
    assert TickStarts(env, k, n + 1) == Starts(env(k)) + TickStarts(env, k + 1, n);
    Associative(history, Starts(env(k)), TickStarts(env, k + 1, n));
  }

  lemma {:induction false} AgendaKeepsOrder(w: Wheel, agenda: seq<TimerId>, env: nat -> seq<Op>, k: nat,
    history: seq<TimerId>)
    requires Agenda(w, agenda) && InStartOrder(w.queue, history)
    ensures InStartOrder(RunAgenda(w, agenda, env, k).0.queue,
                         history + TickStarts(env, k, |RunAgenda(w, agenda, env, k).1|))
    decreases |agenda|
  {
    if agenda == [] {
      assert history + [] == history;
    } else {
      var (w1, later) := Round(w, agenda, env(k));
      var history1 := history + Starts(env(k));
      assert InStartOrder(w1.queue, history1) by { RoundKeepsOrder(w, agenda, env(k), history); }
      assert Agenda(w1, later) by { RoundKeepsAgenda(w, agenda, env(k)); }
      AgendaKeepsOrder(w1, later, env, k + 1, history1);
      var n := |RunAgenda(w1, later, env, k + 1).1|;
      assert |RunAgenda(w, agenda, env, k).1| == n + 1 by { RunFirst(w, agenda, env, k); }
      assert RunAgenda(w, agenda, env, k).0 == RunAgenda(w1, later, env, k + 1).0 by { RunFirst(w, agenda, env, k); }
      TickStartsFirst(env, k, n, history);
    }
  }

  /** An event of a run: a locked operation between ticks, or a whole tick. */
  datatype Event = Locked(op: Op) | Ticked(delta: int, env: nat -> seq<Op>)

  ghost function Step(w: Wheel, e: Event): Wheel {
    match e
    case Locked(op) => Apply(w, op)
    case Ticked(delta, env) => Tick(w, delta, env).0
  }

  ghost function StartsIn(w: Wheel, e: Event): seq<TimerId> {
    match e
    case Locked(op) => StartsOf(op)
    case Ticked(delta, env) => TickStarts(env, 0, |Tick(w, delta, env).1|)
  }

  ghost function Run(w: Wheel, events: seq<Event>): Wheel
    decreases |events|
  {
    if events == [] then w else Run(Step(w, events[0]), events[1..])
  }

  ghost function HistoryOf(w: Wheel, events: seq<Event>): seq<TimerId>
    decreases |events|
  {
    if events == [] then [] else StartsIn(w, events[0]) + HistoryOf(Step(w, events[0]), events[1..])
  }

  lemma {:induction false} StepKeeps(w: Wheel, e: Event, history: seq<TimerId>)
    requires Valid(w) && w.next == None && InStartOrder(w.queue, history)
    ensures Valid(Step(w, e)) && Step(w, e).next == None
    ensures InStartOrder(Step(w, e).queue, history + StartsIn(w, e))
  {
    match e
    case Locked(op) =>
      OpKeepsValid(w, op);
      OpKeepsOrder(w, op, history);
    case Ticked(delta, env) =>
      var a := Advance(w, delta);
      var due := DueIn(a.callouts, a.ticks, a.queue);
      TickBegins(w, delta);
      AgendaEmpties(a, due, env, 0);
      AgendaKeepsOrder(a, due, env, 0, history);
  }

  lemma {:induction false} RunKeeps(w: Wheel, events: seq<Event>, history: seq<TimerId>)
    requires Valid(w) && w.next == None && InStartOrder(w.queue, history)
    ensures Valid(Run(w, events)) && Run(w, events).next == None
    ensures InStartOrder(Run(w, events).queue, history + HistoryOf(w, events))
    decreases |events|
  {
    if events == [] {
      assert history + [] == history;
    } else {
      StepKeeps(w, events[0], history);
      RunKeeps(Step(w, events[0]), events[1..], history + StartsIn(w, events[0]));
      assert (history + StartsIn(w, events[0])) + HistoryOf(Step(w, events[0]), events[1..])
          == history + HistoryOf(w, events);
    }
  }

  /** In every run, each tick fires its timers in the order of their latest starts. */
  lemma {:induction false} FiresInStartOrder(events: seq<Event>, delta: int, env: nat -> seq<Op>)
    ensures
      var w := Run(EMPTY, events);
      Valid(w) && w.next == None && InStartOrder(Timers(Tick(w, delta, env).1), HistoryOf(EMPTY, events))
  {
    var w, history := Run(EMPTY, events), HistoryOf(EMPTY, events);
    RunKeeps(EMPTY, events, []);
    assert [] + history == history;
    TickInOrder(w, history, delta, env);
  }

  lemma {:induction false} TickInOrder(w: Wheel, history: seq<TimerId>, delta: int, env: nat -> seq<Op>)
    requires Valid(w) && InStartOrder(w.queue, history)
    ensures InStartOrder(Timers(Tick(w, delta, env).1), history)
  {
    var due := DueIn(w.callouts, w.ticks + delta, w.queue);
    DueInDistinct(w.callouts, w.ticks + delta, w.queue);
    SubsequenceInOrder(due, w.queue, history);
    TickFires(w, delta, env);
    SubsequenceInOrder(Timers(Tick(w, delta, env).1), due, history);
  }

  // ------------------------------------------------------ what a start promises

  /** What the last start of a timer announced, and no stop or firing has settled yet. */
  datatype Promise = Promise(due: int, func: nat, arg: int)

  /** A start at tick count `now` promises a call after the delay asked for, of one tick at least. */
  function Promised(c: TimerId, now: int, op: Op, p: Option<Promise>): Option<Promise> {
    if !Touches(op, c) then p
    else if op.Stop? then None
    else Some(Promise(now + Max(op.toTicks, 1), op.ftn.value, op.arg))
  }

  function PromisedAll(c: TimerId, now: int, ops: seq<Op>, p: Option<Promise>): Option<Promise>
    decreases |ops|
  {
    if ops == [] then p else PromisedAll(c, now, ops[1..], Promised(c, now, ops[0], p))
  }

  /** A tick that fires `fired`: each firing settles a promise, then its callback may make new ones. */
  function PromisedTick(c: TimerId, now: int, fired: seq<Firing>, env: nat -> seq<Op>, k: nat, p: Option<Promise>):
    Option<Promise>
    decreases |fired|
  {
    if fired == [] then p
    else PromisedTick(c, now, fired[1..], env, k + 1,
      PromisedAll(c, now, env(k), if fired[0].timer == c then None else p))
  }

  /** How far an event moves the tick count. */
  function Moves(e: Event): int {
    if e.Ticked? then e.delta else 0
  }

  function Elapsed(events: seq<Event>): int {
    if events == [] then 0 else Moves(events[0]) + Elapsed(events[1..])
  }

  /** What an event fires. */
  ghost function FiredBy(w: Wheel, e: Event): seq<Firing> {
    match e
    case Locked(_) => []
    case Ticked(delta, env) => Tick(w, delta, env).1
  }

  ghost function FiredIn(w: Wheel, events: seq<Event>): seq<Firing>
    decreases |events|
  {
    if events == [] then [] else FiredBy(w, events[0]) + FiredIn(Step(w, events[0]), events[1..])
  }

  ghost function PromisedBy(w: Wheel, now: int, e: Event, c: TimerId, p: Option<Promise>): Option<Promise> {
    match e
    case Locked(op) => Promised(c, now, op, p)
    case Ticked(delta, env) => PromisedTick(c, now + delta, FiredBy(w, e), env, 0, p)
  }

  /** The promise outstanding after a run that begins at tick count `now`, from what was asked for and fired. */
  ghost function PromisedRun(w: Wheel, now: int, events: seq<Event>, c: TimerId, p: Option<Promise>): Option<Promise>
    decreases |events|
  {
    if events == [] then p
    else PromisedRun(Step(w, events[0]), now + Moves(events[0]), events[1..], c, PromisedBy(w, now, events[0], c, p))
  }

  /** The wheel has `c` queued exactly while a promise is outstanding, and remembers what was promised. */
  ghost predicate Honours(w: Wheel, c: TimerId, p: Option<Promise>) {
    && (p.Some? <==> c in w.queue)
    && (p.Some? ==>
          var t := Get(w.callouts, c);
          t.time == p.value.due && t.func == Some(p.value.func) && t.arg == p.value.arg)
  }

  lemma {:induction false} OpHonours(w: Wheel, op: Op, c: TimerId, p: Option<Promise>)
    requires Valid(w) && (Honours(w, c, p) || (op.Start? && Touches(op, c)))
    ensures Honours(Apply(w, op), c, Promised(c, w.ticks, op, p)) && Apply(w, op).ticks == w.ticks
  {
    match op
    case Start(Some(d), _, Some(_), _) => WithoutMembers(w.queue, d);
    case Start(_, _, _, _) =>
    case Stop(d) => WithoutMembers(w.queue, d);
  }

  lemma {:induction false} OpsHonour(w: Wheel, ops: seq<Op>, c: TimerId, p: Option<Promise>)
    requires Valid(w) && w.next == None && Honours(w, c, p)
    ensures Honours(ApplyAll(w, ops), c, PromisedAll(c, w.ticks, ops, p))
    decreases |ops|
  {
    if ops != [] {
      OpHonours(w, ops[0], c, p);
      OpKeepsValid(w, ops[0]);
      OpsHonour(Apply(w, ops[0]), ops[1..], c, Promised(c, w.ticks, ops[0], p));
    }
  }

  lemma {:induction false} AgendaHonours(w: Wheel, agenda: seq<TimerId>, env: nat -> seq<Op>, k: nat, c: TimerId,
    p: Option<Promise>)
    requires Agenda(w, agenda) && Honours(w, c, p)
    ensures
      var (end, fired) := RunAgenda(w, agenda, env, k);
      Honours(end, c, PromisedTick(c, w.ticks, fired, env, k, p))
    decreases |agenda|
  {
    if agenda != [] {
      var f := Fire(w, agenda[0]);
      var settled := if agenda[0] == c then None else p;
      FireKeepsAgenda(w, agenda);
      assert Honours(f, c, settled) by { WithoutMembers(w.queue, agenda[0]); }
      OpsHonour(f, env(k), c, settled);
      RoundKeepsAgenda(w, agenda, env(k));
      var (w1, later) := Round(w, agenda, env(k));
      AgendaHonours(w1, later, env, k + 1, c, PromisedAll(c, w.ticks, env(k), settled));
      RunFirst(w, agenda, env, k);
      assert ([FiringOf(w, agenda[0])] + RunAgenda(w1, later, env, k + 1).1)[1..] == RunAgenda(w1, later, env, k + 1).1;
    }
  }

  lemma {:induction false} StepHonours(w: Wheel, e: Event, c: TimerId, p: Option<Promise>)
    requires Valid(w) && Honours(w, c, p)
    ensures Honours(Step(w, e), c, PromisedBy(w, w.ticks, e, c, p))
  {
    match e
    case Locked(op) => OpHonours(w, op, c, p);
    case Ticked(delta, env) =>
      TickBegins(w, delta);
      var a := Advance(w, delta);
      AgendaHonours(a, DueIn(a.callouts, a.ticks, a.queue), env, 0, c, p);
  }

  lemma {:induction false} RunHonours(w: Wheel, events: seq<Event>, c: TimerId, p: Option<Promise>)
    requires Valid(w) && w.next == None && Honours(w, c, p)
    ensures Honours(Run(w, events), c, PromisedRun(w, w.ticks, events, c, p))
    ensures Run(w, events).ticks == w.ticks + Elapsed(events)
    decreases |events|
  {
    if events != [] {
      StepValid(w, events[0]);
      StepHonours(w, events[0], c, p);
      RunHonours(Step(w, events[0]), events[1..], c, PromisedBy(w, w.ticks, events[0], c, p));
    }
  }

  lemma {:induction false} StepValid(w: Wheel, e: Event)
    requires Valid(w) && w.next == None
    ensures Valid(Step(w, e)) && Step(w, e).next == None && Step(w, e).ticks == w.ticks + Moves(e)
  {
    match e
    case Locked(op) => OpKeepsValid(w, op);
    case Ticked(delta, env) => TickLeavesNothingDue(w, delta, env);
  }

  /** In a queue in start order, one timer comes before another exactly if it was started before it. */
  lemma {:induction false} PrecedesByStart(q: seq<TimerId>, history: seq<TimerId>, x: TimerId, c: TimerId)
    requires InStartOrder(q, history) && x in q && c in q
    ensures Precedes(q, x, c) <==> LatestStart(history, x) < LatestStart(history, c)
  {
    assert q == [q[0]] + q[1..];
    forall y | y in q[1..] ensures LatestStart(history, q[0]) < LatestStart(history, y) {
      var i :| 0 <= i < |q[1..]| && q[1..][i] == y;
      assert q[i + 1] == y;
    }
    if x in q[1..] && c in q[1..] {
      assert InStartOrder(q[1..], history);
      PrecedesByStart(q[1..], history, x, c);
    } else if Precedes(q[1..], x, c) {
      PrecedesMembers(q[1..], x, c);
    }
  }

  /** The callback of a timer that was started before `c`, and fired, restarted or stopped `c`. */
  predicate Forestalls(history: seq<TimerId>, f: Firing, ops: seq<Op>, c: TimerId) {
    TouchedBy(ops, c) && LatestStart(history, f.timer) < LatestStart(history, c)
  }

  ghost predicate Forestalled(history: seq<TimerId>, fired: seq<Firing>, env: nat -> seq<Op>, c: TimerId) {
    exists j: nat :: j < |fired| && Forestalls(history, fired[j], env(j), c)
  }

  /** A tick that ends at `now` calls `c` exactly if a promise is due and nothing forestalls it. */
  ghost predicate KeepsPromise(history: seq<TimerId>, fired: seq<Firing>, env: nat -> seq<Op>, now: int, c: TimerId,
    p: Option<Promise>)
  {
    && (c in Timers(fired) <==> p.Some? && p.value.due <= now && !Forestalled(history, fired, env, c))
    && (forall i :: 0 <= i < |fired| && fired[i].timer == c ==>
          p.Some? && fired[i] == Firing(c, Some(p.value.func), p.value.arg))
  }

  lemma {:induction false} KnockedOutByStart(due: seq<TimerId>, history: seq<TimerId>, fired: seq<Firing>,
    env: nat -> seq<Op>, c: TimerId)
    requires InStartOrder(due, history) && c in due && forall x :: x in Timers(fired) ==> x in due
    ensures KnockedOut(due, fired, env, 0, c) <==> Forestalled(history, fired, env, c)
  {
    forall j: nat | j < |fired|
      ensures KnocksOut(due, fired, env, 0, c, j) <==> Forestalls(history, fired[j], env(j), c)
    {
      assert Timers(fired)[j] in Timers(fired);
      PrecedesByStart(due, history, fired[j].timer, c);
    }
  }

  lemma {:induction false} TickKeepsPromise(w: Wheel, delta: int, env: nat -> seq<Op>, history: seq<TimerId>,
    c: TimerId, p: Option<Promise>)
    requires Valid(w) && InStartOrder(w.queue, history) && Honours(w, c, p)
    ensures KeepsPromise(history, Tick(w, delta, env).1, env, w.ticks + delta, c, p)
  {
    var fired := Tick(w, delta, env).1;
    var due := DueIn(w.callouts, w.ticks + delta, w.queue);
    TickFires(w, delta, env);
    DueInMembers(w.callouts, w.ticks + delta, w.queue);
    SubsequenceMembers(Timers(fired), due);
    if c in due {
      assert InStartOrder(due, history) by {
        DueInDistinct(w.callouts, w.ticks + delta, w.queue);
        SubsequenceInOrder(due, w.queue, history);
      }
      KnockedOutByStart(due, history, fired, env, c);
    }
    forall i | 0 <= i < |fired| && fired[i].timer == c
      ensures p.Some? && fired[i] == Firing(c, Some(p.value.func), p.value.arg)
    {
      assert Timers(fired)[i] in Timers(fired);
    }
  }

  /**
   * Over every run, ticks call what was promised, when it was promised: never before the delay is
   * over, then with the function and argument of the last start, and not again.
   */
  lemma {:induction false} FiresAsPromised(events: seq<Event>, delta: int, env: nat -> seq<Op>, c: TimerId)
    ensures
      var w := Run(EMPTY, events);
      KeepsPromise(HistoryOf(EMPTY, events), Tick(w, delta, env).1, env, Elapsed(events) + delta, c,
        PromisedRun(EMPTY, 0, events, c, None))
  {
    var w, history := Run(EMPTY, events), HistoryOf(EMPTY, events);
    RunKeeps(EMPTY, events, []);
    assert [] + history == history;
    RunHonours(EMPTY, events, c, None);
    TickKeepsPromise(w, delta, env, history, c, PromisedRun(EMPTY, 0, events, c, None));
  }

  /** No event restarts or stops `c`. */
  ghost predicate Quiet(w: Wheel, events: seq<Event>, c: TimerId)
    decreases |events|
  {
    events != [] ==>
      && Quiet(Step(w, events[0]), events[1..], c)
      && match events[0]
         case Locked(op) => !Touches(op, c)
         case Ticked(_, env) => !TouchedBefore(env, 0, |FiredBy(w, events[0])|, c)
  }

  /** Fewer than `delay` ticks are over after each event. */
  predicate Early(events: seq<Event>, delay: int) {
    events == [] || (Moves(events[0]) < delay && Early(events[1..], delay - Moves(events[0])))
  }

  lemma {:induction false} QuietPromise(c: TimerId, now: int, ops: seq<Op>, p: Option<Promise>)
    requires !TouchedBy(ops, c)
    ensures PromisedAll(c, now, ops, p) == p
    decreases |ops|
  {
    if ops != [] {
      assert !Touches(ops[0], c);
      forall i | 0 <= i < |ops[1..]| ensures !Touches(ops[1..][i], c) { assert !Touches(ops[i + 1], c); }
      QuietPromise(c, now, ops[1..], p);
    }
  }

  lemma {:induction false} QuietTick(c: TimerId, now: int, fired: seq<Firing>, env: nat -> seq<Op>, k: nat,
    p: Option<Promise>)
    requires c !in Timers(fired) && !TouchedBefore(env, k, |fired|, c)
    ensures PromisedTick(c, now, fired, env, k, p) == p
    decreases |fired|
  {
    if fired != [] {
      assert Timers(fired)[0] in Timers(fired);
      assert !TouchedBy(env(k), c);
      QuietPromise(c, now, env(k), p);
      assert Timers(fired)[1..] == Timers(fired[1..]);
      QuietTick(c, now, fired[1..], env, k + 1, p);
    }
  }

  /** A promise outlives a quiet tick that ends before its time. */
  lemma {:induction false} QuietTickKeeps(w: Wheel, delta: int, env: nat -> seq<Op>, c: TimerId, p: Promise)
    requires Valid(w) && Honours(w, c, Some(p)) && w.ticks + delta < p.due
    requires !TouchedBefore(env, 0, |Tick(w, delta, env).1|, c)
    ensures Honours(Tick(w, delta, env).0, c, Some(p)) && c !in Timers(Tick(w, delta, env).1)
  {
    var a := Advance(w, delta);
    var due := DueIn(a.callouts, a.ticks, a.queue);
    var fired := Tick(w, delta, env).1;
    assert c !in Timers(fired) by {
      TickFires(w, delta, env);
      DueInMembers(a.callouts, a.ticks, a.queue);
      SubsequenceMembers(Timers(fired), due);
    }
    QuietTick(c, a.ticks, fired, env, 0, Some(p));
    assert Honours(Tick(w, delta, env).0, c, Some(p)) by {
      TickBegins(w, delta);
      AgendaHonours(a, due, env, 0, c, Some(p));
    }
  }

  /** And a run of quiet events before its time. */
  lemma {:induction false} QuietRun(w: Wheel, events: seq<Event>, c: TimerId, p: Promise)
    requires Valid(w) && w.next == None && Honours(w, c, Some(p))
    requires Quiet(w, events, c) && Early(events, p.due - w.ticks)
    ensures Honours(Run(w, events), c, Some(p)) && Valid(Run(w, events)) && Run(w, events).next == None
    ensures Run(w, events).ticks == w.ticks + Elapsed(events) && c !in Timers(FiredIn(w, events))
    decreases |events|
  {
    if events != [] {
      var e := events[0];
      StepValid(w, e);
      assert Honours(Step(w, e), c, Some(p)) && c !in Timers(FiredBy(w, e)) by {
        match e
        case Locked(op) => OpHonours(w, op, c, Some(p));
        case Ticked(delta, env) => QuietTickKeeps(w, delta, env, c, p);
      }
      QuietRun(Step(w, e), events[1..], c, p);
      assert Timers(FiredIn(w, events)) == Timers(FiredBy(w, e)) + Timers(FiredIn(Step(w, e), events[1..]));
    }
  }

  /**
   * One start and what comes of it: whatever quiet events follow, `c` does not fire before
   * `max(toTicks, 1)` ticks are over. The first tick by which they are calls `ftn` with `arg`, exactly
   * unless the callback of a timer started before `c` restarts or stops it in that tick.
   */
  lemma {:induction false} StartWaits(w: Wheel, history: seq<TimerId>, c: TimerId, toTicks: int, ftn: nat, arg: int,
    events: seq<Event>, delta: int, env: nat -> seq<Op>)
    requires Valid(w) && w.next == None && InStartOrder(w.queue, history)
    requires
      var s := Apply(w, Start(Some(c), toTicks, Some(ftn), arg));
      Quiet(s, events, c) && Early(events, Max(toTicks, 1))
    ensures
      var s := Apply(w, Start(Some(c), toTicks, Some(ftn), arg));
      var fired := Tick(Run(s, events), delta, env).1;
      && c !in Timers(FiredIn(s, events))
      && (c in Timers(fired) <==>
            Max(toTicks, 1) <= Elapsed(events) + delta
            && !Forestalled((history + [c]) + HistoryOf(s, events), fired, env, c))
      && (forall i :: 0 <= i < |fired| && fired[i].timer == c ==> fired[i] == Firing(c, Some(ftn), arg))
  {
    var op := Start(Some(c), toTicks, Some(ftn), arg);
    var s, p := Apply(w, op), Promise(w.ticks + Max(toTicks, 1), ftn, arg);
    OpKeepsValid(w, op);
    OpKeepsOrder(w, op, history);
    OpHonours(w, op, c, None);
    QuietRun(s, events, c, p);
    RunKeeps(s, events, history + [c]);
    TickKeepsPromise(Run(s, events), delta, env, (history + [c]) + HistoryOf(s, events), c, Some(p));
  }

  // ---------------------------------------------------------------- the class

  class TimerWheel {
    var ticks: int
    var queue: seq<TimerId>
    var next: Option<TimerId>
    var callouts: map<TimerId, Callout>

    function View(): Wheel
      reads this
    {
      Wheel(ticks, queue, next, callouts)
    }

    constructor ()
      ensures View() == EMPTY
    {
      ticks, queue, next, callouts := 0, [], None, map[];
    }

    method StartTimer(timer: Option<TimerId>, toTicks: int, ftn: Option<nat>, arg: int)
      modifies this
      ensures View() == Apply(old(View()), Start(timer, toTicks, ftn, arg))
      ensures timer.Some? && ftn.Some? ==>
        && queue != [] && queue[|queue| - 1] == timer.value
        && Get(callouts, timer.value) == Callout(ticks + Max(toTicks, 1), true, true, ftn, arg)
    {
      if timer.None? || ftn.None? {
        return;
      }
      var c := timer.value;
      if Get(callouts, c).pending {
        if next == Some(c) {
          next := Successor(queue, c);
        }
        queue := Without(queue, c);
      }
      var delay := toTicks;
      if delay <= 0 {
        delay := 1;
      }
      callouts := callouts[c := Callout(ticks + delay, true, true, ftn, arg)];
      queue := queue + [c];
    }

    method StopTimer(c: TimerId) returns (stopped: int)
      modifies this
      ensures View() == Apply(old(View()), Stop(c))
      ensures Get(callouts, c) == old(Get(callouts, c)).(active := false, pending := false)
      ensures stopped == if old(Get(callouts, c).pending) then 1 else 0
    {
      var t := Get(callouts, c);
      if !t.pending {
        callouts := callouts[c := t.(active := false)];
        return 0;
      }
      callouts := callouts[c := t.(active := false, pending := false)];
      if next == Some(c) {
        next := Successor(queue, c);
      }
      queue := Without(queue, c);
      return 1;
    }

    /** Everything that happens while the tick loop has released its lock. */
    method Unlocked(ops: seq<Op>)
      modifies this
      ensures View() == ApplyAll(old(View()), ops)
    {
      var i := 0;
      while i < |ops|
        invariant 0 <= i <= |ops|
        invariant ApplyAll(View(), ops[i..]) == ApplyAll(old(View()), ops)
      {
        assert ops[i..][0] == ops[i] && ops[i..][1..] == ops[i + 1..];
        match ops[i] {
          case Start(t, toTicks, ftn, arg) => StartTimer(t, toTicks, ftn, arg);
          case Stop(c) => var _ := StopTimer(c);
        }
        i := i + 1;
      }
    }

    /** Take `t` off the queue, remember its successor, and run its callback without the lock. */
    method FireTimer(t: TimerId, ops: seq<Op>) returns (firing: Firing)
      modifies this
      ensures View() == ApplyAll(Fire(old(View()), t).(next := Successor(old(queue), t)), ops)
      ensures firing == FiringOf(old(View()), t)
    {
      next := Successor(queue, t);
      queue := Without(queue, t);
      firing := Firing(t, Get(callouts, t).func, Get(callouts, t).arg);
      callouts := callouts[t := Get(callouts, t).(pending := false)];
      Unlocked(ops);
    }

    /**
     * `sctp_handle_tick`. `env(k)` is whatever the k-th callback of this tick, and any other
     * thread meanwhile, does to the wheel: every behaviour is some such function.
     */
    method HandleTick(delta: int, env: nat -> seq<Op>) returns (fired: seq<Firing>)
      requires Valid(View())
      modifies this
      ensures View() == Tick(old(View()), delta, env).0
      ensures fired == Tick(old(View()), delta, env).1
      ensures Valid(View())
      ensures forall c :: c in queue ==> ticks < Get(callouts, c).time
    {
      ticks := ticks + delta;
      fired := [];
      ghost var start := View();
      var c := HeadOf(queue);
      BeginResumes(start, env);
      while c.Some?
        invariant AtCursor(View(), c)
        invariant Resumes(start, env, View(), c, fired)
        decreases |Pending(View(), c)|, |From(queue, c)|
      {
        ghost var w := View();
        var t := c.value;
        if Get(callouts, t).time <= ticks {
          FireResumes(start, env, w, t, fired);
          var firing := FireTimer(t, env(|fired|));
          fired := fired + [firing];
          c := next;
        } else {
          SkipResumes(start, env, w, t, fired);
          c := Successor(queue, t);
        }
      }
      NoneDue(View());
      next := None;
    }
  }
}
