/**
 * The readers/closer protocol of SctpSocket.java: native calls bracketed by lockPtr and
 * unlockPtr, and closeNative, whose real close is immediate or left to the last reader.
 */
module ClosableSocket {
  import opened Common

  type ActorId = nat

  /** The three fields; `ptr == 0` once the pointer was taken for closing. */
  datatype Fields = Fields(closed: bool, ptr: int, lockCount: int)

  datatype Locked = Acquired(p: int) | SocketClosed
  datatype Unlocked = Release(toClose: int) | Unbalanced

  // ------------------------------------------------- the synchronized blocks

  function LockBlock(f: Fields, seen: bool): (Fields, Locked) {
    if seen then (f, SocketClosed)
    else if f.ptr == 0 then (f, SocketClosed)
    else (f.(lockCount := f.lockCount + 1), Acquired(f.ptr))
  }

  function UnlockBlock(f: Fields, seen: bool): (Fields, Unlocked) {
    var n := f.lockCount - 1;
    if n < 0 then (f, Unbalanced)
    else if seen && n == 0 then (f.(lockCount := n, ptr := 0), Release(f.ptr))
    else (f.(lockCount := n), Release(0))
  }

  function CloseBlock(f: Fields): (Fields, int) {
    if f.lockCount == 0 then (f.(ptr := 0), f.ptr) else (f, 0)
  }

  /** The Java object; each method is one step of an invocation. */
  class Socket {
    var closed: bool
    var ptr: int
    var lockCount: int

    function View(): Fields
      reads this
    {
      Fields(closed, ptr, lockCount)
    }

    constructor (ptr: int)
      ensures View() == Fields(false, ptr, 0)
    {
      closed, this.ptr, lockCount := false, ptr, 0;
    }

    /** The constructor of the source refuses a null pointer. */
    static method Create(ptr: int) returns (s: Option<Socket>)
      ensures s.Some? <==> ptr != 0
      ensures s.Some? ==> fresh(s.value) && s.value.View() == Fields(false, ptr, 0)
    {
      if ptr == 0 {
        s := None;
      } else {
        var o := new Socket(ptr);
        s := Some(o);
      }
    }

    method LockPtr() returns (r: Locked)
      modifies this
      ensures (View(), r) == LockBlock(old(View()), old(closed))
    {
      if closed {
        return SocketClosed;
      }
      var p := ptr;
      if p == 0 {
        return SocketClosed;
      }
      lockCount := lockCount + 1;
      r := Acquired(p);
    }

    method UnlockPtr() returns (r: Unlocked)
      modifies this
      ensures (View(), r) == UnlockBlock(old(View()), old(closed))
    {
      var n := lockCount - 1;
      if n < 0 {
        return Unbalanced;
      }
      lockCount := n;
      if closed && n == 0 {
        r := Release(ptr);
        ptr := 0;
      } else {
        r := Release(0);
      }
    }

    method WriteClosed()
      modifies this
      ensures View() == old(View()).(closed := true)
    {
      closed := true;
    }

    method TakeForClosing() returns (p: int)
      modifies this
      ensures (View(), p) == CloseBlock(old(View()))
    {
      if lockCount == 0 {
        p := ptr;
        ptr := 0;
      } else {
        p := 0;
      }
    }
  }

  // --------------------------------------------------- the interleaved system
  //
  // Every method invocation is an actor; actors interleave between the synchronized blocks.
  // The field `closed` is written outside the monitor, so a synchronized block may read the new
  // value as soon as it is written, and is only bound to read it once some closer has passed its
  // own synchronized block. Sequential consistency is the special case `seen == closed`.

  /** Where an invocation is; an actor not in the map has not been invoked yet. */
  datatype Pc =
    | Holding(p: int)
    | InNative(p: int)
    | WroteClosed
    | Leaving(toClose: int, closer: bool)
    | Returned(closer: bool)
    | Threw

  type Actors = map<ActorId, Pc>

  datatype System = System(fields: Fields, actors: Actors, synced: bool, closeCalls: seq<int>, unbalanced: bool)

  datatype Step =
    | LockPtr(a: ActorId, seen: bool)
    | CallNative(a: ActorId)
    | ReturnNative(a: ActorId)
    | UnlockPtr(a: ActorId, seen: bool)
    | WriteClosed(a: ActorId)
    | TakeForClosing(a: ActorId)
    | Finish(a: ActorId)

  function Init(p: int): System {
    System(Fields(false, p, 0), map[], false, [], false)
  }

  /** The values of `closed` a synchronized block may read. */
  predicate MaySee(s: System, seen: bool) {
    if seen then s.fields.closed else !s.synced
  }

  predicate Enabled(s: System, e: Step) {
    match e
    case LockPtr(a, seen) => a !in s.actors && MaySee(s, seen)
    case CallNative(a) => a in s.actors && s.actors[a].Holding?
    case ReturnNative(a) => a in s.actors && s.actors[a].InNative?
    case UnlockPtr(a, seen) => a in s.actors && s.actors[a].Holding? && MaySee(s, seen)
    case WriteClosed(a) => a !in s.actors
    case TakeForClosing(a) => a in s.actors && s.actors[a].WroteClosed?
    case Finish(a) => a in s.actors && s.actors[a].Leaving?
  }

  function Move(s: System, a: ActorId, pc: Pc): System {
    s.(actors := s.actors[a := pc])
  }

  function Next(s: System, e: Step): System
    requires Enabled(s, e)
  {
    match e
    case LockPtr(a, seen) =>
      var (f, r) := LockBlock(s.fields, seen);
      Move(s.(fields := f), a, if r.Acquired? then Holding(r.p) else Threw)
    case CallNative(a) => Move(s, a, InNative(s.actors[a].p))
    case ReturnNative(a) => Move(s, a, Holding(s.actors[a].p))
    case UnlockPtr(a, seen) =>
      var (f, r) := UnlockBlock(s.fields, seen);
      if r.Release? then Move(s.(fields := f), a, Leaving(r.toClose, false))
      else Move(s.(unbalanced := true), a, Threw)
    case WriteClosed(a) => Move(s.(fields := s.fields.(closed := true)), a, WroteClosed)
    case TakeForClosing(a) =>
      var (f, p) := CloseBlock(s.fields);
      Move(s.(fields := f, synced := true), a, Leaving(p, true))
    case Finish(a) =>
      var p := s.actors[a].toClose;
      Move(if p == 0 then s else s.(closeCalls := s.closeCalls + [p]), a, Returned(s.actors[a].closer))
  }

  /** Where a sequence of steps leads, if each is enabled when its turn comes. */
  function Run(s: System, steps: seq<Step>): Option<System>
    decreases |steps|
  {
    if steps == [] then Some(s)
    else if !Enabled(s, steps[0]) then None
    else Run(Next(s, steps[0]), steps[1..])
  }

  // ------------------------------------------------------------ the invariant

  predicate Holds(pc: Pc) { pc.Holding? || pc.InNative? }

  predicate Takes(pc: Pc) { pc.Leaving? && pc.toClose != 0 }

  /** The invocations between their lockPtr and their unlockPtr. */
  function Holders(s: System): set<ActorId> {
    Where(s.actors, Holds)
  }

  /** The invocations that took the pointer and have still to close it. */
  function Takers(s: System): set<ActorId> {
    Where(s.actors, Takes)
  }

  predicate HoldsIn(s: System, a: ActorId) { a in s.actors && Holds(s.actors[a]) }

  predicate TakesIn(s: System, a: ActorId) { a in s.actors && Takes(s.actors[a]) }

  /** What each invocation may rely on. */
  ghost predicate ActorInv(s: System, p: int, pc: Pc) {
    match pc
    case Holding(q) => q == p && s.fields.ptr == p
    case InNative(q) => q == p && s.fields.ptr == p
    case WroteClosed => s.fields.closed
    case Leaving(q, closer) => q in {0, p} && (closer ==> s.synced)
    case Returned(closer) => closer ==> s.synced
    case Threw => true
  }

  /**
   * The pointer is in exactly one place: the field, the local variable of one invocation, or
   * the one call of closeSocket. Readers are counted, and hold it only while it is in the field.
   */
  ghost predicate Inv(s: System, p: int) {
    && p != 0
    && s.fields.ptr in {0, p}
    && (s.fields.ptr == 0 ==> s.fields.closed)
    && (s.synced ==> s.fields.closed && (s.fields.ptr == p ==> s.fields.lockCount > 0))
    && !s.unbalanced
    && (forall a :: a in s.actors ==> ActorInv(s, p, s.actors[a]))
    && (forall i :: 0 <= i < |s.closeCalls| ==> s.closeCalls[i] == p)
    && s.fields.lockCount == |Holders(s)|
    && |s.closeCalls| + |Takers(s)| + Unit(s.fields.ptr != 0) == 1
  }

  /** Moving one actor changes the two counts by that actor at most. */
  lemma {:induction false} MoveCounts(s: System, s': System, a: ActorId, pc: Pc)
    requires s'.actors == s.actors[a := pc]
    ensures |Holders(s')| == |Holders(s)| + Unit(Holds(pc)) - Unit(HoldsIn(s, a))
    ensures |Takers(s')| == |Takers(s)| + Unit(Takes(pc)) - Unit(TakesIn(s, a))
  {
    WhereMoved(s.actors, a, pc, Holds);
    WhereMoved(s.actors, a, pc, Takes);
  }

  /** A reader that is there is counted. */
  lemma {:induction false} HolderCounted(s: System, a: ActorId)
    requires HoldsIn(s, a)
    ensures |Holders(s)| > 0
    ensures |Holders(s)| == 1 ==> forall b :: HoldsIn(s, b) ==> b == a
  {
    assert a in Holders(s);
    if |Holders(s)| == 1 {
      assert |Holders(s) - {a}| == 0;
      forall b | HoldsIn(s, b) ensures b == a {
        assert b in Holders(s);
        assert b != a ==> b in Holders(s) - {a};
      }
    }
  }

  lemma {:induction false} NoHolder(s: System)
    requires |Holders(s)| == 0
    ensures forall a :: !HoldsIn(s, a)
  {
    forall a | HoldsIn(s, a) ensures false {
      HolderCounted(s, a);
    }
  }

  lemma {:induction false} UnlockKeepsInv(s: System, a: ActorId, seen: bool, p: int)
    requires Inv(s, p) && Enabled(s, UnlockPtr(a, seen))
    ensures Inv(Next(s, UnlockPtr(a, seen)), p)
  {
    var s' := Next(s, UnlockPtr(a, seen));
    HolderCounted(s, a);
    MoveCounts(s, s', a, s'.actors[a]);
    assert ActorInv(s, p, s.actors[a]);
    forall b | b in s'.actors ensures ActorInv(s', p, s'.actors[b]) {
      if b != a {
        assert ActorInv(s, p, s.actors[b]);
        assert Holds(s.actors[b]) ==> HoldsIn(s, b);
      }
    }
  }

  lemma {:induction false} CloseKeepsInv(s: System, a: ActorId, p: int)
    requires Inv(s, p) && Enabled(s, TakeForClosing(a))
    ensures Inv(Next(s, TakeForClosing(a)), p)
  {
    var s' := Next(s, TakeForClosing(a));
    MoveCounts(s, s', a, s'.actors[a]);
    assert ActorInv(s, p, s.actors[a]);
    if s.fields.lockCount == 0 {
      NoHolder(s);
    }
    forall b | b in s'.actors ensures ActorInv(s', p, s'.actors[b]) {
      if b != a {
        assert ActorInv(s, p, s.actors[b]);
        assert Holds(s.actors[b]) ==> HoldsIn(s, b);
      }
    }
  }

  lemma {:induction false} NextKeepsInv(s: System, e: Step, p: int)
    requires Inv(s, p) && Enabled(s, e)
    ensures Inv(Next(s, e), p)
  {
    if e.UnlockPtr? {
      UnlockKeepsInv(s, e.a, e.seen, p);
    } else if e.TakeForClosing? {
      CloseKeepsInv(s, e.a, p);
    } else {
      var s' := Next(s, e);
      MoveCounts(s, s', e.a, s'.actors[e.a]);
      assert e.a in s.actors ==> ActorInv(s, p, s.actors[e.a]);
      forall b | b in s'.actors ensures ActorInv(s', p, s'.actors[b]) {
        assert b != e.a ==> ActorInv(s, p, s.actors[b]);
      }
    }
  }

  lemma {:induction false} RunKeepsInv(s: System, steps: seq<Step>, p: int)
    requires Inv(s, p)
    ensures Run(s, steps).Some? ==> Inv(Run(s, steps).value, p)
    decreases |steps|
  {
    if steps != [] && Enabled(s, steps[0]) {
      NextKeepsInv(s, steps[0], p);
      RunKeepsInv(Next(s, steps[0]), steps[1..], p);
    }
  }

  // ----------------------------------------------------------------- theorems

  /**
   * In every reachable state: closeSocket was called at most once, and then on the pointer the
   * socket was created with; not while an invocation holds the pointer; the reader count is
   * exact; and "Unbalanced" was never thrown.
   */
  lemma {:induction false} ReachableIsSafe(p: int, steps: seq<Step>, s: System)
    requires p != 0 && Run(Init(p), steps) == Some(s)
    ensures s.closeCalls == [] || s.closeCalls == [p]
    ensures Holders(s) != {} ==> s.closeCalls == [] && Takers(s) == {}
    ensures s.fields.lockCount == |Holders(s)| && !s.unbalanced
  {
    RunKeepsInv(Init(p), steps, p);
    if a :| a in Holders(s) {
      assert ActorInv(s, p, s.actors[a]);
    }
  }

  /** A native call can start only on the live pointer, before anyone has taken it. */
  lemma {:induction false} NativeCallsAreLive(p: int, steps: seq<Step>, s: System, a: ActorId)
    requires p != 0 && Run(Init(p), steps) == Some(s) && Enabled(s, CallNative(a))
    ensures s.actors[a].p == p && s.fields.ptr == p && s.closeCalls == [] && Takers(s) == {}
  {
    RunKeepsInv(Init(p), steps, p);
    assert ActorInv(s, p, s.actors[a]);
  }

  predicate Quiescent(s: System) {
    forall a :: a in s.actors ==> s.actors[a].Returned? || s.actors[a].Threw?
  }

  /** Once every invocation is over and one of them was closeNative, the pointer was closed, once. */
  lemma {:induction false} QuiescentIsClosed(p: int, steps: seq<Step>, s: System, closer: ActorId)
    requires p != 0 && Run(Init(p), steps) == Some(s) && Quiescent(s)
    requires closer in s.actors && s.actors[closer] == Returned(true)
    ensures s.closeCalls == [p]
  {
    RunKeepsInv(Init(p), steps, p);
    assert Holders(s) == {} && Takers(s) == {};
    assert ActorInv(s, p, s.actors[closer]);
  }

  /** The deferred close: a reader holds the pointer when the closer comes, and closes it when it leaves. */
  lemma {:induction false} LastReaderCloses(p: int)
    requires p != 0
    ensures
      var steps := [LockPtr(0, false), WriteClosed(1), TakeForClosing(1), Finish(1), UnlockPtr(0, true), Finish(0)];
      var r := Run(Init(p), steps);
      r.Some? && Quiescent(r.value) && r.value.actors[1] == Returned(true) && r.value.closeCalls == [p]
  {
  }

  // -------------------------------- the second test of lockPtr, on the pointer

  /** A lockPtr that reads the latest value of `closed` is never refused by the test `ptr == 0`. */
  lemma {:induction false} FreshLockFindsPointer(p: int, steps: seq<Step>, s: System)
    requires p != 0 && Run(Init(p), steps) == Some(s)
    ensures LockBlock(s.fields, s.fields.closed).1 == if s.fields.closed then SocketClosed else Acquired(p)
  {
    RunKeepsInv(Init(p), steps, p);
  }

  /** But that test is what stops a reader that missed the write of `closed`. */
  lemma {:induction false} StaleLockNeedsPointerTest(p: int)
    requires p != 0
    ensures
      var r := Run(Init(p), [LockPtr(0, false), WriteClosed(1), UnlockPtr(0, true)]);
      && r.Some?
      && Enabled(r.value, LockPtr(2, false)) && r.value.fields.ptr == 0
      && Next(r.value, LockPtr(2, false)).actors[2] == Threw
  {
    var s0 := Init(p);
    var s1 := Next(s0, LockPtr(0, false));
    var s2 := Next(s1, WriteClosed(1));
    var s3 := Next(s2, UnlockPtr(0, true));
    assert Run(s2, [UnlockPtr(0, true)]) == Run(s3, []) == Some(s3);
    var t := [WriteClosed(1), UnlockPtr(0, true)];
    assert t[1..] == [UnlockPtr(0, true)];
    assert Run(s1, t) == Some(s3);
    assert [LockPtr(0, false), WriteClosed(1), UnlockPtr(0, true)][1..] == t;
  }
}
