/** The list of shared keys of an association, and which of them is active, in sctp_auth.c. */
module SharedKeys {
  import opened Common
  import opened Keys

  /** `sctp_sharedkey_t`; the list itself holds one reference. */
  datatype SharedKey = SharedKey(keyid: nat, key: Key, refcount: int, deactivated: bool)

  datatype Code = Done | Refused | EBUSY | EINVAL | ENOMEM

  // ------------------------------------------------- the reference: a map of keys

  datatype State = State(keys: map<nat, SharedKey>, active: nat)

  datatype Op =
    | Insert(skey: SharedKey)
    | SetActive(keyid: nat)
    | Deactivate(keyid: nat)
    | Delete(keyid: nat)
    | Acquire(keyid: nat)
    | Release(keyid: nat)

  /** Somebody besides the list still uses a key that has been deactivated. */
  predicate Busy(k: SharedKey) {
    k.deactivated && k.refcount > 1
  }

  /** What each call answers, in terms of the map. */
  function Answer(s: State, op: Op): Code {
    match op
    case Insert(k) => if k.keyid in s.keys && Busy(s.keys[k.keyid]) then EBUSY else Done
    case SetActive(id) => if id !in s.keys || Busy(s.keys[id]) then Refused else Done
    case Deactivate(id) => if id == s.active || id !in s.keys then Refused else Done
    case Delete(id) => if id == s.active || id !in s.keys || s.keys[id].refcount > 1 then Refused else Done
    case Acquire(id) => Done
    case Release(id) => Done
  }

  /**
   * What each call does to the map; a refused call does nothing. Releasing the reference of the
   * list itself frees a key that is still listed: no state comes out of that.
   */
  function Step(s: State, op: Op): Option<State> {
    if Answer(s, op) != Done then Some(s) else
    match op
    case Insert(k) => Some(s.(keys := s.keys[k.keyid := k]))
    case SetActive(id) => Some(State(s.keys[id := s.keys[id].(deactivated := false)], id))
    case Deactivate(id) => Some(s.(keys := s.keys[id := s.keys[id].(deactivated := true)]))
    case Delete(id) => Some(s.(keys := s.keys - {id}))
    case Acquire(id) => Some(if id in s.keys then Counted(s, id, 1) else s)
    case Release(id) =>
      if id !in s.keys then Some(s)
      else if s.keys[id].refcount == 1 then None
      else Some(Counted(s, id, -1))
  }

  /** The references of key `id`, changed by `n`. */
  function Counted(s: State, id: nat, n: int): State
    requires id in s.keys
  {
    s.(keys := s.keys[id := s.keys[id].(refcount := s.keys[id].refcount + n)])
  }

  function Run(s: State, ops: seq<Op>): Option<State>
    decreases |ops|
  {
    if ops == [] then Some(s) else
    var r := Step(s, ops[0]);
    if r.None? then None else Run(r.value, ops[1..])
  }

  /** The call frees a key that stays on the list. */
  predicate FreesListed(s: State, op: Op) {
    op.Release? && op.keyid in s.keys && s.keys[op.keyid].refcount == 1
  }

  /** No release in the run finds the reference of the list alone. */
  predicate SafeRun(s: State, ops: seq<Op>)
    decreases |ops|
  {
    ops == [] || (!FreesListed(s, ops[0]) && (Step(s, ops[0]).Some? ==> SafeRun(Step(s, ops[0]).value, ops[1..])))
  }

  lemma {:induction false} SafeExactly(s: State, ops: seq<Op>)
    ensures Run(s, ops).Some? <==> SafeRun(s, ops)
    decreases |ops|
  {
    if ops != [] && Step(s, ops[0]).Some? {
      SafeExactly(Step(s, ops[0]).value, ops[1..]);
    }
  }

  /** Calls as they are made: a key enters the list with one reference and not deactivated. */
  predicate Proper(op: Op) {
    op.Insert? ==> op.skey.refcount == 1 && !op.skey.deactivated
  }

  /** The active key can be used. */
  predicate ActiveUsable(s: State) {
    s.active in s.keys && !s.keys[s.active].deactivated
  }

  /**
   * In every run in which no release frees a listed key, and in no other, there is a state to
   * speak of, and in it the active key, whichever it is by then, is present and not deactivated.
   */
  lemma {:induction false} ActiveStaysUsable(s: State, ops: seq<Op>)
    requires ActiveUsable(s) && forall op :: op in ops ==> Proper(op)
    ensures Run(s, ops).Some? <==> SafeRun(s, ops)
    ensures Run(s, ops).Some? ==> ActiveUsable(Run(s, ops).value)
    decreases |ops|
  {
    if ops != [] && Step(s, ops[0]).Some? {
      assert ops[0] in ops && Proper(ops[0]);
      ActiveStaysUsable(Step(s, ops[0]).value, ops[1..]);
    }
  }

  /** A key that was deleted stays away until it is inserted again. */
  lemma {:induction false} DeletedStaysAway(s: State, id: nat, ops: seq<Op>)
    requires id !in s.keys && forall op :: op in ops ==> !(op.Insert? && op.skey.keyid == id)
    ensures Run(s, ops).Some? ==> id !in Run(s, ops).value.keys
    decreases |ops|
  {
    if ops != [] && Step(s, ops[0]).Some? {
      assert ops[0] in ops;
      DeletedStaysAway(Step(s, ops[0]).value, id, ops[1..]);
    }
  }

  /** No call but an insertion of that very id changes what a key id stands for. */
  lemma {:induction false} KeysKeepTheirBytes(s: State, id: nat, ops: seq<Op>)
    requires id in s.keys && forall op :: op in ops ==> !(op.Insert? && op.skey.keyid == id)
    ensures Run(s, ops).Some? <==> SafeRun(s, ops)
    ensures Run(s, ops).Some? && id in Run(s, ops).value.keys ==> Run(s, ops).value.keys[id].key == s.keys[id].key
    decreases |ops|
  {
    SafeExactly(s, ops);
    if ops != [] && Step(s, ops[0]).Some? {
      assert ops[0] in ops;
      var t := Step(s, ops[0]).value;
      if id in t.keys {
        KeysKeepTheirBytes(t, id, ops[1..]);
      } else {
        DeletedStaysAway(t, id, ops[1..]);
      }
    }
  }

  /** A key replaced while somebody has it acquired is freed by that somebody's release, although listed. */
  lemma {:induction false} ReplacedKeyIsFreed(s: State, k: SharedKey)
    requires k.keyid in s.keys && !s.keys[k.keyid].deactivated && k.refcount == 1
    ensures Run(s, [Acquire(k.keyid), Insert(k), Release(k.keyid)]).None?
  {
    var ops := [Acquire(k.keyid), Insert(k), Release(k.keyid)];
    var s1 := Step(s, ops[0]).value;
    var s2 := Step(s1, ops[1]).value;
    assert ops[1..] == [Insert(k), Release(k.keyid)] && ops[1..][1..] == [Release(k.keyid)];
    assert Run(s2, [Release(k.keyid)]).None?;
    assert Run(s1, ops[1..]) == Run(s2, ops[1..][1..]);
  }

  // ------------------------------------------ what the calls and their answers tell

  /** What each call of a run answers. */
  function Answers(s: State, ops: seq<Op>): seq<Code>
    decreases |ops|
  {
    if ops == [] then []
    else [Answer(s, ops[0])] + if Step(s, ops[0]).None? then [] else Answers(Step(s, ops[0]).value, ops[1..])
  }

  /** The key that an id stands for: that of its last accepted insertion, unless deleted since. */
  function LastKey(ops: seq<Op>, answers: seq<Code>, id: nat, was: Option<Key>): Option<Key>
    requires |ops| == |answers|
    decreases |ops|
  {
    if ops == [] then was else
    var n := |ops| - 1;
    if answers[n] == Done && ops[n].Insert? && ops[n].skey.keyid == id then Some(ops[n].skey.key)
    else if answers[n] == Done && ops[n] == Delete(id) then None
    else LastKey(ops[..n], answers[..n], id, was)
  }

  /** The id that was made active last. */
  function LastActive(ops: seq<Op>, answers: seq<Code>, was: nat): nat
    requires |ops| == |answers|
    decreases |ops|
  {
    if ops == [] then was else
    var n := |ops| - 1;
    if answers[n] == Done && ops[n].SetActive? then ops[n].keyid else LastActive(ops[..n], answers[..n], was)
  }

  /** Whether an id was deactivated, and neither made active nor inserted anew since. */
  function LastDeactivated(ops: seq<Op>, answers: seq<Code>, id: nat, was: bool): bool
    requires |ops| == |answers|
    decreases |ops|
  {
    if ops == [] then was else
    var n := |ops| - 1;
    if answers[n] != Done then LastDeactivated(ops[..n], answers[..n], id, was)
    else if ops[n].Insert? && ops[n].skey.keyid == id then ops[n].skey.deactivated
    else if ops[n] == SetActive(id) || ops[n] == Deactivate(id) then ops[n].Deactivate?
    else LastDeactivated(ops[..n], answers[..n], id, was)
  }

  function KeyIn(s: State, id: nat): Option<Key> {
    if id in s.keys then Some(s.keys[id].key) else None
  }

  /**
   * Over every run, calls and answers alone tell which ids are listed, what key each stands for,
   * which may not be used any more, and which is active.
   */
  lemma {:induction false} RunTells(s: State, ops: seq<Op>, id: nat)
    requires Run(s, ops).Some?
    ensures |Answers(s, ops)| == |ops|
    ensures
      var t, answers := Run(s, ops).value, Answers(s, ops);
      && KeyIn(t, id) == LastKey(ops, answers, id, KeyIn(s, id))
      && t.active == LastActive(ops, answers, s.active)
      && (id in t.keys ==>
            t.keys[id].deactivated == LastDeactivated(ops, answers, id, id in s.keys && s.keys[id].deactivated))
    decreases |ops|
  {
    if ops != [] {
      RunLast(s, ops);
      RunTells(s, ops[..|ops| - 1], id);
    }
  }

  /** A run is its first calls and then the last one. */
  lemma {:induction false} RunLast(s: State, ops: seq<Op>)
    requires ops != [] && Run(s, ops).Some?
    ensures
      var before := ops[..|ops| - 1];
      && Run(s, before).Some?
      && Step(Run(s, before).value, ops[|ops| - 1]) == Run(s, ops)
      && Answers(s, ops) == Answers(s, before) + [Answer(Run(s, before).value, ops[|ops| - 1])]
    decreases |ops|
  {
    if |ops| > 1 {
      var t, before := Step(s, ops[0]).value, ops[..|ops| - 1];
      assert ops[1..][..|ops| - 2] == before[1..] && ops[1..][|ops| - 2] == ops[|ops| - 1];
      RunLast(t, ops[1..]);
      assert Run(s, before) == Run(t, before[1..]);
    } else {
      assert ops[1..] == [];
    }
  }

  // ------------------------------------------------------------ balanced callers

  /** Every reference but the list's own is in the hands of a caller, and every caller's key is listed. */
  ghost predicate Accounted(s: State, held: multiset<nat>) {
    && (forall id :: id in held ==> id in s.keys)
    && (forall id :: id in s.keys ==> s.keys[id].refcount == 1 + held[id])
  }

  /** The references in callers' hands after the call. */
  function Held(s: State, held: multiset<nat>, op: Op): multiset<nat> {
    match op
    case Acquire(id) => if id in s.keys then held + multiset{id} else held
    case Release(id) => held - multiset{id}
    case _ => held
  }

  /** A caller releases what it acquired, and nobody replaces a key that a caller has. */
  predicate Balanced(s: State, held: multiset<nat>, op: Op) {
    match op
    case Release(id) => id in held
    case Insert(k) => Proper(op) && (k.keyid in held ==> Answer(s, op) == EBUSY)
    case _ => true
  }

  predicate BalancedRun(s: State, held: multiset<nat>, ops: seq<Op>)
    decreases |ops|
  {
    ops == [] ||
    (Balanced(s, held, ops[0]) && (Step(s, ops[0]).Some? ==>
      BalancedRun(Step(s, ops[0]).value, Held(s, held, ops[0]), ops[1..])))
  }

  /** The count of a key is one more than its users at every step, so nobody frees a listed key. */
  lemma {:induction false} BalancedStep(s: State, held: multiset<nat>, op: Op)
    requires Accounted(s, held) && Balanced(s, held, op)
    ensures Step(s, op).Some? && Accounted(Step(s, op).value, Held(s, held, op))
  {
    match op
    case Acquire(id) => if id in s.keys { CountedStep(s, held, id, held + multiset{id}, 1); }
    case Release(id) => CountedStep(s, held, id, held - multiset{id}, -1);
    case Insert(k) => assert k.keyid !in held ==> held[k.keyid] == 0;
    case Delete(id) => assert Answer(s, op) == Done ==> held[id] == 0;
    case SetActive(id) =>
    case Deactivate(id) =>
  }

  lemma {:induction false} CountedStep(s: State, held: multiset<nat>, id: nat, held': multiset<nat>, n: int)
    requires Accounted(s, held) && id in s.keys
    requires held'[id] == held[id] + n && forall x :: x != id ==> held'[x] == held[x]
    ensures Accounted(Counted(s, id, n), held')
  {
    forall x | x in held' ensures x in s.keys {
      assert x != id ==> held[x] > 0;
    }
  }

  lemma {:induction false} BalancedIsSafe(s: State, held: multiset<nat>, ops: seq<Op>)
    requires Accounted(s, held) && BalancedRun(s, held, ops)
    ensures Run(s, ops).Some?
    decreases |ops|
  {
    if ops != [] {
      BalancedStep(s, held, ops[0]);
      BalancedIsSafe(Step(s, ops[0]).value, Held(s, held, ops[0]), ops[1..]);
    }
  }

  // ------------------------------------------------------------- the list itself

  ghost predicate Ascending(list: seq<SharedKey>) {
    forall i, j :: 0 <= i < j < |list| ==> list[i].keyid < list[j].keyid
  }

  /** The map that a list represents. */
  function AsMap(list: seq<SharedKey>): map<nat, SharedKey> {
    if list == [] then map[] else AsMap(list[1..])[list[0].keyid := list[0]]
  }

  lemma {:induction false} AsMapMembers(list: seq<SharedKey>)
    requires Ascending(list)
    ensures forall id :: id in AsMap(list) ==> AsMap(list)[id] in list && AsMap(list)[id].keyid == id
    ensures forall k :: k in list ==> k.keyid in AsMap(list) && AsMap(list)[k.keyid] == k
  {
    if list != [] {
      AsMapMembers(list[1..]);
      assert list == [list[0]] + list[1..];
    }
  }

  /** A key with that id is on the list, and busy. */
  ghost predicate BusyIn(list: seq<SharedKey>, id: nat) {
    exists k :: k in list && k.keyid == id && Busy(k)
  }

  /** On the new list are `k` and the keys of the old one with other ids. */
  ghost predicate HasInstead(list: seq<SharedKey>, list': seq<SharedKey>, k: SharedKey) {
    forall x :: x in list' <==> x == k || (x in list && x.keyid != k.keyid)
  }

  /** What an insertion means for the two lists. */
  lemma {:induction false} Inserted(list: seq<SharedKey>, list': seq<SharedKey>, active: nat, k: SharedKey)
    requires Ascending(list) && Ascending(list')
    requires Step(State(AsMap(list), active), Insert(k)) == Some(State(AsMap(list'), active))
    ensures
      var r := Answer(State(AsMap(list), active), Insert(k));
      && (r == EBUSY <==> BusyIn(list, k.keyid)) && (r == Done <==> r != EBUSY)
      && (r == Done ==> HasInstead(list, list', k))
  {
    AsMapMembers(list);
    AsMapMembers(list');
    var m, m' := AsMap(list), AsMap(list');
    if k.keyid in m && Busy(m[k.keyid]) {
      assert m[k.keyid] in list;
    } else {
      forall x ensures x in list' <==> x == k || (x in list && x.keyid != k.keyid) {
        assert x in list <==> x.keyid in m && m[x.keyid] == x;
        assert x in list' <==> x.keyid in m' && m'[x.keyid] == x;
      }
    }
  }

  lemma {:induction false} AsMapAppend(a: seq<SharedKey>, b: seq<SharedKey>)
    ensures AsMap(a + b) == AsMap(b) + AsMap(a)
  {
    if a == [] {
      assert a + b == b;
    } else {
      assert (a + b)[1..] == a[1..] + b;
      AsMapAppend(a[1..], b);
    }
  }

  lemma {:induction false} AsMapAbsent(list: seq<SharedKey>, id: nat)
    requires forall j :: 0 <= j < |list| ==> list[j].keyid != id
    ensures id !in AsMap(list)
  {
    if list != [] {
      AsMapAbsent(list[1..], id);
    }
  }

  /** `k` fits between the first `i` keys and the others. */
  ghost predicate Fits(list: seq<SharedKey>, i: nat, k: SharedKey) {
    && i <= |list|
    && (forall j :: 0 <= j < i ==> list[j].keyid < k.keyid)
    && (forall j :: i <= j < |list| ==> k.keyid < list[j].keyid)
  }

  lemma {:induction false} PlacedAscends(list: seq<SharedKey>, i: nat, k: SharedKey)
    requires Ascending(list) && Fits(list, i, k)
    ensures Ascending(list[..i] + [k] + list[i..])
  {
    var r := list[..i] + [k] + list[i..];
    forall x, y | 0 <= x < y < |r| ensures r[x].keyid < r[y].keyid {
      assert r[x] == if x < i then list[x] else if x == i then k else list[x - 1];
      assert r[y] == if y < i then list[y] else if y == i then k else list[y - 1];
    }
  }

  /** Putting `k` between the smaller and the larger ids is a map update. */
  lemma {:induction false} Placed(list: seq<SharedKey>, i: nat, k: SharedKey)
    requires Ascending(list) && Fits(list, i, k)
    ensures Ascending(list[..i] + [k] + list[i..])
    ensures AsMap(list[..i] + [k] + list[i..]) == AsMap(list)[k.keyid := k]
    ensures k.keyid !in AsMap(list)
  {
    PlacedAscends(list, i, k);
    var a, b := list[..i], list[i..];
    AsMapAbsent(list, k.keyid);
    assert AsMap(list) == AsMap(b) + AsMap(a) by {
      assert list == a + b;
      AsMapAppend(a, b);
    }
    assert AsMap(a + [k] + b) == AsMap(b) + (map[k.keyid := k] + AsMap(a)) by {
      AsMapAppend(a + [k], b);
      AsMapAppend(a, [k]);
      assert AsMap([k]) == map[k.keyid := k];
    }
    AsMapAbsent(a, k.keyid);
  }

  lemma {:induction false} Removed(list: seq<SharedKey>, i: nat, k: SharedKey)
    requires Ascending(list) && i < |list| && k.keyid == list[i].keyid
    ensures
      var shorter := list[..i] + list[i + 1..];
      && Ascending(shorter) && AsMap(shorter) == AsMap(list) - {k.keyid}
      && Ascending(list[i := k]) && AsMap(list[i := k]) == AsMap(shorter)[k.keyid := k]
  {
    var shorter := list[..i] + list[i + 1..];
    assert AsMap(list) == AsMap(shorter)[k.keyid := list[i]] && k.keyid !in AsMap(shorter) by {
      Placed(shorter, i, list[i]);
      assert shorter[..i] + [list[i]] + shorter[i..] == list;
    }
    assert Ascending(list[i := k]) && AsMap(list[i := k]) == AsMap(shorter)[k.keyid := k] by {
      Placed(shorter, i, k);
      assert shorter[..i] + [k] + shorter[i..] == list[i := k];
    }
  }

  lemma {:induction false} Replaced(list: seq<SharedKey>, i: nat, k: SharedKey)
    requires Ascending(list) && i < |list| && list[i].keyid == k.keyid
    ensures Ascending(list[i := k]) && AsMap(list[i := k]) == AsMap(list)[k.keyid := k]
    ensures k.keyid in AsMap(list) && AsMap(list)[k.keyid] == list[i]
  {
    AsMapMembers(list);
    assert list[i] in list;
    Removed(list, i, k);
  }

  class KeyStore {
    var list: seq<SharedKey>
    var active: nat

    ghost predicate Valid()
      reads this
    {
      Ascending(list)
    }

    ghost function S(): State
      reads this
    {
      State(AsMap(list), active)
    }

    constructor ()
      ensures Valid() && S() == State(map[], 0)
    {
      list, active := [], 0;
    }

    /** `sctp_find_sharedkey`, as a position in the list. */
    method Find(keyid: nat) returns (r: Option<nat>)
      requires Valid()
      ensures r.Some? <==> keyid in S().keys
      ensures r.Some? ==> r.value < |list| && list[r.value].keyid == keyid && list[r.value] == S().keys[keyid]
    {
      AsMapMembers(list);
      var i := 0;
      while i < |list|
        invariant 0 <= i <= |list|
        invariant forall j :: 0 <= j < i ==> list[j].keyid != keyid
      {
        if list[i].keyid == keyid {
          assert list[i] in list;
          return Some(i);
        }
        i := i + 1;
      }
      return None;
    }

    /** `sctp_insert_sharedkey`: the loop always decides, so a key is never answered EINVAL. */
    method InsertSharedKey(skey: Option<SharedKey>) returns (r: Code)
      requires Valid()
      modifies this
      ensures Valid()
      ensures skey.None? ==> r == EINVAL && S() == old(S())
      ensures r == EBUSY <==> skey.Some? && BusyIn(old(list), skey.value.keyid)
      ensures r == Done <==> skey.Some? && r != EBUSY
      ensures r == Done ==> active == old(active) && HasInstead(old(list), list, skey.value)
      ensures skey.Some? ==>
        r == Answer(old(S()), Insert(skey.value)) && Step(old(S()), Insert(skey.value)) == Some(S())
      ensures r != Done ==> list == old(list)
    {
      if skey.None? {
        return EINVAL;
      }
      var k := skey.value;
      if list == [] {
        Placed(list, 0, k);
        assert list[..0] + [k] + list[0..] == [k];
        list := [k];
        Inserted([], list, active, k);
        return Done;
      }
      r := EINVAL;
      var i := 0;
      while i < |list| && r == EINVAL
        invariant Valid() && 0 <= i <= |list|
        invariant r == EINVAL ==> i < |list| && list == old(list) && active == old(active)
        invariant r == EINVAL ==> forall j :: 0 <= j < i ==> list[j].keyid < k.keyid
        invariant r == EBUSY ==> list == old(list)
        invariant r != EINVAL ==> r == Answer(old(S()), Insert(k)) && Step(old(S()), Insert(k)) == Some(S())
        decreases if r == EINVAL then |list| - i else -1
      {
        if k.keyid < list[i].keyid {
          Placed(list, i, k);
          list := list[..i] + [k] + list[i..];
          r := Done;
        } else if k.keyid == list[i].keyid {
          Replaced(list, i, k);
          if list[i].deactivated && list[i].refcount > 1 {
            r := EBUSY;
          } else {
            list := list[i := k];
            r := Done;
          }
        } else if i + 1 == |list| {
          Placed(list, i + 1, k);
          assert list[..i + 1] + [k] + list[i + 1..] == list + [k];
          list := list + [k];
          r := Done;
        } else {
          i := i + 1;
        }
      }
      Inserted(old(list), list, active, k);
    }

    /** `sctp_delete_sharedkey`, without the caches. */
    method DeleteSharedKey(keyid: nat) returns (r: Code)
      requires Valid()
      modifies this
      ensures Valid() && r == Answer(old(S()), Delete(keyid)) && Step(old(S()), Delete(keyid)) == Some(S())
      ensures r == Done <==> keyid != old(active) && keyid in old(S()).keys && old(S()).keys[keyid].refcount <= 1
      ensures S() == if r == Done then old(S()).(keys := old(S()).keys - {keyid}) else old(S())
    {
      if keyid == active {
        return Refused;
      }
      var at := Find(keyid);
      if at.None? {
        return Refused;
      }
      var i := at.value;
      if list[i].refcount > 1 {
        return Refused;
      }
      Removed(list, i, list[i]);
      list := list[..i] + list[i + 1..];
      return Done;
    }

    /** `sctp_auth_setactivekey` */
    method SetActiveKey(keyid: nat) returns (r: Code)
      requires Valid()
      modifies this
      ensures Valid() && r == Answer(old(S()), SetActive(keyid)) && Step(old(S()), SetActive(keyid)) == Some(S())
      ensures r == Done <==>
        keyid in old(S()).keys && !(old(S()).keys[keyid].deactivated && old(S()).keys[keyid].refcount > 1)
      ensures S() == if r != Done then old(S())
        else State(old(S()).keys[keyid := old(S()).keys[keyid].(deactivated := false)], keyid)
    {
      var at := Find(keyid);
      if at.None? {
        return Refused;
      }
      var i := at.value;
      if list[i].deactivated && list[i].refcount > 1 {
        return Refused;
      }
      active := keyid;
      Replaced(list, i, list[i].(deactivated := false));
      list := list[i := list[i].(deactivated := false)];
      return Done;
    }

    /** `sctp_deact_sharedkey` */
    method DeactivateKey(keyid: nat) returns (r: Code)
      requires Valid()
      modifies this
      ensures Valid() && r == Answer(old(S()), Deactivate(keyid)) && Step(old(S()), Deactivate(keyid)) == Some(S())
      ensures r == Done <==> keyid != old(active) && keyid in old(S()).keys
      ensures S() == if r != Done then old(S())
        else old(S()).(keys := old(S()).keys[keyid := old(S()).keys[keyid].(deactivated := true)])
    {
      if keyid == active {
        return Refused;
      }
      var at := Find(keyid);
      if at.None? {
        return Refused;
      }
      Replaced(list, at.value, list[at.value].(deactivated := true));
      list := list[at.value := list[at.value].(deactivated := true)];
      return Done;
    }

    /** `sctp_auth_key_acquire` */
    method AcquireKey(keyid: nat)
      requires Valid()
      modifies this
      ensures Valid() && Step(old(S()), Acquire(keyid)) == Some(S()) && active == old(active)
      ensures S().keys.Keys == old(S()).keys.Keys && forall id :: id in S().keys ==>
        S().keys[id] == old(S()).keys[id].(refcount := old(S()).keys[id].refcount + if id == keyid then 1 else 0)
    {
      var at := Find(keyid);
      if at.Some? {
        var k := list[at.value];
        Replaced(list, at.value, k.(refcount := k.refcount + 1));
        list := list[at.value := k.(refcount := k.refcount + 1)];
      }
    }

    /** `sctp_auth_key_release`; `freed` when the key is freed and stays on the list. */
    method ReleaseKey(keyid: nat) returns (freed: bool)
      requires Valid()
      modifies this
      ensures Valid() && (freed <==> FreesListed(old(S()), Release(keyid)))
      ensures !freed ==> Step(old(S()), Release(keyid)) == Some(S())
      ensures freed ==> S() == Counted(old(S()), keyid, -1)
      ensures active == old(active)
      ensures S().keys.Keys == old(S()).keys.Keys && forall id :: id in S().keys ==>
        S().keys[id] == old(S()).keys[id].(refcount := old(S()).keys[id].refcount - if id == keyid then 1 else 0)
    {
      freed := false;
      var at := Find(keyid);
      if at.Some? {
        var k := list[at.value];
        Replaced(list, at.value, k.(refcount := k.refcount - 1));
        list := list[at.value := k.(refcount := k.refcount - 1)];
        freed := k.refcount == 1;
      }
    }
  }
}
