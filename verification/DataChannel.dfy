/**
 * The data channels of rtcweb.c: 100 channels, cross-indexed by the tables of incoming and
 * outgoing streams, and the buffer of outgoing streams that wait to be reset.
 */
module DataChannel {
  import opened Common

  /** NUMBER_OF_CHANNELS and NUMBER_OF_STREAMS */
  const N := 100

  datatype ChannelState = CLOSED | CONNECTING | OPEN | CLOSING

  const PR_NONE := 0
  const PR_TTL := 1
  const PR_RTX := 3

  /** `unordered`, `pr_policy` and `pr_value` */
  datatype Params = Params(unordered: nat, policy: nat, value: nat)

  /** The messages that could not be sent yet: DATA_CHANNEL_FLAGS_SEND_REQ, _RSP and _ACK. */
  datatype Flags = Flags(req: bool, rsp: bool, ack: bool)

  const NO_PARAMS := Params(0, PR_NONE, 0)
  const NO_FLAGS := Flags(false, false, false)

  datatype Channel = Channel(state: ChannelState, i: nat, o: nat, params: Params, flags: Flags)

  /** What came of a send: done, EAGAIN, or another error. */
  datatype Sent = Ok | Again | Failed

  /** `asked` is history: the streams whose reset was requested and has not been reported since. */
  datatype Tables = Peer(channels: seq<Channel>, iTab: seq<Option<nat>>, oTab: seq<Option<nat>>, buf: seq<nat>,
    count: nat, asked: set<nat>)

  predicate Sized(p: Tables) {
    |p.channels| == N && |p.iTab| == N && |p.oTab| == N && |p.buf| == N
  }

  const INITIAL := Peer(
    seq(N, _ => Channel(CLOSED, 0, 0, NO_PARAMS, NO_FLAGS)), seq(N, _ => None), seq(N, _ => None), seq(N, _ => 0), 0,
    {})

  type Peer = p: Tables | Sized(p) witness INITIAL

  // ----------------------------------------------------------------- invariants

  /** Ids and indices are in range, and the buffer holds different outgoing streams. */
  ghost predicate Sane(p: Peer) {
    && (forall c :: 0 <= c < N ==> p.channels[c].i < N && p.channels[c].o < N)
    && (forall k :: 0 <= k < N && p.iTab[k].Some? ==> p.iTab[k].value < N)
    && (forall k :: 0 <= k < N && p.oTab[k].Some? ==> p.oTab[k].value < N)
    && p.count <= N && Distinct(p.buf[..p.count]) && (forall x :: x in p.buf[..p.count] ==> x < N)
  }

  ghost predicate InOk(channels: seq<Channel>, tab: seq<Option<nat>>)
    requires |channels| == |tab| == N
  {
    forall k: nat, c: nat :: k < N && c < N ==> (tab[k] == Some(c) <==> k != 0 && channels[c].i == k)
  }

  ghost predicate OutOk(channels: seq<Channel>, tab: seq<Option<nat>>)
    requires |channels| == |tab| == N
  {
    forall k: nat, c: nat :: k < N && c < N ==> (tab[k] == Some(c) <==> k != 0 && channels[c].o == k)
  }

  /** The tables and the channels are inverse to each other, and closed channels own no stream. */
  ghost predicate Inverse(p: Peer)
  {
    && InOk(p.channels, p.iTab) && OutOk(p.channels, p.oTab)
    && (forall c :: 0 <= c < N && p.channels[c].state == CLOSED ==> p.channels[c].i == 0 && p.channels[c].o == 0)
  }

  // ---------------------------------------------------------------------- scans

  function ByIn(p: Peer, i: nat): Option<nat>
  {
    if i < N then p.iTab[i] else None
  }

  function ByOut(p: Peer, o: nat): Option<nat>
  {
    if o < N then p.oTab[o] else None
  }

  /** `find_free_channel`, from channel `c` on. */
  function FreeChannel(channels: seq<Channel>, c: nat): (r: Option<nat>)
    requires c <= |channels|
    ensures r.Some? ==> c <= r.value < |channels| && channels[r.value].state == CLOSED
    decreases |channels| - c
  {
    if c == |channels| then None
    else if channels[c].state == CLOSED then Some(c)
    else FreeChannel(channels, c + 1)
  }

  /** The loop of `find_free_o_stream`. */
  function FirstFree(tab: seq<Option<nat>>, i: nat, limit: nat): (r: nat)
    requires i <= limit <= |tab|
    ensures i <= r <= limit && (r < limit ==> tab[r].None?)
    decreases limit - i
  {
    if i == limit || tab[i].None? then i else FirstFree(tab, i + 1, limit)
  }

  /**
   * `find_free_o_stream`, 0 when there is none. With no outgoing stream at all the loop starts
   * beyond its limit, and stream 1 is returned unseen.
   */
  function FreeOut(tab: seq<Option<nat>>, outs: Option<nat>): (r: nat)
    requires |tab| == N
    ensures r < N
    ensures outs != Some(0) && r != 0 ==> tab[r].None?
  {
    if outs.None? then 0 else
    var limit := Min(outs.value, N);
    if limit == 0 then 1 else
    var i := FirstFree(tab, 1, limit);
    if i == limit then 0 else i
  }

  // ------------------------------------------------------------------- handlers

  /** The handlers write through unchecked indices: no state comes out when one is out of bounds. */
  type Outcome = Option<Peer>

  function Shut(ch: Channel): Channel {
    ch.(state := CLOSED, params := NO_PARAMS, flags := NO_FLAGS)
  }

  predicate ProperParams(q: Params) {
    && q.policy in {PR_NONE, PR_TTL, PR_RTX}
    && q.unordered in {0, 1}
    && (q.policy == PR_NONE ==> q.value == 0)
  }

  /** `open_channel` */
  function Opened(p: Peer, q: Params, outs: Option<nat>, sent: Sent): Peer
  {
    if !ProperParams(q) || FreeChannel(p.channels, 0).None? then p else
    var c := FreeChannel(p.channels, 0).value;
    var o := FreeOut(p.oTab, outs);
    var ch := p.channels[c].(state := CONNECTING, o := o, params := q, flags := NO_FLAGS);
    if o == 0 then p.(channels := p.channels[c := ch])
    else match sent
      case Ok => p.(channels := p.channels[c := ch], oTab := p.oTab[o := Some(c)])
      case Again => p.(channels := p.channels[c := ch.(flags := NO_FLAGS.(req := true))], oTab := p.oTab[o := Some(c)])
      case Failed => p.(channels := p.channels[c := Shut(ch).(o := 0)])
  }

  /** `handle_open_request_message` on incoming stream `i` */
  function Requested(p: Peer, i: nat, q: Params, outs: Option<nat>, sent: Sent): Outcome
  {
    if ByIn(p, i).Some? || FreeChannel(p.channels, 0).None? then Some(p) else
    if i >= N then None else
    var c := FreeChannel(p.channels, 0).value;
    var o := FreeOut(p.oTab, outs);
    var ch := Channel(CONNECTING, i, o, q, NO_FLAGS);
    if o == 0 then Some(p.(channels := p.channels[c := ch], iTab := p.iTab[i := Some(c)]))
    else match sent
      case Ok => Some(p.(channels := p.channels[c := ch], iTab := p.iTab[i := Some(c)], oTab := p.oTab[o := Some(c)]))
      case Again => Some(p.(channels := p.channels[c := ch.(flags := NO_FLAGS.(rsp := true))],
        iTab := p.iTab[i := Some(c)], oTab := p.oTab[o := Some(c)]))
      case Failed => Some(p.(channels := p.channels[c := Shut(ch).(i := 0, o := 0)], iTab := p.iTab[i := None]))
  }

  /** The channel that a response on `i` for our stream `o` would open. */
  function Answered(p: Peer, i: nat, o: nat): Option<nat>
  {
    var c := ByOut(p, o);
    if c.Some? && c.value < N && p.channels[c.value].state == CONNECTING && ByIn(p, i).None? then c else None
  }

  /** `handle_open_response_message` */
  function Responded(p: Peer, i: nat, o: nat, acked: bool): Outcome
  {
    var found := Answered(p, i, o);
    if found.None? then Some(p) else
    if i >= N || found.value >= N then None else
    var c := found.value;
    var ch := p.channels[c].(i := i, state := OPEN);
    var flags := if acked then NO_FLAGS else ch.flags.(ack := true);
    Some(p.(channels := p.channels[c := ch.(flags := flags)], iTab := p.iTab[i := Some(c)]))
  }

  /** `handle_open_ack_message`, and `handle_data_message` as an implicit one */
  function Acknowledged(p: Peer, i: nat): Peer
  {
    var c := ByIn(p, i);
    if c.Some? && c.value < N && p.channels[c.value].state == CONNECTING
    then p.(channels := p.channels[c.value := p.channels[c.value].(state := OPEN)]) else p
  }

  /** `reset_outgoing_stream` */
  function Pending(p: Peer, o: nat): Outcome
  {
    if p.count <= N && o in p.buf[..p.count] then Some(p)
    else if p.count >= N then None
    else Some(p.(buf := p.buf[p.count := o], count := p.count + 1))
  }

  /** The streams that wait to be reset. */
  function PendingIn(p: Peer): set<nat> {
    if p.count <= |p.buf| then set x | x in p.buf[..p.count] else {}
  }

  /** `send_outgoing_stream_reset` */
  function Flushed(p: Peer, sent: bool): Peer {
    if sent then p.(count := 0, asked := p.asked + PendingIn(p)) else p
  }

  /** `close_channel` */
  function ClosedBy(p: Peer, c: nat, sent: bool): Outcome
    requires c < N
  {
    if p.channels[c].state != OPEN then Some(p) else
    match Pending(p, p.channels[c].o)
    case None => None
    case Some(p') => Some(Flushed(p', sent).(channels := p'.channels[c := p'.channels[c].(state := CLOSING)]))
  }

  /** The incoming half of `handle_stream_reset_event` for one stream. */
  function ResetIn(p: Peer, id: nat): Outcome
  {
    var found := ByIn(p, id);
    if found.None? then Some(p) else
    if found.value >= N || p.channels[found.value].i >= N then None else
    var c := found.value;
    var ch := p.channels[c];
    var p1 := p.(iTab := p.iTab[ch.i := None], channels := p.channels[c := ch.(i := 0)]);
    if ch.o == 0 then Some(p1.(channels := p.channels[c := Shut(ch).(i := 0)]))
    else if ch.state == OPEN then
      match Pending(p1, ch.o)
      case None => None
      case Some(p2) => Some(p2.(channels := p2.channels[c := ch.(i := 0, state := CLOSING)]))
    else Some(p1)
  }

  /** The outgoing half. */
  function ResetOut(p: Peer, id: nat): Outcome
  {
    var found, p0 := ByOut(p, id), p.(asked := p.asked - {id});
    if found.None? then Some(p0) else
    if found.value >= N || p.channels[found.value].o >= N then None else
    var c := found.value;
    var ch := p.channels[c];
    var p1 := p0.(oTab := p.oTab[ch.o := None], channels := p.channels[c := ch.(o := 0)]);
    if ch.i == 0 then Some(p1.(channels := p.channels[c := Shut(ch).(o := 0)])) else Some(p1)
  }

  function ResetOne(p: Peer, incoming: bool, outgoing: bool, id: nat): (r: Outcome)
  {
    var r := if incoming then ResetIn(p, id) else Some(p);
    if r.Some? && outgoing then ResetOut(r.value, id) else r
  }

  /** `handle_stream_reset_event`, when the reset was neither denied nor failed */
  function ResetAll(p: Peer, incoming: bool, outgoing: bool, ids: seq<nat>): (r: Outcome)
    decreases |ids|
  {
    if ids == [] then Some(p) else
    var r := ResetOne(p, incoming, outgoing, ids[0]);
    if r.None? then None else ResetAll(r.value, incoming, outgoing, ids[1..])
  }

  /** A channel that has no outgoing stream yet. */
  predicate Waiting(ch: Channel) {
    ch.state == CONNECTING && ch.o == 0
  }

  /** One channel in `handle_stream_change_event`; `None` when there is no stream for it. */
  function Supplied(p: Peer, c: nat, outs: Option<nat>): Option<Peer>
    requires c < N
  {
    var o := FreeOut(p.oTab, outs);
    if o == 0 then None else
    var ch := p.channels[c];
    var flags := if ch.i == 0 then ch.flags.(req := true) else ch.flags.(rsp := true);
    Some(p.(channels := p.channels[c := ch.(o := o, flags := flags)], oTab := p.oTab[o := Some(c)]))
  }

  function GivenUp(p: Peer, c: nat): Outcome
    requires c < N
  {
    var ch := p.channels[c];
    if ch.i >= N then None else
    Some(p.(channels := p.channels[c := Shut(ch).(i := 0, o := 0)],
      iTab := if ch.i != 0 then p.iTab[ch.i := None] else p.iTab))
  }

  /** The number of outgoing streams as each channel of a loop finds it; none when it cannot be read. */
  type Readings = seq<Option<nat>>

  function ReadAt(counts: Readings, c: nat): Option<nat> {
    if c < |counts| then counts[c] else None
  }

  /** The loop of `handle_stream_change_event`, from channel `c` on */
  function Changed(p: Peer, c: nat, refused: bool, counts: Readings): (r: Outcome)
    requires c <= N
    decreases N - c
  {
    if c == N then Some(p)
    else if !Waiting(p.channels[c]) then Changed(p, c + 1, refused, counts)
    else if refused then
      var r := GivenUp(p, c);
      if r.None? then None else Changed(r.value, c + 1, refused, counts)
    else
      var r := Supplied(p, c, ReadAt(counts, c));
      if r.None? then Some(p) else Changed(r.value, c + 1, refused, counts)
  }

  /** `send_deferred_messages` for one channel */
  function Resent(ch: Channel, req: bool, rsp: bool, ack: bool): Channel {
    ch.(flags := Flags(ch.flags.req && !req, ch.flags.rsp && !rsp, ch.flags.ack && !ack))
  }

  // ----------------------------------------------------------------------- runs

  datatype Op =
    | Open(q: Params, outs: Option<nat>, sent: Sent)
    | Close(c: nat, flushed: bool)
    | Request(i: nat, q: Params, outs: Option<nat>, sent: Sent)
    | Response(i: nat, o: nat, acked: bool)
    | AckOrData(i: nat)
    | Reset(incoming: bool, outgoing: bool, ids: seq<nat>)
    | Change(refused: bool, counts: Readings)
    | Flush(flushed: bool)
    | Resend(c: nat, req: bool, rsp: bool, ack: bool)

  function Step(p: Peer, op: Op): Outcome
  {
    match op
    case Open(q, outs, sent) => Some(Opened(p, q, outs, sent))
    case Close(c, flushed) => if c < N then ClosedBy(p, c, flushed) else Some(p)
    case Request(i, q, outs, sent) => Requested(p, i, q, outs, sent)
    case Response(i, o, acked) => Responded(p, i, o, acked)
    case AckOrData(i) => Some(Acknowledged(p, i))
    case Reset(incoming, outgoing, ids) => ResetAll(p, incoming, outgoing, ids)
    case Change(refused, counts) => Changed(p, 0, refused, counts)
    case Flush(flushed) => Some(Flushed(p, flushed))
    case Resend(c, req, rsp, ack) => if c < N then Some(p.(channels := p.channels[c := Resent(p.channels[c], req, rsp,
      ack)])) else Some(p)
  }

  /** The handlers that index the table of incoming streams with an id they have not checked. */
  predicate OutOfBounds(p: Peer, op: Op)
  {
    match op
    case Request(i, _, _, _) => i >= N && FreeChannel(p.channels, 0).Some?
    case Response(i, o, _) => i >= N && Answered(p, i, o).Some?
    case _ => false
  }

  // ----------------------------------------------- nothing is written out of bounds

  /** Different numbers below `n`: at most `n` of them. */
  lemma {:induction false} Pigeonhole(s: seq<nat>, n: nat)
    requires Distinct(s) && forall x :: x in s ==> x < n
    ensures |s| <= n
    decreases n
  {
    if s != [] {
      assert s[0] in s;
      var x: nat := n - 1;
      var t := Without(s, x);
      WithoutDistinct(s, x);
      WithoutMembers(s, x);
      WithoutAbsent(s, x);
      Pigeonhole(t, n - 1);
    }
  }

  /** The write index is below 100: a stream that is not pending yet finds room. */
  lemma {:induction false} PendingFits(p: Peer, o: nat)
    requires Sane(p) && o < N
    ensures Pending(p, o).Some? && Sane(Pending(p, o).value)
    ensures Pending(p, o).value == p.(buf := Pending(p, o).value.buf, count := Pending(p, o).value.count)
  {
    var s := p.buf[..p.count];
    if o !in s {
      Pigeonhole(s + [o], N);
      var p' := Pending(p, o).value;
      assert p'.buf[..p'.count] == s + [o];
    }
  }

  lemma {:induction false} OpenedSane(p: Peer, q: Params, outs: Option<nat>, sent: Sent)
    requires Sane(p)
    ensures Sane(Opened(p, q, outs, sent))
  {
  }

  lemma {:induction false} RequestedSane(p: Peer, i: nat, q: Params, outs: Option<nat>, sent: Sent)
    requires Sane(p)
    ensures Requested(p, i, q, outs, sent).Some? <==> !(i >= N && FreeChannel(p.channels, 0).Some?)
    ensures Requested(p, i, q, outs, sent).Some? ==> Sane(Requested(p, i, q, outs, sent).value)
  {
  }

  lemma {:induction false} ClosedBySane(p: Peer, c: nat, sent: bool)
    requires Sane(p) && c < N
    ensures ClosedBy(p, c, sent).Some? && Sane(ClosedBy(p, c, sent).value)
  {
    PendingFits(p, p.channels[c].o);
    var p' := ClosedBy(p, c, sent).value;
    assert p'.count == 0 ==> p'.buf[..p'.count] == [];
  }

  lemma {:induction false} ResetInSane(p: Peer, id: nat)
    requires Sane(p)
    ensures ResetIn(p, id).Some? && Sane(ResetIn(p, id).value)
  {
    var found := ByIn(p, id);
    if found.Some? {
      var ch := p.channels[found.value];
      var p1 := p.(iTab := p.iTab[ch.i := None], channels := p.channels[found.value := ch.(i := 0)]);
      PendingFits(p1, ch.o);
    }
  }

  lemma {:induction false} ResetOutSane(p: Peer, id: nat)
    requires Sane(p)
    ensures ResetOut(p, id).Some? && Sane(ResetOut(p, id).value)
  {
  }

  lemma {:induction false} ResetAllSane(p: Peer, incoming: bool, outgoing: bool, ids: seq<nat>)
    requires Sane(p)
    ensures ResetAll(p, incoming, outgoing, ids).Some? && Sane(ResetAll(p, incoming, outgoing, ids).value)
    decreases |ids|
  {
    if ids != [] {
      ResetInSane(p, ids[0]);
      var p1 := if incoming then ResetIn(p, ids[0]).value else p;
      ResetOutSane(p1, ids[0]);
      ResetAllSane(ResetOne(p, incoming, outgoing, ids[0]).value, incoming, outgoing, ids[1..]);
    }
  }

  lemma {:induction false} ChangedSane(p: Peer, c: nat, refused: bool, counts: Readings)
    requires Sane(p) && c <= N
    ensures Changed(p, c, refused, counts).Some? && Sane(Changed(p, c, refused, counts).value)
    decreases N - c
  {
    if c < N {
      if !Waiting(p.channels[c]) {
        ChangedSane(p, c + 1, refused, counts);
      } else if refused {
        ChangedSane(GivenUp(p, c).value, c + 1, refused, counts);
      } else if Supplied(p, c, ReadAt(counts, c)).Some? {
        ChangedSane(Supplied(p, c, ReadAt(counts, c)).value, c + 1, refused, counts);
      }
    }
  }

  /** A handler leaves its arrays exactly when a message arrives on a stream beyond the table. */
  lemma {:induction false} StepSane(p: Peer, op: Op)
    requires Sane(p)
    ensures Step(p, op).Some? <==> !OutOfBounds(p, op)
    ensures Step(p, op).Some? ==> Sane(Step(p, op).value)
  {
    match op
    case Open(q, outs, sent) => OpenedSane(p, q, outs, sent);
    case Close(c, flushed) => if c < N { ClosedBySane(p, c, flushed); }
    case Request(i, q, outs, sent) => RequestedSane(p, i, q, outs, sent);
    case Response(i, o, acked) =>
    case AckOrData(i) =>
    case Reset(incoming, outgoing, ids) => ResetAllSane(p, incoming, outgoing, ids);
    case Change(refused, counts) => ChangedSane(p, 0, refused, counts);
    case Flush(flushed) => assert Flushed(p, true).buf[..0] == [];
    case Resend(c, req, rsp, ack) =>
  }

  // --------------------------------------------------------- the tables stay inverse

  /** With no outgoing stream, stream 1 is given away although a channel has it. */
  predicate GivesAwayOne(p: Peer, outs: Option<nat>)
  {
    outs == Some(0) && p.oTab[1].Some?
  }

  /** What each event has to satisfy, in terms of the state it finds. */
  ghost predicate Proper(p: Peer, op: Op)
  {
    match op
    case Open(q, outs, sent) =>
      !ProperParams(q) || FreeChannel(p.channels, 0).None? || sent == Failed || !GivesAwayOne(p, outs)
    case Request(i, _, outs, sent) =>
      || ByIn(p, i).Some? || FreeChannel(p.channels, 0).None?
      || (sent == Failed && FreeOut(p.oTab, outs) != 0)
      || (i != 0 && !GivesAwayOne(p, outs))
    case Response(i, o, _) =>
      var c := Answered(p, i, o);
      c.None? || (i != 0 && p.channels[c.value].i == 0)
    case Change(refused, counts) => refused || NoGift(p, 0, counts)
    case _ => true
  }

  /** No waiting channel from `c` on that gets its turn is given stream 1 while another channel has it. */
  predicate NoGift(p: Peer, c: nat, counts: Readings)
    requires c <= N
    decreases N - c
  {
    if c == N then true
    else if !Waiting(p.channels[c]) then NoGift(p, c + 1, counts)
    else
      var r := Supplied(p, c, ReadAt(counts, c));
      !GivesAwayOne(p, ReadAt(counts, c)) && (r.Some? ==> NoGift(r.value, c + 1, counts))
  }

  /** At most one channel from `c` on waits for a stream, and none if stream 1 is taken. */
  ghost predicate FewWaiting(p: Peer, c: nat)
  {
    && (forall x :: c <= x < N && Waiting(p.channels[x]) ==> p.oTab[1].None?)
    && (forall x, y :: c <= x < y < N && Waiting(p.channels[x]) ==> !Waiting(p.channels[y]))
  }

  lemma {:induction false} OpenedExactly(p: Peer, q: Params, outs: Option<nat>, sent: Sent)
    requires Sane(p) && Inverse(p)
    ensures Inverse(Opened(p, q, outs, sent)) <==> Proper(p, Open(q, outs, sent))
  {
    var found := FreeChannel(p.channels, 0);
    if ProperParams(q) && found.Some? {
      var c, o, p' := found.value, FreeOut(p.oTab, outs), Opened(p, q, outs, sent);
      if GivesAwayOne(p, outs) && sent != Failed {
        SharedOne(p, p', c);
      } else {
        assert p'.channels == p.channels[c := p'.channels[c]];
        assert p'.channels[c].o != 0 ==> p.oTab[o].None?;
      }
    }
  }

  /** Channel `c` got stream 1, which another channel has. */
  lemma {:induction false} SharedOne(p: Peer, p': Peer, c: nat)
    requires Sane(p) && Inverse(p) && c < N && p.oTab[1].Some? && p.channels[c].o == 0
    requires p'.channels == p.channels[c := p'.channels[c]] && p'.channels[c].o == 1
    ensures Sharing(p') && !Inverse(p')
  {
    var d := p.oTab[1].value;
    assert p.oTab[1] == Some(d) && p.channels[d].o == 1;
    assert p'.channels[c].o == p'.channels[d].o == 1;
    SharingBreaks(p');
  }

  /** Two channels have the same outgoing stream. */
  ghost predicate Sharing(p: Peer)
  {
    exists c: nat, d: nat :: c < N && d < N && c != d && p.channels[c].o == p.channels[d].o == 1
  }

  lemma {:induction false} SharingBreaks(p: Peer)
    requires Sharing(p)
    ensures !Inverse(p)
  {
    var c: nat, d: nat :| c < N && d < N && c != d && p.channels[c].o == p.channels[d].o == 1;
    var holder := p.oTab[1];
    assert holder != Some(c) || holder != Some(d);
  }

  lemma {:induction false} RequestedExactly(p: Peer, i: nat, q: Params, outs: Option<nat>, sent: Sent)
    requires Sane(p) && Inverse(p) && Requested(p, i, q, outs, sent).Some?
    ensures Inverse(Requested(p, i, q, outs, sent).value) <==> Proper(p, Request(i, q, outs, sent))
  {
    var found := FreeChannel(p.channels, 0);
    if ByIn(p, i).None? && found.Some? {
      var c, o, p' := found.value, FreeOut(p.oTab, outs), Requested(p, i, q, outs, sent).value;
      assert p'.channels == p.channels[c := p'.channels[c]];
      if sent == Failed && o != 0 {
        assert p'.iTab == p.iTab && p'.oTab == p.oTab;
      } else if i == 0 {
        assert p'.iTab[0] == Some(c);
      } else if GivesAwayOne(p, outs) {
        SharedOne(p, p', c);
      }
    }
  }

  lemma {:induction false} RespondedExactly(p: Peer, i: nat, o: nat, acked: bool)
    requires Sane(p) && Inverse(p) && Responded(p, i, o, acked).Some?
    ensures Inverse(Responded(p, i, o, acked).value) <==> Proper(p, Response(i, o, acked))
  {
    var found := Answered(p, i, o);
    if found.Some? {
      var c, p' := found.value, Responded(p, i, o, acked).value;
      var j := p.channels[c].i;
      if i == 0 {
        assert p'.iTab[0] == Some(c);
      } else if j != 0 {
        assert p.iTab[j] == Some(c) && p'.iTab[j] == Some(c) && p'.channels[c].i == i != j;
      }
    }
  }

  lemma {:induction false} ResetInKeeps(p: Peer, id: nat)
    requires Sane(p) && Inverse(p)
    ensures ResetIn(p, id).Some? && Inverse(ResetIn(p, id).value)
  {
    ResetInSane(p, id);
    var found := ByIn(p, id);
    if found.Some? {
      var c, p' := found.value, ResetIn(p, id).value;
      assert p.iTab[id] == Some(c) && p.channels[c].i == id != 0;
      var p1 := p.(iTab := p.iTab[id := None], channels := p.channels[c := p.channels[c].(i := 0)]);
      PendingFits(p1, p.channels[c].o);
      assert p'.iTab == p.iTab[id := None] && p'.oTab == p.oTab;
      assert p'.channels == p.channels[c := p'.channels[c]];
    }
  }

  lemma {:induction false} ResetOutKeeps(p: Peer, id: nat)
    requires Sane(p) && Inverse(p)
    ensures ResetOut(p, id).Some? && Inverse(ResetOut(p, id).value)
  {
    ResetOutSane(p, id);
    var found := ByOut(p, id);
    if found.Some? {
      var c, p' := found.value, ResetOut(p, id).value;
      assert p.oTab[id] == Some(c) && p.channels[c].o == id != 0;
      assert p'.oTab == p.oTab[id := None] && p'.iTab == p.iTab;
      assert p'.channels == p.channels[c := p'.channels[c]];
    }
  }

  lemma {:induction false} ResetAllKeeps(p: Peer, incoming: bool, outgoing: bool, ids: seq<nat>)
    requires Sane(p) && Inverse(p)
    ensures ResetAll(p, incoming, outgoing, ids).Some? && Inverse(ResetAll(p, incoming, outgoing, ids).value)
    decreases |ids|
  {
    if ids != [] {
      ResetInSane(p, ids[0]);
      ResetInKeeps(p, ids[0]);
      var p1 := if incoming then ResetIn(p, ids[0]).value else p;
      ResetOutSane(p1, ids[0]);
      ResetOutKeeps(p1, ids[0]);
      ResetAllKeeps(ResetOne(p, incoming, outgoing, ids[0]).value, incoming, outgoing, ids[1..]);
    }
  }

  lemma {:induction false} GivenUpKeeps(p: Peer, c: nat)
    requires Sane(p) && Inverse(p) && c < N && Waiting(p.channels[c])
    ensures GivenUp(p, c).Some? && Sane(GivenUp(p, c).value) && Inverse(GivenUp(p, c).value)
  {
    var p', j := GivenUp(p, c).value, p.channels[c].i;
    assert p'.channels == p.channels[c := p'.channels[c]];
    if j != 0 {
      assert p.iTab[j] == Some(c);
      assert p'.iTab == p.iTab[j := None];
    }
  }

  /** Once two channels share stream 1, the loop does not part them. */
  lemma {:induction false} SharingStays(p: Peer, c: nat, counts: Readings)
    requires Sane(p) && Sharing(p) && c <= N
    ensures Changed(p, c, false, counts).Some? && Sharing(Changed(p, c, false, counts).value)
    decreases N - c
  {
    if c < N {
      if !Waiting(p.channels[c]) {
        SharingStays(p, c + 1, counts);
      } else if Supplied(p, c, ReadAt(counts, c)).Some? {
        var p' := Supplied(p, c, ReadAt(counts, c)).value;
        var x: nat, y: nat :| x < N && y < N && x != y && p.channels[x].o == p.channels[y].o == 1;
        assert p'.channels[x].o == p'.channels[y].o == 1;
        SharingStays(p', c + 1, counts);
      }
    }
  }

  lemma {:induction false} ChangedExactly(p: Peer, c: nat, refused: bool, counts: Readings)
    requires Sane(p) && Inverse(p) && c <= N
    ensures Changed(p, c, refused, counts).Some?
    ensures Inverse(Changed(p, c, refused, counts).value) <==> refused || NoGift(p, c, counts)
    decreases N - c
  {
    if c < N {
      var outs := ReadAt(counts, c);
      if !Waiting(p.channels[c]) {
        ChangedExactly(p, c + 1, refused, counts);
      } else if refused {
        GivenUpKeeps(p, c);
        ChangedExactly(GivenUp(p, c).value, c + 1, refused, counts);
      } else if Supplied(p, c, outs).Some? {
        if GivesAwayOne(p, outs) {
          GivenAway(p, c, counts);
        } else {
          ChangedExactly(Supplied(p, c, outs).value, c + 1, refused, counts);
        }
      }
    }
  }

  /** Stream 1 goes to a second channel, and the loop ends with the two sharing it. */
  lemma {:induction false} GivenAway(p: Peer, c: nat, counts: Readings)
    requires Sane(p) && Inverse(p) && c < N && Waiting(p.channels[c]) && GivesAwayOne(p, ReadAt(counts, c))
    ensures Changed(p, c, false, counts).Some? && !Inverse(Changed(p, c, false, counts).value)
  {
    var p' := Supplied(p, c, ReadAt(counts, c)).value;
    SharedOne(p, p', c);
    SharingStays(p', c + 1, counts);
    SharingBreaks(Changed(p', c + 1, false, counts).value);
  }

  /** Where every reading finds a stream, stream 1 is not given away. */
  lemma {:induction false} NoGiftWithStreams(p: Peer, c: nat, counts: Readings)
    requires c <= N && Some(0) !in counts
    ensures NoGift(p, c, counts)
    decreases N - c
  {
    if c < N {
      var r := Supplied(p, c, ReadAt(counts, c));
      NoGiftWithStreams(p, c + 1, counts);
      if r.Some? {
        NoGiftWithStreams(r.value, c + 1, counts);
      }
    }
  }

  /** Where none does, that is so exactly if at most one channel waits, and none if stream 1 is taken. */
  lemma {:induction false} NoGiftWithoutStreams(p: Peer, c: nat, counts: Readings)
    requires c <= N && |counts| == N && forall x :: x in counts ==> x == Some(0)
    ensures NoGift(p, c, counts) <==> FewWaiting(p, c)
    decreases N - c
  {
    if c < N {
      assert counts[c] in counts;
      if !Waiting(p.channels[c]) {
        NoGiftWithoutStreams(p, c + 1, counts);
      } else if p.oTab[1].None? {
        FewerWaiting(p, c);
        NoGiftWithoutStreams(Supplied(p, c, Some(0)).value, c + 1, counts);
      }
    }
  }

  lemma {:induction false} FewerWaiting(p: Peer, c: nat)
    requires c < N && Waiting(p.channels[c]) && p.oTab[1].None?
    ensures Supplied(p, c, Some(0)).Some?
    ensures FewWaiting(Supplied(p, c, Some(0)).value, c + 1) <==> FewWaiting(p, c)
  {
    var p' := Supplied(p, c, Some(0)).value;
    assert forall x :: c < x < N ==> p'.channels[x] == p.channels[x];
    assert p'.oTab[1].Some?;
  }

  /** Each event keeps the tables inverse exactly when it is proper. */
  lemma {:induction false} StepExactly(p: Peer, op: Op)
    requires Sane(p) && Inverse(p) && !OutOfBounds(p, op)
    ensures Step(p, op).Some? && Sane(Step(p, op).value)
    ensures Inverse(Step(p, op).value) <==> Proper(p, op)
  {
    StepSane(p, op);
    match op
    case Open(q, outs, sent) => OpenedExactly(p, q, outs, sent);
    case Close(c, flushed) =>
      if c < N {
        PendingFits(p, p.channels[c].o);
      }
      SameStreams(p, Step(p, op).value);
    case Request(i, q, outs, sent) => RequestedExactly(p, i, q, outs, sent);
    case Response(i, o, acked) => RespondedExactly(p, i, o, acked);
    case AckOrData(i) => SameStreams(p, Step(p, op).value);
    case Reset(incoming, outgoing, ids) => ResetAllKeeps(p, incoming, outgoing, ids);
    case Change(refused, counts) => ChangedExactly(p, 0, refused, counts);
    case Flush(flushed) => SameStreams(p, Step(p, op).value);
    case Resend(c, req, rsp, ack) => SameStreams(p, Step(p, op).value);
  }

  /** Events that change neither tables nor stream ids nor which channels are closed. */
  lemma {:induction false} SameStreams(p: Peer, p': Peer)
    requires Inverse(p) && p'.iTab == p.iTab && p'.oTab == p.oTab
    requires forall c :: 0 <= c < N ==>
      && p'.channels[c].i == p.channels[c].i && p'.channels[c].o == p.channels[c].o
      && (p'.channels[c].state == CLOSED <==> p.channels[c].state == CLOSED)
    ensures Inverse(p')
  {
  }

  // ------------------------------------- what the handlers do, without the tables

  const SHUT := Channel(CLOSED, 0, 0, NO_PARAMS, NO_FLAGS)

  /** Some channel has `k` as its outgoing stream. */
  ghost predicate Taken(p: Peer, k: nat)
  {
    exists c: nat :: c < N && p.channels[c].o == k
  }

  /** Some channel has `k` as its incoming stream. */
  ghost predicate TakenIn(p: Peer, k: nat)
  {
    exists c: nat :: c < N && p.channels[c].i == k
  }

  /** Channel `c` alone has changed, to `ch`. */
  ghost predicate OnlyChannel(p: Peer, p': Peer, c: nat, ch: Channel)
  {
    c < N && p'.channels[c] == ch && forall d: nat :: d < N && d != c ==> p'.channels[d] == p.channels[d]
  }

  /** Nothing has been asked of the other end, and nothing more is to be. */
  ghost predicate SameResets(p: Peer, p': Peer) {
    PendingIn(p') == PendingIn(p) && p'.asked == p.asked
  }

  predicate OpenOn(ch: Channel, i: nat, o: nat) {
    ch.state == OPEN && ch.i == i && ch.o == o
  }

  lemma {:induction false} FirstFreeTaken(tab: seq<Option<nat>>, i: nat, limit: nat)
    requires i <= limit <= |tab|
    ensures forall k :: i <= k < FirstFree(tab, i, limit) ==> tab[k].Some?
    decreases limit - i
  {
    if i < limit && tab[i].Some? {
      FirstFreeTaken(tab, i + 1, limit);
    }
  }

  /** The new stream is the lowest that no channel has; 0 says that there is none, or none is known. */
  lemma {:induction false} FreeOutByStream(p: Peer, outs: Option<nat>)
    requires Sane(p) && Inverse(p)
    ensures
      var o := FreeOut(p.oTab, outs);
      match outs
      case None => o == 0
      case Some(n) =>
        if n == 0 then o == 1
        else if o == 0 then forall k: nat :: 0 < k < n && k < 100 ==> Taken(p, k)
        else o < n && o < 100 && !Taken(p, o) && forall k: nat :: 0 < k < o ==> Taken(p, k)
  {
    if outs.Some? && outs.value > 0 {
      var limit, o := Min(outs.value, N), FreeOut(p.oTab, outs);
      FirstFreeTaken(p.oTab, 1, limit);
      forall k: nat | 0 < k < N ensures p.oTab[k].Some? <==> Taken(p, k) {
        if p.oTab[k].Some? {
          assert p.channels[p.oTab[k].value].o == k;
        }
        if Taken(p, k) {
          var c: nat :| c < N && p.channels[c].o == k;
          assert p.oTab[k] == Some(c);
        }
      }
    }
  }

  lemma {:induction false} FreeChannelLowest(channels: seq<Channel>, c: nat)
    requires c <= |channels|
    ensures
      var r := FreeChannel(channels, c);
      forall d :: c <= d < (if r.Some? then r.value else |channels|) ==> channels[d].state != CLOSED
    decreases |channels| - c
  {
    if c < |channels| && channels[c].state != CLOSED {
      FreeChannelLowest(channels, c + 1);
    }
  }

  /** Opening takes the first closed channel and the lowest free stream, and leaves nothing behind if it fails. */
  lemma {:induction false} OpenedByStream(p: Peer, q: Params, outs: Option<nat>, sent: Sent)
    requires Sane(p) && Inverse(p)
    ensures
      var c, o, p' := FreeChannel(p.channels, 0), FreeOut(p.oTab, outs), Opened(p, q, outs, sent);
      if !ProperParams(q) || c.None? then p' == p else
      && SameResets(p, p')
      && OnlyChannel(p, p', c.value,
           if o != 0 && sent == Failed then SHUT
           else Channel(CONNECTING, 0, o, q, Flags(o != 0 && sent == Again, false, false)))
  {
  }

  /** So does an open request, unless a channel has its incoming stream. */
  lemma {:induction false} RequestedByStream(p: Peer, i: nat, q: Params, outs: Option<nat>, sent: Sent)
    requires Sane(p) && Inverse(p) && i < N
    ensures
      var c, o, r := FreeChannel(p.channels, 0), FreeOut(p.oTab, outs), Requested(p, i, q, outs, sent);
      && r.Some?
      && var p' := r.value;
         if (i != 0 && TakenIn(p, i)) || c.None? then p' == p else
         && SameResets(p, p')
         && OnlyChannel(p, p', c.value,
              if o != 0 && sent == Failed then SHUT
              else Channel(CONNECTING, i, o, q, Flags(false, o != 0 && sent == Again, false)))
  {
    assert p.iTab[i].Some? ==> i != 0 && p.channels[p.iTab[i].value].i == i;
  }

  /** A response opens the connecting channel that has the stream it names, if its own stream is new. */
  lemma {:induction false} RespondedByStream(p: Peer, i: nat, o: nat, acked: bool)
    requires Sane(p) && Inverse(p) && i < N
    ensures
      var r := Responded(p, i, o, acked);
      && r.Some? && SameResets(p, r.value)
      && forall c: nat :: c < N ==>
           var ch := p.channels[c];
           r.value.channels[c] ==
             if o == 0 || ch.o != o || ch.state != CONNECTING || (i != 0 && TakenIn(p, i)) then ch
             else Channel(OPEN, i, o, ch.params, if acked then NO_FLAGS else ch.flags.(ack := true))
  {
    assert p.iTab[i].Some? ==> i != 0 && p.channels[p.iTab[i].value].i == i;
    if o < N {
      assert p.oTab[o].Some? ==> o != 0 && p.channels[p.oTab[o].value].o == o;
    }
  }

  /** An ack or data opens the connecting channel that has the stream. */
  lemma {:induction false} AcknowledgedByStream(p: Peer, i: nat)
    requires Sane(p) && Inverse(p)
    ensures
      var p' := Acknowledged(p, i);
      && SameResets(p, p')
      && forall c: nat :: c < N ==>
           var ch := p.channels[c];
           p'.channels[c] == if i != 0 && ch.i == i && ch.state == CONNECTING then ch.(state := OPEN) else ch
  {
    if i < N {
      assert p.iTab[i].Some? ==> p.channels[p.iTab[i].value].i == i;
    }
  }

  /**
   * The channel that has a reset incoming stream loses it. Then it is closed if it has no outgoing
   * stream either; an open one asks for the reset of that, and is closing.
   */
  lemma {:induction false} ResetInByStream(p: Peer, id: nat)
    requires Sane(p) && Inverse(p)
    ensures
      var r := ResetIn(p, id);
      && r.Some? && r.value.asked == p.asked
      && (forall c: nat :: c < N ==>
            var ch := p.channels[c];
            r.value.channels[c] ==
              if id == 0 || ch.i != id then ch
              else if ch.o == 0 then SHUT
              else ch.(i := 0, state := if ch.state == OPEN then CLOSING else ch.state))
      && (forall x :: x in PendingIn(r.value) <==>
            x in PendingIn(p) || (id != 0 && x != 0 && exists c: nat :: c < N && OpenOn(p.channels[c], id, x)))
  {
    if id < N && p.iTab[id].Some? {
      var c := p.iTab[id].value;
      var ch := p.channels[c];
      assert ch.i == id != 0;
      var p1 := p.(iTab := p.iTab[ch.i := None], channels := p.channels[c := ch.(i := 0)]);
      PendingAdds(p1, ch.o);
      assert PendingIn(p1) == PendingIn(p);
      assert ch.state == OPEN ==> OpenOn(ch, id, ch.o);
    }
  }

  lemma {:induction false} PendingAdds(p: Peer, o: nat)
    requires Sane(p) && o < N
    ensures Pending(p, o).Some? && PendingIn(Pending(p, o).value) == PendingIn(p) + {o}
    ensures Pending(p, o).value == p.(buf := Pending(p, o).value.buf, count := Pending(p, o).value.count)
  {
    PendingFits(p, o);
    var p' := Pending(p, o).value;
    if p' != p {
      assert p'.buf[..p'.count] == p.buf[..p.count] + [o];
    }
  }

  /** The channel that has a reset outgoing stream loses it, and is closed if it has no incoming one. */
  lemma {:induction false} ResetOutByStream(p: Peer, id: nat)
    requires Sane(p) && Inverse(p)
    ensures
      var r := ResetOut(p, id);
      && r.Some? && PendingIn(r.value) == PendingIn(p) && r.value.asked == p.asked - {id}
      && (forall c: nat :: c < N ==>
            var ch := p.channels[c];
            r.value.channels[c] == if id == 0 || ch.o != id then ch else if ch.i == 0 then SHUT else ch.(o := 0))
  {
    if id < N && p.oTab[id].Some? {
      assert p.channels[p.oTab[id].value].o == id != 0;
    }
  }

  /** Closing an open channel: it is closing, and its stream is pending or in the request that was made. */
  lemma {:induction false} ClosedByStream(p: Peer, c: nat, flushed: bool)
    requires Sane(p) && c < N
    ensures
      var r, ch := ClosedBy(p, c, flushed), p.channels[c];
      && r.Some?
      && var p' := r.value;
         if ch.state != OPEN then p' == p else
         && OnlyChannel(p, p', c, ch.(state := CLOSING)) && p'.iTab == p.iTab && p'.oTab == p.oTab
         && PendingIn(p') == (if flushed then {} else PendingIn(p) + {ch.o})
         && p'.asked == p.asked + if flushed then PendingIn(p) + {ch.o} else {}
  {
    PendingAdds(p, p.channels[c].o);
  }

  /** What an answer to the request for streams does to one channel: `supplied` if it gets one. */
  predicate Turned(ch: Channel, ch': Channel, refused: bool) {
    if !Waiting(ch) then ch' == ch
    else if refused then ch' == SHUT
    else if ch'.o == 0 then ch' == ch
    else ch' == ch.(o := ch'.o, flags := if ch.i == 0 then ch.flags.(req := true) else ch.flags.(rsp := true))
  }

  /** The waiting channels from `c` on are all closed, or get streams one after another until there are no more. */
  ghost predicate TurnedFrom(p: Peer, p': Peer, c: nat, refused: bool)
    requires c <= N
  {
    && (forall d: nat :: d < c ==> p'.channels[d] == p.channels[d])
    && (forall d: nat :: c <= d < N ==> Turned(p.channels[d], p'.channels[d], refused))
    && (forall d: nat, e: nat :: c <= d < e < N && Waiting(p.channels[d]) && Waiting(p'.channels[d]) ==>
          p'.channels[e] == p.channels[e])
  }

  lemma {:induction false} TurnedStep(p: Peer, p1: Peer, p': Peer, c: nat, refused: bool)
    requires c < N && p1.channels == p.channels[c := p1.channels[c]]
    requires Turned(p.channels[c], p1.channels[c], refused) && !Waiting(p1.channels[c])
    requires TurnedFrom(p1, p', c + 1, refused)
    ensures TurnedFrom(p, p', c, refused)
  {
    assert p'.channels[c] == p1.channels[c];
  }

  lemma {:induction false} ChangedByStream(p: Peer, c: nat, refused: bool, counts: Readings)
    requires Sane(p) && c <= N
    ensures
      var r := Changed(p, c, refused, counts);
      r.Some? && SameResets(p, r.value) && TurnedFrom(p, r.value, c, refused)
    decreases N - c
  {
    ChangedSane(p, c, refused, counts);
    if c < N {
      var p' := Changed(p, c, refused, counts).value;
      if !Waiting(p.channels[c]) {
        ChangedByStream(p, c + 1, refused, counts);
        TurnedStep(p, p, p', c, refused);
      } else {
        var r := if refused then GivenUp(p, c) else Supplied(p, c, ReadAt(counts, c));
        if r.Some? {
          ChangedByStream(r.value, c + 1, refused, counts);
          TurnedStep(p, r.value, p', c, refused);
        }
      }
    }
  }

  /** The outgoing stream of every closing channel waits to be reset, or its reset was asked for. */
  ghost predicate Owed(p: Peer)
  {
    forall c: nat :: c < N && p.channels[c].state == CLOSING && p.channels[c].o != 0 ==>
      p.channels[c].o in PendingIn(p) + p.asked
  }

  function Run(p: Peer, ops: seq<Op>): Outcome
    decreases |ops|
  {
    if ops == [] then Some(p) else
    var r := Step(p, ops[0]);
    if r.None? then None else
    Run(r.value, ops[1..])
  }

  /** A message on a stream id that the table has no room for. */
  predicate InRange(op: Op) {
    (op.Request? ==> op.i < N) && (op.Response? ==> op.i < N)
  }

  /**
   * Whatever happens, and however often sending the resets fails, nothing is ever written out of
   * bounds and the pending resets stay different streams, as long as inbound ids are below 100.
   */
  lemma {:induction false} RunStaysInBounds(p: Peer, ops: seq<Op>)
    requires Sane(p) && forall op :: op in ops ==> InRange(op)
    ensures Run(p, ops).Some? && Sane(Run(p, ops).value)
    decreases |ops|
  {
    if ops != [] {
      assert ops[0] in ops;
      StepSane(p, ops[0]);
      RunStaysInBounds(Step(p, ops[0]).value, ops[1..]);
    }
  }

  /** Every event of the run is proper in the state it finds, and none leaves the arrays. */
  ghost predicate ProperRun(p: Peer, ops: seq<Op>)
    decreases |ops|
  {
    ops == [] ||
    (!OutOfBounds(p, ops[0]) && Proper(p, ops[0]) &&
     (Step(p, ops[0]).Some? ==> ProperRun(Step(p, ops[0]).value, ops[1..])))
  }

  /** Over every run of such events the tables stay inverse. */
  lemma {:induction false} RunStaysInverse(p: Peer, ops: seq<Op>)
    requires Sane(p) && Inverse(p) && ProperRun(p, ops)
    ensures Run(p, ops).Some? && Sane(Run(p, ops).value) && Inverse(Run(p, ops).value)
    decreases |ops|
  {
    if ops != [] {
      StepExactly(p, ops[0]);
      RunStaysInverse(Step(p, ops[0]).value, ops[1..]);
    }
  }

  /** No write leaves the arrays and the tables are inverse after every event of the run. */
  ghost predicate StaysInverse(p: Peer, ops: seq<Op>)
    decreases |ops|
  {
    && Inverse(p)
    && (ops == [] ||
        (Step(p, ops[0]).Some? && StaysInverse(Step(p, ops[0]).value, ops[1..])))
  }

  /** That is so for exactly those runs. */
  lemma {:induction false} RunInverseExactly(p: Peer, ops: seq<Op>)
    requires Sane(p) && Inverse(p)
    ensures StaysInverse(p, ops) <==> ProperRun(p, ops)
    decreases |ops|
  {
    if ops != [] {
      StepSane(p, ops[0]);
      if !OutOfBounds(p, ops[0]) {
        StepExactly(p, ops[0]);
        if Proper(p, ops[0]) {
          RunInverseExactly(Step(p, ops[0]).value, ops[1..]);
        }
      }
    }
  }

  /** Over every proper run, no closing channel is forgotten. */
  lemma {:induction false} RunOwes(p: Peer, ops: seq<Op>)
    requires Sane(p) && Inverse(p) && Owed(p) && ProperRun(p, ops)
    ensures Run(p, ops).Some? && Owed(Run(p, ops).value)
    decreases |ops|
  {
    if ops != [] {
      StepExactly(p, ops[0]);
      StepOwes(p, ops[0]);
      RunOwes(Step(p, ops[0]).value, ops[1..]);
    }
  }

  lemma {:induction false} StepOwes(p: Peer, op: Op)
    requires Sane(p) && Inverse(p) && Owed(p) && !OutOfBounds(p, op)
    ensures Step(p, op).Some? && Owed(Step(p, op).value)
  {
    StepSane(p, op);
    match op
    case Open(q, outs, sent) => OpenedByStream(p, q, outs, sent);
    case Close(c, flushed) => if c < N { ClosedByStream(p, c, flushed); }
    case Request(i, q, outs, sent) => if i < N { RequestedByStream(p, i, q, outs, sent); }
    case Response(i, o, acked) => if i < N { RespondedByStream(p, i, o, acked); }
    case AckOrData(i) => AcknowledgedByStream(p, i);
    case Reset(incoming, outgoing, ids) => ResetAllOwes(p, incoming, outgoing, ids);
    case Change(refused, counts) => ChangedByStream(p, 0, refused, counts);
    case Flush(flushed) =>
    case Resend(c, req, rsp, ack) =>
  }

  lemma {:induction false} ResetAllOwes(p: Peer, incoming: bool, outgoing: bool, ids: seq<nat>)
    requires Sane(p) && Inverse(p) && Owed(p)
    ensures ResetAll(p, incoming, outgoing, ids).Some? && Owed(ResetAll(p, incoming, outgoing, ids).value)
    decreases |ids|
  {
    if ids != [] {
      ResetOneOwes(p, incoming, outgoing, ids[0]);
      ResetAllOwes(ResetOne(p, incoming, outgoing, ids[0]).value, incoming, outgoing, ids[1..]);
    }
  }

  lemma {:induction false} ResetOneOwes(p: Peer, incoming: bool, outgoing: bool, id: nat)
    requires Sane(p) && Inverse(p) && Owed(p)
    ensures
      var r := ResetOne(p, incoming, outgoing, id);
      r.Some? && Sane(r.value) && Inverse(r.value) && Owed(r.value)
  {
    ResetInSane(p, id);
    ResetInKeeps(p, id);
    ResetInOwes(p, id);
    var p1 := if incoming then ResetIn(p, id).value else p;
    ResetOutSane(p1, id);
    ResetOutKeeps(p1, id);
    ResetOutOwes(p1, id);
  }

  lemma {:induction false} ResetOutOwes(p: Peer, id: nat)
    requires Sane(p) && Inverse(p) && Owed(p)
    ensures ResetOut(p, id).Some? && Owed(ResetOut(p, id).value)
  {
    ResetOutSane(p, id);
    ResetOutByStream(p, id);
  }

  lemma {:induction false} ResetInOwes(p: Peer, id: nat)
    requires Sane(p) && Inverse(p) && Owed(p)
    ensures ResetIn(p, id).Some? && Owed(ResetIn(p, id).value)
  {
    ResetInSane(p, id);
    ResetInByStream(p, id);
    forall c: nat | c < N && p.channels[c].state == OPEN && p.channels[c].o != 0 && p.channels[c].i == id != 0
      ensures p.channels[c].o in PendingIn(ResetIn(p, id).value)
    {
      assert OpenOn(p.channels[c], id, p.channels[c].o);
    }
  }

  /** Events as a well-behaved peer and association produce them. */
  ghost predicate Polite(p: Peer, op: Op)
  {
    match op
    case Open(_, outs, _) => outs != Some(0)
    case Request(i, _, outs, _) => 0 < i < N && outs != Some(0)
    case Response(i, o, _) =>
      0 < i < N && (Answered(p, i, o).Some? ==> p.channels[Answered(p, i, o).value].i == 0)
    case Change(_, counts) => Some(0) !in counts
    case _ => true
  }

  /** They are proper. */
  lemma {:induction false} PoliteIsProper(p: Peer, op: Op)
    requires Polite(p, op)
    ensures Proper(p, op) && !OutOfBounds(p, op)
  {
    if op.Change? {
      NoGiftWithStreams(p, 0, op.counts);
    }
  }

  /** In terms of channels: a stream other than 0 has one owner. */
  lemma {:induction false} NoSharing(p: Peer, c: nat, d: nat)
    requires Inverse(p) && c < N && d < N && c != d
    ensures p.channels[c].i == 0 || p.channels[c].i >= N || p.channels[c].i != p.channels[d].i
    ensures p.channels[c].o == 0 || p.channels[c].o >= N || p.channels[c].o != p.channels[d].o
  {
    if p.channels[c].i < N {
      var holder := p.iTab[p.channels[c].i];
      assert holder != Some(c) || holder != Some(d);
    }
    if p.channels[c].o < N {
      var holder := p.oTab[p.channels[c].o];
      assert holder != Some(c) || holder != Some(d);
    }
  }

  lemma {:induction false} InitiallyInverse()
    ensures Sane(INITIAL) && Inverse(INITIAL)
  {
    assert INITIAL.buf[..0] == [];
  }

  // -------------------------------------------------- events that do break the tables

  /** Inbound stream 0 is entered in the table although 0 means "none". */
  lemma {:induction false} StreamZeroBreaks()
    ensures
      var r := Step(INITIAL, Request(0, NO_PARAMS, Some(10), Ok));
      r.Some? && !Inverse(r.value)
  {
    InitiallyInverse();
    StepExactly(INITIAL, Request(0, NO_PARAMS, Some(10), Ok));
  }

  /** Inbound stream 100 is written behind the table. */
  lemma {:induction false} StreamHundredEscapes()
    ensures Step(INITIAL, Request(100, NO_PARAMS, Some(10), Ok)).None?
  {
    InitiallyInverse();
    StepSane(INITIAL, Request(100, NO_PARAMS, Some(10), Ok));
  }

  /** With no outgoing stream left, stream 1 is given to a second channel. */
  lemma {:induction false} NoOutgoingStreamBreaks()
    ensures
      var p := Opened(INITIAL, NO_PARAMS, Some(10), Ok);
      Inverse(p) && !Inverse(Opened(p, NO_PARAMS, Some(0), Ok))
  {
    InitiallyInverse();
    var p := Opened(INITIAL, NO_PARAMS, Some(10), Ok);
    StepExactly(INITIAL, Open(NO_PARAMS, Some(10), Ok));
    assert FreeChannel(INITIAL.channels, 0) == Some(0) && FreeOut(INITIAL.oTab, Some(10)) == 1;
    assert FreeChannel(p.channels, 1) == Some(1) && FreeChannel(p.channels, 0) == Some(1);
    StepExactly(p, Open(NO_PARAMS, Some(0), Ok));
  }

  /** A response for a channel that the peer opened leaves its old entry behind. */
  lemma {:induction false} StrayResponseBreaks()
    ensures
      var r := Requested(INITIAL, 5, NO_PARAMS, Some(10), Ok);
      && r.Some? && Inverse(r.value)
      && var r' := Responded(r.value, 6, 1, true);
         r'.Some? && !Inverse(r'.value)
  {
    InitiallyInverse();
    assert FreeChannel(INITIAL.channels, 0) == Some(0) && FreeOut(INITIAL.oTab, Some(10)) == 1;
    StepExactly(INITIAL, Request(5, NO_PARAMS, Some(10), Ok));
    var p := Requested(INITIAL, 5, NO_PARAMS, Some(10), Ok).value;
    assert Answered(p, 6, 1) == Some(0) && p.channels[0].i == 5;
    StepExactly(p, Response(6, 1, true));
  }

  // ------------------------------------------------------------ the handlers themselves

  class PeerConnection {
    const channels: array<Channel>
    const iTab: array<Option<nat>>
    const oTab: array<Option<nat>>
    const buf: array<nat>
    var count: nat
    ghost var asked: set<nat>

    ghost function P(): Tables
      reads this, channels, iTab, oTab, buf
    {
      Peer(channels[..], iTab[..], oTab[..], buf[..], count, asked)
    }

    ghost predicate Valid()
      reads this, channels, iTab, oTab, buf
    {
      && channels.Length == N && iTab.Length == N && oTab.Length == N && buf.Length == N && iTab != oTab
      && Sized(P()) && Sane(P())
    }

    /** `init_peer_connection` */
    constructor ()
      ensures Valid() && P() == INITIAL && fresh(channels) && fresh(iTab) && fresh(oTab) && fresh(buf)
    {
      channels := new Channel[N](_ => Channel(CLOSED, 0, 0, NO_PARAMS, NO_FLAGS));
      iTab := new Option<nat>[N](_ => None);
      oTab := new Option<nat>[N](_ => None);
      buf := new nat[N](_ => 0);
      count, asked := 0, {};
      new;
      InitiallyInverse();
      assert channels[..] == INITIAL.channels && iTab[..] == INITIAL.iTab && oTab[..] == INITIAL.oTab
        && buf[..] == INITIAL.buf;
    }

    /** `find_free_channel` */
    method FindFreeChannel() returns (r: Option<nat>)
      requires Valid()
      ensures r == FreeChannel(channels[..], 0) && (r.Some? ==> r.value < N)
    {
      var i := 0;
      while i < N && channels[i].state != CLOSED
        invariant 0 <= i <= N
        invariant FreeChannel(channels[..], 0) == FreeChannel(channels[..], i)
      {
        i := i + 1;
      }
      return if i == N then None else Some(i);
    }

    /** `find_free_o_stream` */
    method FindFreeOStream(outs: Option<nat>) returns (r: nat)
      requires Valid()
      ensures r == FreeOut(oTab[..], outs) && r < N
    {
      if outs.None? {
        return 0;
      }
      var limit := if outs.value < N then outs.value else N;
      var i := 1;
      while i < limit && oTab[i].Some?
        invariant 1 <= i && (limit > 0 ==> i <= limit) && (limit == 0 ==> i == 1)
        invariant limit > 0 ==> FirstFree(oTab[..], 1, limit) == FirstFree(oTab[..], i, limit)
      {
        i := i + 1;
      }
      return if i == limit then 0 else i;
    }

    /** `open_channel` */
    method OpenChannel(q: Params, outs: Option<nat>, sent: Sent)
      requires Valid()
      modifies this, channels, oTab
      ensures Valid() && Step(old(P()), Open(q, outs, sent)) == Some(P())
    {
      OpenedSane(P(), q, outs, sent);
      if !ProperParams(q) {
        return;
      }
      var found := FindFreeChannel();
      if found.None? {
        return;
      }
      var c := found.value;
      var o := FindFreeOStream(outs);
      channels[c] := channels[c].(state := CONNECTING, params := q, o := o, flags := NO_FLAGS);
      if o != 0 {
        if sent == Ok {
          oTab[o] := Some(c);
        } else if sent == Again {
          oTab[o] := Some(c);
          channels[c] := channels[c].(flags := channels[c].flags.(req := true));
        } else {
          channels[c] := channels[c].(state := CLOSED, params := NO_PARAMS, o := 0, flags := NO_FLAGS);
        }
      }
      assert channels[..] == old(channels[..])[c := channels[c]];
    }

    /** `handle_open_request_message`; `escaped` when the table is written out of bounds. */
    method HandleOpenRequest(i: nat, q: Params, outs: Option<nat>, sent: Sent) returns (escaped: bool)
      requires Valid()
      modifies this, channels, iTab, oTab
      ensures escaped <==> OutOfBounds(old(P()), Request(i, q, outs, sent))
      ensures !escaped ==> Valid() && Step(old(P()), Request(i, q, outs, sent)) == Some(P())
    {
      RequestedSane(P(), i, q, outs, sent);
      if i < N && iTab[i].Some? {
        return false;
      }
      var found := FindFreeChannel();
      if found.None? {
        return false;
      }
      var c := found.value;
      var o := FindFreeOStream(outs);
      channels[c] := Channel(CONNECTING, i, o, q, NO_FLAGS);
      if i >= N {
        return true;
      }
      escaped := false;
      iTab[i] := Some(c);
      if o != 0 {
        if sent == Ok {
          oTab[o] := Some(c);
        } else if sent == Again {
          channels[c] := channels[c].(flags := channels[c].flags.(rsp := true));
          oTab[o] := Some(c);
        } else {
          iTab[i] := None;
          channels[c] := Channel(CLOSED, 0, 0, NO_PARAMS, NO_FLAGS);
        }
      }
      assert channels[..] == old(channels[..])[c := channels[c]];
      assert iTab[..] == old(iTab[..])[i := iTab[i]];
    }

    /** `handle_open_response_message`; `escaped` when the table is written out of bounds. */
    method HandleOpenResponse(i: nat, o: nat, acked: bool) returns (escaped: bool)
      requires Valid()
      modifies this, channels, iTab
      ensures escaped <==> OutOfBounds(old(P()), Response(i, o, acked))
      ensures !escaped ==> Valid() && Step(old(P()), Response(i, o, acked)) == Some(P())
    {
      StepSane(P(), Response(i, o, acked));
      if o >= N || oTab[o].None? {
        return false;
      }
      var c := oTab[o].value;
      if channels[c].state != CONNECTING || (i < N && iTab[i].Some?) {
        return false;
      }
      channels[c] := channels[c].(i := i, state := OPEN);
      if i >= N {
        return true;
      }
      escaped := false;
      iTab[i] := Some(c);
      channels[c] := channels[c].(flags := if acked then NO_FLAGS else channels[c].flags.(ack := true));
      assert channels[..] == old(channels[..])[c := channels[c]];
    }

    /** `handle_open_ack_message` and `handle_data_message` */
    method HandleAckOrData(i: nat)
      requires Valid()
      modifies channels
      ensures Valid() && Step(old(P()), AckOrData(i)) == Some(P())
    {
      StepSane(P(), AckOrData(i));
      if i < N && iTab[i].Some? {
        var c := iTab[i].value;
        if channels[c].state == CONNECTING {
          channels[c] := channels[c].(state := OPEN);
        }
      }
    }

    /** `reset_outgoing_stream`: the write is always inside the buffer. */
    method ResetOutgoingStream(o: nat)
      requires Valid() && o < N
      modifies this, buf
      ensures Valid() && Pending(old(P()), o) == Some(P())
    {
      PendingFits(P(), o);
      var i := 0;
      while i < count
        invariant 0 <= i <= count && o !in buf[..i]
      {
        if buf[i] == o {
          assert o in buf[..count];
          assert P().buf[..count] == buf[..count];
          return;
        }
        assert buf[..i + 1] == buf[..i] + [buf[i]];
        i := i + 1;
      }
      assert P().buf[..count] == buf[..count];
      buf[count] := o;
      count := count + 1;
    }

    /**
     * `send_outgoing_stream_reset`: the request lists every pending stream; the buffer is emptied only
     * when it could be made.
     */
    method SendOutgoingStreamReset(sent: bool) returns (request: seq<nat>)
      requires Valid()
      modifies this
      ensures Valid() && Step(old(P()), Flush(sent)) == Some(P())
      ensures request == old(buf[..count]) && asked == old(asked) + if sent then set x | x in request else {}
      ensures count == if sent then 0 else old(count)
    {
      StepSane(P(), Flush(sent));
      request := [];
      assert P().buf[..count] == buf[..count];
      if count == 0 {
        assert PendingIn(P()) == {} && Flushed(P(), true).asked == asked;
        return;
      }
      var i := 0;
      while i < count
        invariant 0 <= i <= count && request == buf[..i]
      {
        request := request + [buf[i]];
        i := i + 1;
      }
      assert P().buf[..count] == request;
      if sent {
        asked := asked + set x | x in request;
        count := 0;
      }
    }

    /** `send_deferred_messages`; `sent(c)` says which messages of channel `c` could be sent now. */
    method SendDeferredMessages(sent: nat -> Flags)
      requires Valid()
      modifies channels
      ensures Valid()
      ensures forall c: nat :: c < N ==>
        var was := old(channels[c]);
        channels[c] == was.(flags := Flags(was.flags.req && !sent(c).req, was.flags.rsp && !sent(c).rsp,
          was.flags.ack && !sent(c).ack))
    {
      ghost var p := P();
      var c := 0;
      while c < N
        invariant 0 <= c <= N && Valid() && P() == p.(channels := P().channels)
        invariant forall d: nat :: d < N ==>
          channels[d] == if d < c then Resent(p.channels[d], sent(d).req, sent(d).rsp, sent(d).ack) else p.channels[d]
      {
        StepSane(P(), Resend(c, sent(c).req, sent(c).rsp, sent(c).ack));
        var flags := channels[c].flags;
        if flags.req && sent(c).req {
          flags := flags.(req := false);
        }
        if flags.rsp && sent(c).rsp {
          flags := flags.(rsp := false);
        }
        if flags.ack && sent(c).ack {
          flags := flags.(ack := false);
        }
        channels[c] := channels[c].(flags := flags);
        c := c + 1;
      }
    }

    /** `close_channel` */
    method CloseChannel(c: nat, flushed: bool)
      requires Valid() && c < N
      modifies this, channels, buf
      ensures Valid() && Step(old(P()), Close(c, flushed)) == Some(P())
    {
      ghost var p := P();
      StepSane(p, Close(c, flushed));
      if channels[c].state != OPEN {
        return;
      }
      ResetOutgoingStream(channels[c].o);
      var _ := SendOutgoingStreamReset(flushed);
      channels[c] := channels[c].(state := CLOSING);
    }

    method ResetIncoming(id: nat)
      requires Valid()
      modifies this, channels, iTab, buf
      ensures Valid() && ResetIn(old(P()), id) == Some(P())
    {
      ResetInSane(P(), id);
      if id >= N || iTab[id].None? {
        return;
      }
      var c := iTab[id].value;
      iTab[channels[c].i] := None;
      channels[c] := channels[c].(i := 0);
      if channels[c].o == 0 {
        channels[c] := channels[c].(params := NO_PARAMS, flags := NO_FLAGS, state := CLOSED);
      } else if channels[c].state == OPEN {
        ResetOutgoingStream(channels[c].o);
        channels[c] := channels[c].(state := CLOSING);
      }
      assert channels[..] == old(channels[..])[c := channels[c]];
    }

    method ResetOutgoing(id: nat)
      requires Valid()
      modifies this, channels, oTab
      ensures Valid() && ResetOut(old(P()), id) == Some(P())
    {
      ResetOutSane(P(), id);
      asked := asked - {id};
      if id >= N || oTab[id].None? {
        return;
      }
      var c := oTab[id].value;
      oTab[channels[c].o] := None;
      channels[c] := channels[c].(o := 0);
      if channels[c].i == 0 {
        channels[c] := channels[c].(params := NO_PARAMS, flags := NO_FLAGS, state := CLOSED);
      }
      assert channels[..] == old(channels[..])[c := channels[c]];
    }

    /** `handle_stream_reset_event`, when the reset was neither denied nor failed */
    method HandleStreamReset(incoming: bool, outgoing: bool, ids: seq<nat>)
      requires Valid()
      modifies this, channels, iTab, oTab, buf
      ensures Valid() && Step(old(P()), Reset(incoming, outgoing, ids)) == Some(P())
    {
      ghost var p := P();
      var i := 0;
      assert ids[0..] == ids;
      while i < |ids|
        invariant 0 <= i <= |ids| && Valid()
        invariant ResetAll(P(), incoming, outgoing, ids[i..]) == ResetAll(p, incoming, outgoing, ids)
      {
        ghost var q := P();
        if incoming {
          ResetIncoming(ids[i]);
        }
        if outgoing {
          ResetOutgoing(ids[i]);
        }
        assert ResetOne(q, incoming, outgoing, ids[i]) == Some(P());
        assert ids[i..][1..] == ids[i + 1..];
        i := i + 1;
      }
    }

    /** `handle_stream_change_event` */
    method HandleStreamChange(refused: bool, counts: Readings)
      requires Valid()
      modifies this, channels, iTab, oTab
      ensures Valid() && Step(old(P()), Change(refused, counts)) == Some(P())
    {
      ghost var p := P();
      var c, stop := 0, false;
      while c < N && !stop
        invariant 0 <= c <= N && Valid()
        invariant Changed(p, 0, refused, counts) == if stop then Some(P()) else Changed(P(), c, refused, counts)
        decreases N - c, !stop
      {
        stop := ChangeOne(c, refused, counts);
        if !stop {
          c := c + 1;
        }
      }
    }

    /** One turn of the loop; there is nothing more to be had when it stops. */
    method ChangeOne(c: nat, refused: bool, counts: Readings) returns (stop: bool)
      requires Valid() && c < N
      modifies this, channels, iTab, oTab
      ensures Valid()
      ensures Changed(old(P()), c, refused, counts) == if stop then Some(P()) else Changed(P(), c + 1, refused, counts)
    {
      if channels[c].state != CONNECTING || channels[c].o != 0 {
        return false;
      }
      if refused {
        GiveUp(c);
        return false;
      }
      var o := FindFreeOStream(ReadAt(counts, c));
      if o == 0 {
        return true;
      }
      Supply(c, o, ReadAt(counts, c));
      return false;
    }

    /** A waiting channel is closed for want of an outgoing stream. */
    method GiveUp(c: nat)
      requires Valid() && c < N
      modifies this, channels, iTab
      ensures Valid() && GivenUp(old(P()), c) == Some(P())
    {
      if channels[c].i != 0 {
        iTab[channels[c].i] := None;
      }
      channels[c] := channels[c].(params := NO_PARAMS, i := 0, o := 0, flags := NO_FLAGS, state := CLOSED);
    }

    /** A waiting channel gets its outgoing stream. */
    method Supply(c: nat, o: nat, ghost outs: Option<nat>)
      requires Valid() && c < N && 0 < o < N && o == FreeOut(oTab[..], outs)
      modifies this, channels, oTab
      ensures Valid() && Supplied(old(P()), c, outs) == Some(P())
    {
      channels[c] := channels[c].(o := o);
      oTab[o] := Some(c);
      if channels[c].i == 0 {
        channels[c] := channels[c].(flags := channels[c].flags.(req := true));
      } else {
        channels[c] := channels[c].(flags := channels[c].flags.(rsp := true));
      }
      assert channels[..] == old(channels[..])[c := channels[c]];
    }
  }
}
