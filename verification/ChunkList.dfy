/** The list of chunk types a peer must authenticate, in sctp_auth.c. */
module ChunkList {
  import opened Common

  const SCTP_INITIATION := 0x01
  const SCTP_INITIATION_ACK := 0x02
  const SCTP_SHUTDOWN_COMPLETE := 0x0e
  const SCTP_AUTHENTICATION := 0x0f

  /** The types that section 3.2 of RFC 4895 keeps out of the list. */
  predicate Restricted(c: byte) {
    c == SCTP_INITIATION || c == SCTP_INITIATION_ACK || c == SCTP_SHUTDOWN_COMPLETE || c == SCTP_AUTHENTICATION
  }

  type Flags = s: seq<byte> | |s| == 256 witness seq(256, _ => 0)

  /** `sctp_auth_chklist_t`: one flag per type, and their number in a `uint8_t`. */
  datatype Chunks = Chunks(flags: Flags, num: byte)

  datatype Op = Add(chunk: byte) | Delete(chunk: byte)

  const CLEARED := Chunks(seq(256, _ => 0), 0)

  /** `++` and `--` on a `uint8_t` wrap around. */
  function Added(l: Chunks, c: byte): Chunks
  {
    if Restricted(c) || l.flags[c] != 0 then l else Chunks(l.flags[c := 1], (l.num + 1) % 256)
  }

  function Deleted(l: Chunks, c: byte): Chunks
  {
    if l.flags[c] != 1 then l else Chunks(l.flags[c := 0], (l.num - 1) % 256)
  }

  function Apply(l: Chunks, op: Op): Chunks
  {
    match op
    case Add(c) => Added(l, c)
    case Delete(c) => Deleted(l, c)
  }

  function Run(l: Chunks, ops: seq<Op>): (r: Chunks)
    decreases ops
  {
    if ops == [] then l else Run(Apply(l, ops[0]), ops[1..])
  }

  /** The chunk types below `n` whose flag is set. */
  function Listed(flags: Flags, n: nat): (s: set<byte>)
    requires n <= 256
  {
    set c: byte | c < n && flags[c] != 0
  }

  /** The counter is the number of set flags, and no restricted type is listed. */
  ghost predicate Good(l: Chunks) {
    && (forall c: byte :: l.flags[c] in {0, 1})
    && (forall c: byte :: Restricted(c) ==> l.flags[c] == 0)
    && l.num == |Listed(l.flags, 256)|
  }

  /** A set of unrestricted types has at most 252 elements. */
  lemma {:induction false} AtMost252(s: set<byte>)
    requires forall c :: c in s ==> !Restricted(c)
    ensures |s| <= 252
  {
    var r: set<byte> := {SCTP_INITIATION, SCTP_INITIATION_ACK, SCTP_SHUTDOWN_COMPLETE, SCTP_AUTHENTICATION};
    assert |s + r| == |s| + 4;
    BoundedSet(s + r, 256);
  }

  lemma {:induction false} BoundedSet(s: set<byte>, n: nat)
    requires forall c :: c in s ==> c < n
    ensures |s| <= n
  {
    if n == 0 {
      assert s == {};
    } else {
      BoundedSet(s - {n - 1}, n - 1);
      if n - 1 < 256 {
        var last: byte := n - 1;
        SetMoved(s, s - {last}, last);
      } else {
        BoundedSet(s, n - 1);
      }
    }
  }

  lemma {:induction false} ApplyKeepsGood(l: Chunks, op: Op)
    requires Good(l)
    ensures Good(Apply(l, op))
  {
    var l' := Apply(l, op);
    SetMoved(Listed(l.flags, 256), Listed(l'.flags, 256), op.chunk);
    AtMost252(Listed(l.flags, 256));
    AtMost252(Listed(l'.flags, 256));
  }

  /** In every run the counter is exact and never wraps. */
  lemma {:induction false} RunCounts(l: Chunks, ops: seq<Op>)
    requires Good(l)
    ensures Good(Run(l, ops)) && Run(l, ops).num == |Listed(Run(l, ops).flags, 256)| <= 252
    decreases ops
  {
    if ops == [] {
      AtMost252(Listed(l.flags, 256));
    } else {
      ApplyKeepsGood(l, ops[0]);
      RunCounts(Apply(l, ops[0]), ops[1..]);
    }
  }

  // ------------------------------------------------------------- bit by bit

  /** `b & (1 << k)` */
  predicate Has(b: nat, k: nat) {
    if k == 0 then b % 2 == 1 else Has(b / 2, k - 1)
  }

  /** `b | (1 << k)` */
  function With(b: nat, k: nat): nat {
    if Has(b, k) then b else b + Pow2(k)
  }

  /** Setting a bit changes no other bit and does not leave the width. */
  lemma {:induction false} WithBits(b: nat, k: nat, j: nat)
    ensures Has(With(b, k), j) <==> j == k || Has(b, j)
    decreases k
  {
    if k > 0 {
      assert With(b, k) / 2 == With(b / 2, k - 1);
      if j > 0 {
        WithBits(b / 2, k - 1, j - 1);
      }
    }
  }

  lemma {:induction false} WithFits(b: nat, k: nat, n: nat)
    requires k < n && b < Pow2(n)
    ensures With(b, k) < Pow2(n)
  {
    if k > 0 {
      assert With(b, k) == 2 * With(b / 2, k - 1) + b % 2;
      WithFits(b / 2, k - 1, n - 1);
    }
  }

  // ---------------------------------------------------------- the two forms

  /** The byte-list form: the listed types below `n`, ascending. */
  function ListTo(flags: Flags, n: nat): seq<byte>
    requires n <= 256
  {
    if n == 0 then [] else ListTo(flags, n - 1) + if flags[n - 1] != 0 then [n - 1] else []
  }

  /** The types `s` asks to add: its bytes, or the numbers of its set bits. */
  ghost predicate Asks(s: seq<byte>, num: byte, c: byte)
    requires |s| >= Min(num, 32)
  {
    if num <= 32 then c in s[..num] else Has(s[c / 8], c % 8)
  }

  lemma {:induction false} ListToMembers(flags: Flags, n: nat)
    requires n <= 256
    ensures forall c: byte :: c in ListTo(flags, n) <==> c < n && flags[c] != 0
    ensures |ListTo(flags, n)| == |Listed(flags, n)|
    ensures forall i, j :: 0 <= i < j < |ListTo(flags, n)| ==> ListTo(flags, n)[i] < ListTo(flags, n)[j]
  {
    if n > 0 {
      ListToMembers(flags, n - 1);
      var shorter := ListTo(flags, n - 1);
      assert forall i :: 0 <= i < |shorter| ==> shorter[i] in shorter;
      SetMoved(Listed(flags, n - 1), Listed(flags, n), n - 1);
    }
  }

  lemma {:induction false} ListToGrows(flags: Flags, n: nat, m: nat)
    requires n <= m <= 256
    ensures |ListTo(flags, n)| <= |ListTo(flags, m)|
  {
    if n < m {
      ListToGrows(flags, n, m - 1);
    }
  }

  class List {
    const chunks: array<byte>
    var num: byte

    ghost predicate Valid()
      reads this, chunks
    {
      chunks.Length == 256 && Good(State())
    }

    function State(): Chunks
      requires chunks.Length == 256
      reads this, chunks
    {
      Chunks(chunks[..], num)
    }

    constructor ()
      ensures Valid() && State() == CLEARED && fresh(chunks)
    {
      chunks := new byte[256](_ => 0);
      num := 0;
      new;
      assert chunks[..] == CLEARED.flags;
    }

    /** `sctp_auth_add_chunk` */
    method AddChunk(chunk: byte) returns (r: int)
      requires Valid()
      modifies this, chunks
      ensures Valid() && State() == Added(old(State()), chunk)
      ensures r == (if chunk in {0x01, 0x02, 0x0e, 0x0f} then -1 else 0)
      ensures forall c: byte :: chunks[c] == if c == chunk && r == 0 && old(chunks[c]) == 0 then 1 else old(chunks[c])
    {
      ApplyKeepsGood(State(), Add(chunk));
      if chunk == SCTP_INITIATION || chunk == SCTP_INITIATION_ACK || chunk == SCTP_SHUTDOWN_COMPLETE
        || chunk == SCTP_AUTHENTICATION {
        return -1;
      }
      if chunks[chunk] == 0 {
        chunks[chunk] := 1;
        num := (num + 1) % 256;
      }
      return 0;
    }

    /** `sctp_auth_delete_chunk` */
    method DeleteChunk(chunk: byte)
      requires Valid()
      modifies this, chunks
      ensures Valid() && State() == Deleted(old(State()), chunk)
      ensures forall c: byte :: chunks[c] == if c == chunk then 0 else old(chunks[c])
    {
      ApplyKeepsGood(State(), Delete(chunk));
      if chunks[chunk] == 1 {
        chunks[chunk] := 0;
        num := (num - 1) % 256;
      }
    }

    /** `sctp_pack_auth_chunks`: the bit form is or-ed into whatever the buffer holds. */
    method Pack(buf: array<byte>) returns (size: nat)
      requires Valid() && buf.Length >= Min(num, 32) && buf != chunks
      modifies buf
      ensures size == Min(num, 32)
      ensures num <= 32 ==> buf[..size] == ListTo(chunks[..], 256)
      ensures num > 32 ==> forall c: byte ::
        Has(buf[c / 8], c % 8) <==> chunks[c] != 0 || Has(old(buf[c / 8]), c % 8)
      ensures buf[size..] == old(buf[size..])
    {
      if num <= 32 {
        size := PackList(buf);
      } else {
        PackBits(buf);
        size := 32;
      }
    }

    method PackList(buf: array<byte>) returns (size: nat)
      requires Valid() && buf.Length >= num && buf != chunks
      modifies buf
      ensures size == num && buf[..size] == ListTo(chunks[..], 256) && buf[size..] == old(buf[size..])
    {
      size := 0;
      var i := 0;
      ghost var flags := chunks[..];
      ListToMembers(flags, 256);
      while i < 256
        invariant 0 <= i <= 256 && flags == chunks[..] && size <= buf.Length
        invariant buf[..size] == ListTo(flags, i)
        invariant buf[size..] == old(buf[..])[size..]
      {
        ListToGrows(flags, i + 1, 256);
        if chunks[i] != 0 {
          ghost var done := buf[..size];
          buf[size] := i;
          size := size + 1;
          assert buf[..size] == done + [i];
        }
        i := i + 1;
      }
    }

    method PackBits(buf: array<byte>)
      requires Valid() && buf.Length >= 32 && buf != chunks
      modifies buf
      ensures forall c: byte :: Has(buf[c / 8], c % 8) <==> chunks[c] != 0 || Has(old(buf[c / 8]), c % 8)
      ensures buf[32..] == old(buf[32..])
    {
      var i := 0;
      while i < 256
        invariant 0 <= i <= 256
        invariant forall c: byte :: Has(buf[c / 8], c % 8) <==> (c < i && chunks[c] != 0) || Has(old(buf[c / 8]), c % 8)
        invariant buf[32..] == old(buf[32..])
      {
        if chunks[i] != 0 {
          var index, offset := i / 8, i % 8;
          WithFits(buf[index], offset, 8);
          assert Pow2(8) == 256;
          ghost var b := buf[index];
          buf[index] := With(buf[index], offset);
          forall j: nat ensures Has(buf[index], j) <==> j == offset || Has(b, j) {
            WithBits(b, offset, j);
          }
        }
        i := i + 1;
      }
    }

    /** `sctp_unpack_auth_chunks` */
    method Unpack(buf: array<byte>, count: byte) returns (size: nat)
      requires Valid() && buf.Length >= Min(count, 32) && buf != chunks
      modifies this, chunks
      ensures Valid() && size == Min(count, 32)
      ensures forall c: byte :: chunks[c] != 0 <==> old(chunks[c]) != 0 || (!Restricted(c) && Asks(buf[..], count, c))
    {
      if count <= 32 {
        UnpackList(buf, count);
        assert buf[..][..count] == buf[..count];
        return count;
      }
      UnpackBits(buf);
      return 32;
    }

    method UnpackList(buf: array<byte>, count: byte)
      requires Valid() && buf.Length >= count && buf != chunks
      modifies this, chunks
      ensures Valid()
      ensures forall c: byte :: chunks[c] != 0 <==> old(chunks[c]) != 0 || (!Restricted(c) && c in buf[..count])
    {
      var i := 0;
      while i < count
        invariant 0 <= i <= count && Valid()
        invariant forall c: byte :: chunks[c] != 0 <==> old(chunks[c]) != 0 || (!Restricted(c) && c in buf[..i])
      {
        assert buf[..i + 1] == buf[..i] + [buf[i]];
        var _ := AddChunk(buf[i]);
        i := i + 1;
      }
    }

    method UnpackBits(buf: array<byte>)
      requires Valid() && buf.Length >= 32 && buf != chunks
      modifies this, chunks
      ensures Valid()
      ensures forall c: byte :: chunks[c] != 0 <==> old(chunks[c]) != 0 || (!Restricted(c) && Has(buf[c / 8], c % 8))
    {
      var index := 0;
      while index < 32
        invariant 0 <= index <= 32 && Valid()
        invariant forall c: byte :: chunks[c] != 0 <==>
          old(chunks[c]) != 0 || (!Restricted(c) && c < 8 * index && Has(buf[c / 8], c % 8))
      {
        var offset := 0;
        while offset < 8
          invariant 0 <= offset <= 8 && Valid()
          invariant forall c: byte :: chunks[c] != 0 <==>
            old(chunks[c]) != 0 || (!Restricted(c) && c < 8 * index + offset && Has(buf[c / 8], c % 8))
        {
          if Has(buf[index], offset) {
            var _ := AddChunk(8 * index + offset);
          }
          offset := offset + 1;
        }
        index := index + 1;
      }
    }
  }

  /** Two good lists with the same types listed are the same list. */
  lemma {:induction false} SameTypes(a: Chunks, b: Chunks)
    requires Good(a) && Good(b) && forall c: byte :: a.flags[c] != 0 <==> b.flags[c] != 0
    ensures a == b
  {
    forall c: byte ensures a.flags[c] == b.flags[c] {
      assert a.flags[c] in {0, 1} && b.flags[c] in {0, 1};
    }
    assert a.flags == b.flags;
  }

  /** `b` holds the types of `l`, in the form that their number selects. */
  ghost predicate Holds(l: Chunks, b: seq<byte>)
    requires Good(l) && |b| >= 32
  {
    if l.num <= 32 then b[..l.num] == ListTo(l.flags, 256)
    else forall c: byte :: Has(b[c / 8], c % 8) <==> l.flags[c] != 0
  }

  /** Whichever form was taken, the bytes ask for exactly the types of the list. */
  lemma {:induction false} HeldTypes(l: Chunks, b: seq<byte>)
    requires Good(l) && |b| >= 32 && Holds(l, b)
    ensures forall c: byte :: Asks(b, l.num, c) <==> l.flags[c] != 0
  {
    ListToMembers(l.flags, 256);
  }

  lemma {:induction false} NoBits(k: nat)
    ensures !Has(0, k)
  {
    if k > 0 {
      NoBits(k - 1);
    }
  }

  lemma {:induction false} Recovered(l: Chunks, b: seq<byte>, r: Chunks)
    requires Good(l) && Good(r) && |b| >= 32 && Holds(l, b)
    requires forall c: byte :: r.flags[c] != 0 <==> !Restricted(c) && Asks(b, l.num, c)
    ensures r == l
  {
    HeldTypes(l, b);
    forall c: byte ensures l.flags[c] != 0 <==> r.flags[c] != 0 {
      assert Restricted(c) ==> l.flags[c] == 0;
      assert Asks(b, l.num, c) <==> l.flags[c] != 0;
    }
    SameTypes(l, r);
  }

  /** Packing into a zeroed buffer and unpacking into a cleared list gives the list back. */
  method RoundTrip(list: List, buf: array<byte>, copy: List)
    requires list.Valid() && copy.Valid() && list != copy && list.chunks != copy.chunks
    requires buf.Length >= 32 && buf != list.chunks && buf != copy.chunks
    requires copy.State() == CLEARED && forall i :: 0 <= i < 32 ==> buf[i] == 0
    modifies buf, copy, copy.chunks
    ensures copy.Valid() && copy.State() == list.State() == old(list.State())
  {
    ghost var l := list.State();
    var size := list.Pack(buf);
    ghost var b := buf[..];
    assert Holds(l, b) by {
      assert b[..size] == buf[..size];
      forall c: byte ensures !Has(old(buf[c / 8]), c % 8) {
        NoBits(c % 8);
      }
    }
    forall c: byte ensures copy.chunks[c] == 0 {
      assert copy.chunks[c] == CLEARED.flags[c];
    }
    var _ := copy.Unpack(buf, list.num);
    assert buf[..] == b;
    Recovered(l, b, copy.State());
  }
}
