/** Key vectors of sctp_auth.c: their order and the key both peers derive from them. */
module Keys {
  import opened Common

  /** A key, or the null pointer; a null key counts as an empty one. */
  type Key = Option<seq<byte>>

  function KeyBytes(k: Key): seq<byte> {
    if k.Some? then k.value else []
  }

  // ------------------------------------------------------ keys as big numbers

  function Pow256(n: nat): (p: nat)
    ensures p > 0
  {
    if n == 0 then 1 else 256 * Pow256(n - 1)
  }

  /** The number that `s` writes down, most significant byte first. */
  function Value(s: seq<byte>): (v: nat) {
    if s == [] then 0 else 256 * Value(s[..|s| - 1]) + s[|s| - 1]
  }

  lemma {:induction false} ValueBound(s: seq<byte>)
    ensures Value(s) < Pow256(|s|)
  {
    if s != [] {
      ValueBound(s[..|s| - 1]);
    }
  }

  lemma {:induction false} ValueAppend(a: seq<byte>, b: seq<byte>)
    ensures Value(a + b) == Value(a) * Pow256(|b|) + Value(b)
  {
    if b == [] {
      assert a + b == a;
    } else {
      var n := |b| - 1;
      ValueAppend(a, b[..n]);
      assert (a + b)[..|a + b| - 1] == a + b[..n];
      assert Value(a) * Pow256(|b|) == 256 * (Value(a) * Pow256(n));
    }
  }

  lemma {:induction false} ValueInjective(a: seq<byte>, b: seq<byte>)
    requires |a| == |b| && Value(a) == Value(b)
    ensures a == b
  {
    if a != [] {
      var n := |a| - 1;
      ValueInjective(a[..n], b[..n]);
      assert a == a[..n] + [a[n]] && b == b[..n] + [b[n]];
    }
  }

  /** Equal so far, and the next digit decides, whatever follows. */
  lemma {:induction false} DigitDecides(a: seq<byte>, p: nat, b: seq<byte>, q: nat)
    requires p < |a| && q < |b| && |a| - p == |b| - q && Value(a[..p]) == Value(b[..q]) && a[p] < b[q]
    ensures Value(a) < Value(b)
  {
    var n := |a| - p - 1;
    assert a == a[..p + 1] + a[p + 1..] && b == b[..q + 1] + b[q + 1..];
    ValueAppend(a[..p + 1], a[p + 1..]);
    ValueAppend(b[..q + 1], b[q + 1..]);
    ValueBound(a[p + 1..]);
    assert a[..p + 1][..p] == a[..p] && b[..q + 1][..q] == b[..q];
    var x, y := Value(a[..p + 1]), Value(b[..q + 1]);
    assert (x + 1) * Pow256(n) <= y * Pow256(n) by { Monotone(x + 1, y, Pow256(n)); }
    assert (x + 1) * Pow256(n) == x * Pow256(n) + Pow256(n);
  }

  lemma {:induction false} Monotone(x: nat, y: nat, p: nat)
    requires x <= y
    ensures x * p <= y * p
  {
  }

  /** One key has run into its padding: the padding adds nothing, a non-zero digit wins. */
  lemma {:induction false} PaddedDigitDecides(a: seq<byte>, b: seq<byte>, q: nat)
    requires q < |b| && |a| < |b| - q && Value(b[..q]) == 0 && b[q] > 0
    ensures Value(a) < Value(b)
  {
    var z := seq(|b| - q - |a|, _ => 0);
    ZeroValue(z);
    ValueAppend(z, a);
    assert Value([]) == 0;
    assert (z + a)[..0] == [];
    DigitDecides(z + a, 0, b, q);
  }

  lemma {:induction false} ZeroValue(z: seq<byte>)
    requires forall i :: 0 <= i < |z| ==> z[i] == 0
    ensures Value(z) == 0
  {
    if z != [] {
      ZeroValue(z[..|z| - 1]);
    }
  }

  // ---------------------------------------------------------------- the order

  /** Order by (big-endian value, length), section 6.1 of RFC 4895. */
  function KeyOrder(a: seq<byte>, b: seq<byte>): int {
    if Value(a) != Value(b) then (if Value(a) < Value(b) then -1 else 1)
    else if |a| == |b| then 0
    else if |a| < |b| then -1 else 1
  }

  /** The smaller number, or the same number written in fewer bytes. */
  predicate Smaller(a: seq<byte>, b: seq<byte>) {
    Value(a) < Value(b) || (Value(a) == Value(b) && |a| < |b|)
  }

  /** A total order on byte strings: 0 only for identical keys. */
  lemma {:induction false} KeyOrderIsTotal(a: seq<byte>, b: seq<byte>, c: seq<byte>)
    ensures KeyOrder(a, b) == 0 <==> a == b
    ensures KeyOrder(b, a) == -KeyOrder(a, b)
    ensures KeyOrder(a, b) <= 0 && KeyOrder(b, c) <= 0 ==> KeyOrder(a, c) <= 0
  {
    if KeyOrder(a, b) == 0 {
      ValueInjective(a, b);
    }
  }

  /** `sctp_compare_key` */
  method CompareKey(key1: Key, key2: Key) returns (r: int)
    ensures r == KeyOrder(KeyBytes(key1), KeyBytes(key2))
    ensures r == -1 <==> Smaller(KeyBytes(key1), KeyBytes(key2))
    ensures r == 1 <==> Smaller(KeyBytes(key2), KeyBytes(key1))
    ensures r == 0 <==> KeyBytes(key1) == KeyBytes(key2)
  {
    KeyOrderIsTotal(KeyBytes(key1), KeyBytes(key2), []);
    var a, b := KeyBytes(key1), KeyBytes(key2);
    if |a| == 0 && |b| == 0 {
      return 0;
    } else if |a| == 0 {
      return -1;
    } else if |b| == 0 {
      return 1;
    }
    var maxlen := if |a| < |b| then |b| else |a|;
    var i, p, q := 0, 0, 0;
    while i < maxlen
      invariant 0 <= i <= maxlen && p == Max(0, i - (maxlen - |a|)) && q == Max(0, i - (maxlen - |b|))
      invariant Value(a[..p]) == Value(b[..q])
    {
      var val1: byte, val2: byte := 0, 0;
      ghost var p0, q0 := p, q;
      if i >= maxlen - |a| {
        val1, p := a[p], p + 1;
      }
      if i >= maxlen - |b| {
        val2, q := b[q], q + 1;
      }
      Compared(a, p0, b, q0, i, maxlen);
      if val1 > val2 {
        return 1;
      } else if val1 < val2 {
        return -1;
      }
      i := i + 1;
    }
    assert a[..p] == a && b[..q] == b;
    if |a| == |b| {
      return 0;
    } else if |a| < |b| {
      return -1;
    } else {
      return 1;
    }
  }

  /** The digit of `a` at place `i` of `maxlen`, left-padded with zeros. */
  function Padded(a: seq<byte>, i: nat, maxlen: nat): byte
    requires |a| <= maxlen && i < maxlen
  {
    if i < maxlen - |a| then 0 else a[i - (maxlen - |a|)]
  }

  lemma {:induction false} Compared(a: seq<byte>, p: nat, b: seq<byte>, q: nat, i: nat, maxlen: nat)
    requires |a| <= maxlen && |b| <= maxlen && maxlen in {|a|, |b|} && i < maxlen
    requires p == Max(0, i - (maxlen - |a|)) && q == Max(0, i - (maxlen - |b|)) && Value(a[..p]) == Value(b[..q])
    ensures Padded(a, i, maxlen) < Padded(b, i, maxlen) ==> Value(a) < Value(b)
    ensures Padded(a, i, maxlen) > Padded(b, i, maxlen) ==> Value(a) > Value(b)
    ensures
      var p', q' := Max(0, i + 1 - (maxlen - |a|)), Max(0, i + 1 - (maxlen - |b|));
      Padded(a, i, maxlen) == Padded(b, i, maxlen) ==> Value(a[..p']) == Value(b[..q'])
  {
    var x, y := Padded(a, i, maxlen), Padded(b, i, maxlen);
    if x < y {
      if i < maxlen - |a| { assert a[..p] == []; PaddedDigitDecides(a, b, q); } else { DigitDecides(a, p, b, q); }
    } else if x > y {
      if i < maxlen - |b| { assert b[..q] == []; PaddedDigitDecides(b, a, p); } else { DigitDecides(b, q, a, p); }
    } else {
      if i >= maxlen - |a| { assert a[..p + 1][..p] == a[..p]; }
      if i >= maxlen - |b| { assert b[..q + 1][..q] == b[..q]; }
    }
  }

  // ------------------------------------------------------ the association key

  /** Shared key, then the smaller vector, then the larger one. */
  function HashKey(a: seq<byte>, b: seq<byte>, shared: seq<byte>): seq<byte> {
    if KeyOrder(a, b) <= 0 then shared + a + b else shared + b + a
  }

  /** `sctp_compute_hashkey`; `memory` says whether the allocation succeeds. */
  method ComputeHashKey(key1: Key, key2: Key, shared: Key, memory: bool) returns (r: Key)
    ensures r.Some? <==> memory && |KeyBytes(key1)| + |KeyBytes(key2)| + |KeyBytes(shared)| > 0
    ensures r.Some? ==> r.value == HashKey(KeyBytes(key1), KeyBytes(key2), KeyBytes(shared))
  {
    var keylen := |KeyBytes(key1)| + |KeyBytes(key2)| + |KeyBytes(shared)|;
    if keylen == 0 || !memory {
      return None;
    }
    var key: seq<byte> := [];
    var order := CompareKey(key1, key2);
    var first, second := if order <= 0 then key1 else key2, if order <= 0 then key2 else key1;
    if |KeyBytes(shared)| > 0 {
      key := key + shared.value;
    }
    if |KeyBytes(first)| > 0 {
      key := key + first.value;
    }
    if |KeyBytes(second)| > 0 {
      key := key + second.value;
    }
    return Some(key);
  }

  /** Both peers derive one key: swapping the two vectors changes nothing. */
  lemma {:induction false} HashKeySymmetric(a: seq<byte>, b: seq<byte>, shared: seq<byte>)
    ensures HashKey(a, b, shared) == HashKey(b, a, shared)
  {
    KeyOrderIsTotal(a, b, a);
  }

  /** Section 6.1 of RFC 4895: the shared key, then the vectors, the smaller one first. */
  predicate IsHashKey(a: seq<byte>, b: seq<byte>, shared: seq<byte>, k: seq<byte>) {
    || (Smaller(a, b) && k == shared + a + b)
    || (Smaller(b, a) && k == shared + b + a)
    || (a == b && k == shared + a + a)
  }

  /** There is one such key, and no byte is lost in it. */
  lemma {:induction false} HashKeyShape(a: seq<byte>, b: seq<byte>, shared: seq<byte>)
    ensures forall k :: IsHashKey(a, b, shared, k) <==> k == HashKey(a, b, shared)
    ensures multiset(HashKey(a, b, shared)) == multiset(a) + multiset(b) + multiset(shared)
  {
    KeyOrderIsTotal(a, b, a);
  }
}
