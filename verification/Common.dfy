/** Small definitions shared by all the modules. */
module Common {

  datatype Option<+T> = None | Some(value: T)

  /** An octet, `uint8_t` in the C sources. */
  type byte = x: int | 0 <= x < 256

  ghost predicate Distinct<T>(s: seq<T>) {
    forall i, j :: 0 <= i < j < |s| ==> s[i] != s[j]
  }

  function Min(a: int, b: int): (m: int)
    ensures m <= a && m <= b && (m == a || m == b)
  {
    if a < b then a else b
  }

  function Max(a: int, b: int): (m: int)
    ensures a <= m && b <= m && (m == a || m == b)
  {
    if a > b then a else b
  }

  lemma {:induction false} Associative<T>(a: seq<T>, b: seq<T>, c: seq<T>)
    ensures (a + b) + c == a + (b + c)
  {
  }

  /** `s` with every occurrence of `x` taken out: what unlinking an element leaves of a queue. */
  function Without<T(==)>(s: seq<T>, x: T): (r: seq<T>)
    ensures |r| <= |s|
  {
    if s == [] then [] else (if s[0] == x then [] else [s[0]]) + Without(s[1..], x)
  }

  lemma {:induction false} WithoutMembers<T(!new)>(s: seq<T>, x: T)
    ensures forall y :: y in Without(s, x) <==> y in s && y != x
  {
    if s != [] {
      WithoutMembers(s[1..], x);
      assert s == [s[0]] + s[1..];
    }
  }

  lemma {:induction false} WithoutAbsent<T>(s: seq<T>, x: T)
    ensures x !in s ==> Without(s, x) == s
    ensures x in s ==> |Without(s, x)| < |s|
  {
    if s != [] {
      WithoutAbsent(s[1..], x);
      assert s == [s[0]] + s[1..];
    }
  }

  lemma {:induction false} WithoutAppend<T>(a: seq<T>, b: seq<T>, x: T)
    ensures Without(a + b, x) == Without(a, x) + Without(b, x)
  {
    if a == [] {
      assert a + b == b;
    } else {
      assert (a + b)[1..] == a[1..] + b;
      WithoutAppend(a[1..], b, x);
      Associative(if a[0] == x then [] else [a[0]], Without(a[1..], x), Without(b, x));
    }
  }

  lemma {:induction false} WithoutDistinct<T(!new)>(s: seq<T>, x: T)
    requires Distinct(s)
    ensures Distinct(Without(s, x))
    ensures x in s ==> |Without(s, x)| == |s| - 1
  {
    if s != [] {
      WithoutDistinct(s[1..], x);
      WithoutMembers(s[1..], x);
      WithoutAbsent(s[1..], x);
      assert s[0] !in s[1..];
    }
  }

  /** `a` is obtained from `b` by dropping elements. */
  ghost predicate Subsequence<T>(a: seq<T>, b: seq<T>)
    decreases |b|
  {
    || a == []
    || (b != [] && a[0] == b[0] && Subsequence(a[1..], b[1..]))
    || (b != [] && Subsequence(a, b[1..]))
  }

  // ------------------------------------------------------------ bits and bytes

  function Pow2(k: nat): (p: nat)
    ensures p > 0
  {
    if k == 0 then 1 else 2 * Pow2(k - 1)
  }

  /** `memcpy` of `src` into `s` at offset `at`. */
  function Spliced(s: seq<byte>, at: nat, src: seq<byte>): (r: seq<byte>)
    requires at + |src| <= |s|
    ensures |r| == |s|
  {
    s[..at] + src + s[at + |src|..]
  }

  lemma {:induction false} SplicedParts(s: seq<byte>, at: nat, src: seq<byte>)
    requires at + |src| <= |s|
    ensures Spliced(s, at, src)[at..at + |src|] == src
    ensures forall i :: 0 <= i < |s| && (i < at || at + |src| <= i) ==> Spliced(s, at, src)[i] == s[i]
  {
  }

  // ---------------------------------------------------------- counting in maps

  function Unit(b: bool): nat { if b then 1 else 0 }

  /** The keys whose value satisfies `f`. */
  function Where<K, V>(m: map<K, V>, f: V -> bool): set<K> {
    set k | k in m && f(m[k])
  }

  lemma {:induction false} SetMoved<K(!new)>(before: set<K>, after: set<K>, k: K)
    requires forall x :: x != k ==> (x in after <==> x in before)
    ensures |after| == |before| + Unit(k in after) - Unit(k in before)
  {
    assert after - {k} == before - {k};
    assert k in after ==> after == (after - {k}) + {k};
    assert k !in after ==> after == after - {k};
    assert k in before ==> before == (before - {k}) + {k};
    assert k !in before ==> before == before - {k};
  }

  lemma {:induction false} WhereMoved<K(!new), V>(m: map<K, V>, k: K, v: V, f: V -> bool)
    ensures |Where(m[k := v], f)| == |Where(m, f)| + Unit(f(v)) - Unit(k in m && f(m[k]))
  {
    var before, after := Where(m, f), Where(m[k := v], f);
    assert forall x :: x != k ==> (x in after <==> x in before);
    assert k in after <==> f(v);
    SetMoved(before, after, k);
  }

  lemma {:induction false} WhereRemoved<K(!new), V>(m: map<K, V>, k: K, f: V -> bool)
    requires k in m
    ensures |Where(m - {k}, f)| == |Where(m, f)| - Unit(f(m[k]))
  {
    var before, after := Where(m, f), Where(m - {k}, f);
    assert forall x :: x != k ==> (x in after <==> x in before);
    SetMoved(before, after, k);
  }
}
