/**
 * Sequence operations shared by the dashboards: the array methods
 * `filter`, `map` (replace by key), spread-reverse and `slice(0, n)` that
 * the client code builds its local lists from.
 */
module Lists {

  predicate Distinct<T(==)>(s: seq<T>)
  {
    forall i, j :: 0 <= i < j < |s| ==> s[i] != s[j]
  }

  /** `s.filter(keep)`: the elements of `s` that `keep` accepts, in their order. */
  function Filter<T(!new)>(s: seq<T>, keep: T -> bool): (r: seq<T>)
    ensures |r| <= |s|
    ensures forall x :: x in r <==> x in s && keep(x)
    ensures (forall i :: 0 <= i < |s| ==> keep(s[i])) ==> r == s
  {
    if s == [] then []
    else
      assert s == [s[0]] + s[1..];
      (if keep(s[0]) then [s[0]] else []) + Filter(s[1..], keep)
  }

  /** Filtering keeps every accepted element as many times as it occurs, and drops the rest. */
  lemma {:induction false} FilterMultiset<T(!new)>(s: seq<T>, keep: T -> bool)
    ensures forall x :: multiset(Filter(s, keep))[x] == if keep(x) then multiset(s)[x] else 0
  {
    if s != [] {
      FilterMultiset(s[1..], keep);
      assert s == [s[0]] + s[1..];
    }
  }

  lemma {:induction false} FilterConcat<T(!new)>(a: seq<T>, b: seq<T>, keep: T -> bool)
    ensures Filter(a + b, keep) == Filter(a, keep) + Filter(b, keep)
  {
    if a == [] {
      assert a + b == b;
    } else {
      assert (a + b)[1..] == a[1..] + b;
      FilterConcat(a[1..], b, keep);
    }
  }

  /** A kept element lands right after the kept elements that precede it. */
  lemma FilterAt<T(!new)>(s: seq<T>, keep: T -> bool, i: int)
    requires 0 <= i < |s| && keep(s[i])
    ensures |Filter(s[..i], keep)| < |Filter(s, keep)|
    ensures Filter(s, keep)[|Filter(s[..i], keep)|] == s[i]
  {
    assert s == s[..i] + s[i..];
    FilterConcat(s[..i], s[i..], keep);
    assert s[i..][1..] == s[i + 1..];
  }

  /** Two kept elements keep their relative order. */
  lemma FilterKeepsOrder<T(!new)>(s: seq<T>, keep: T -> bool, i: int, j: int)
    requires 0 <= i < j < |s| && keep(s[i]) && keep(s[j])
    ensures exists a, b :: 0 <= a < b < |Filter(s, keep)| &&
                           Filter(s, keep)[a] == s[i] && Filter(s, keep)[b] == s[j]
  {
    var r := Filter(s, keep);
    var a, b := |Filter(s[..i], keep)|, |Filter(s[..j], keep)|;
    assert a < |r| && r[a] == s[i] by { FilterAt(s, keep, i); }
    assert b < |r| && r[b] == s[j] by { FilterAt(s, keep, j); }
    assert a < b by { FilterPrefixGrows(s, keep, i, j); }
  }

  lemma FilterPrefixGrows<T(!new)>(s: seq<T>, keep: T -> bool, i: int, j: int)
    requires 0 <= i < j <= |s| && keep(s[i])
    ensures |Filter(s[..i], keep)| < |Filter(s[..j], keep)|
  {
    assert s[..j] == s[..i] + s[i..j];
    FilterConcat(s[..i], s[i..j], keep);
    assert s[i] in s[i..j];
  }

  /** In a pairwise-related sequence the head is related to everything after it. */
  lemma HeadRelatesTail<T>(s: seq<T>, rel: (T, T) -> bool)
    requires s != [] && forall i, j :: 0 <= i < j < |s| ==> rel(s[i], s[j])
    ensures forall y :: y in s[1..] ==> rel(s[0], y)
  {
    forall y | y in s[1..] ensures rel(s[0], y) {
      var k :| 0 <= k < |s[1..]| && s[1..][k] == y;
      assert s[k + 1] == y;
    }
  }

  /** An element related to everything in a pairwise-related sequence can go in front of it. */
  lemma ConsPairwise<T>(x: T, t: seq<T>, rel: (T, T) -> bool)
    requires forall y :: y in t ==> rel(x, y)
    requires forall i, j :: 0 <= i < j < |t| ==> rel(t[i], t[j])
    ensures forall i, j :: 0 <= i < j < |[x] + t| ==> rel(([x] + t)[i], ([x] + t)[j])
  {
    var r := [x] + t;
    forall i, j | 0 <= i < j < |r| ensures rel(r[i], r[j]) {
      assert r[j] == t[j - 1];
      if i > 0 {
        assert r[i] == t[i - 1];
      }
    }
  }

  /** A relation that holds between every earlier and later element still holds after filtering. */
  lemma {:induction false} FilterPairwise<T(!new)>(s: seq<T>, keep: T -> bool, rel: (T, T) -> bool)
    requires forall i, j :: 0 <= i < j < |s| ==> rel(s[i], s[j])
    ensures forall i, j :: 0 <= i < j < |Filter(s, keep)| ==> rel(Filter(s, keep)[i], Filter(s, keep)[j])
  {
    if s != [] {
      var t := Filter(s[1..], keep);
      FilterPairwise(s[1..], keep, rel);
      if keep(s[0]) {
        HeadRelatesTail(s, rel);
        assert forall y :: y in t ==> y in s[1..];
        ConsPairwise(s[0], t, rel);
        assert Filter(s, keep) == [s[0]] + t;
      } else {
        assert Filter(s, keep) == t;
      }
    }
  }

  /** The elements of `s` in reverse order. */
  function Reverse<T>(s: seq<T>): (r: seq<T>)
    ensures |r| == |s|
    ensures forall i :: 0 <= i < |s| ==> r[i] == s[|s| - 1 - i]
  {
    if s == [] then [] else Reverse(s[1..]) + [s[0]]
  }

  lemma ReverseSnoc<T>(s: seq<T>, x: T)
    ensures Reverse(s + [x]) == [x] + Reverse(s)
  {
    var l, r := Reverse(s + [x]), [x] + Reverse(s);
    assert forall i :: 0 <= i < |l| ==> l[i] == r[i];
  }

  function Min(a: nat, b: nat): nat
  {
    if a <= b then a else b
  }

  /** `s.slice(0, n)`: the first `n` elements, or all of them when there are fewer. */
  function Take<T>(s: seq<T>, n: nat): (r: seq<T>)
    ensures |r| == Min(|s|, n)
    ensures r == s[..|r|]
  {
    if |s| <= n then s else s[..n]
  }

  lemma TakeCons<T>(x: T, s: seq<T>, n: nat)
    ensures Take([x] + Take(s, n), n) == Take([x] + s, n)
  {
  }

  /** `[...s, x]`: the element goes at the end; the earlier ones stay as they were. */
  function Append<T>(s: seq<T>, x: T): (r: seq<T>)
    ensures |r| == |s| + 1 && r[|s|] == x
    ensures r[..|s|] == s
  {
    s + [x]
  }

  /** `s.map(y => key(y) === key(x) ? x : y)`. */
  function ReplaceKey<T, K(==)>(s: seq<T>, key: T -> K, x: T): (r: seq<T>)
    ensures |r| == |s|
    ensures forall i :: 0 <= i < |s| && key(s[i]) == key(x) ==> r[i] == x
    ensures forall i :: 0 <= i < |s| && key(s[i]) != key(x) ==> r[i] == s[i]
    ensures (forall i :: 0 <= i < |s| ==> key(s[i]) != key(x)) ==> r == s
  {
    seq(|s|, i requires 0 <= i < |s| => if key(s[i]) == key(x) then x else s[i])
  }

  /** `s.filter(y => key(y) !== k)`. */
  function RemoveKey<T(!new), K(==)>(s: seq<T>, key: T -> K, k: K): (r: seq<T>)
    ensures forall y :: multiset(r)[y] == if key(y) != k then multiset(s)[y] else 0
    ensures forall y :: y in r <==> y in s && key(y) != k
    ensures (forall i :: 0 <= i < |s| ==> key(s[i]) != k) ==> r == s
  {
    FilterMultiset(s, y => key(y) != k);
    Filter(s, y => key(y) != k)
  }

  lemma RemoveKeyKeepsOrder<T(!new), K>(s: seq<T>, key: T -> K, k: K, i: int, j: int)
    requires 0 <= i < j < |s| && key(s[i]) != k && key(s[j]) != k
    ensures exists a, b :: 0 <= a < b < |RemoveKey(s, key, k)| &&
                           RemoveKey(s, key, k)[a] == s[i] && RemoveKey(s, key, k)[b] == s[j]
  {
    var keep := y => key(y) != k;
    assert RemoveKey(s, key, k) == Filter(s, keep);
    FilterKeepsOrder(s, keep, i, j);
  }

  lemma RemoveKeyPairwise<T(!new), K>(s: seq<T>, key: T -> K, k: K, rel: (T, T) -> bool)
    requires forall i, j :: 0 <= i < j < |s| ==> rel(s[i], s[j])
    ensures forall i, j :: 0 <= i < j < |RemoveKey(s, key, k)| ==> rel(RemoveKey(s, key, k)[i], RemoveKey(s, key, k)[j])
  {
    var keep := y => key(y) != k;
    assert RemoveKey(s, key, k) == Filter(s, keep);
    FilterPairwise(s, keep, rel);
  }

  /** The position of the first occurrence of `x` in `s`. */
  function IndexOf<T(==)>(s: seq<T>, x: T): (i: nat)
    requires x in s
    ensures i < |s| && s[i] == x && x !in s[..i]
  {
    if s[0] == x then 0 else 1 + IndexOf(s[1..], x)
  }
}
