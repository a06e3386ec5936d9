/** Sorting by an integer key, as Rust's `sort` and `sort_by_cached_key` are
    used in day 7: the result is the input reordered so that keys never
    decrease, and elements with equal keys keep their input order
    (insertion places an element after every element with the same key).
 */
module Sorting {

  ghost predicate SortedBy<T>(s: seq<T>, key: T -> int)
  {
    forall i, j :: 0 <= i < j < |s| ==> key(s[i]) <= key(s[j])
  }

  ghost predicate Injective<T(!new)>(key: T -> int)
  {
    forall x, y :: key(x) == key(y) ==> x == y
  }

  /** Inserts `x` into a sorted sequence after all elements whose key is not
      larger than its own. */
  function Insert<T>(x: T, s: seq<T>, key: T -> int): (r: seq<T>)
    requires SortedBy(s, key)
    ensures |r| == |s| + 1
    ensures multiset(r) == multiset(s) + multiset{x}
    ensures SortedBy(r, key)
  {
    if |s| == 0 then [x]
    else if key(x) < key(s[0]) then
      ConsSorted(x, s, key);
      [x] + s
    else
      var rest := Insert(x, s[1..], key);
      assert s == [s[0]] + s[1..];
      BoundedByFirst(s, x, rest, key);
      ConsSorted(s[0], rest, key);
      [s[0]] + rest
  }

  /** Prepending an element no larger than any element keeps a sequence
      sorted. */
  lemma ConsSorted<T>(y: T, t: seq<T>, key: T -> int)
    requires SortedBy(t, key)
    requires forall k :: 0 <= k < |t| ==> key(y) <= key(t[k])
    ensures SortedBy([y] + t, key)
  {
    var u := [y] + t;
    forall i, j | 0 <= i < j < |u|
      ensures key(u[i]) <= key(u[j])
    {
      assert u[j] == t[j - 1];
      if i > 0 {
        assert u[i] == t[i - 1];
      }
    }
  }

  /** Every element of `s[1..]` with `x` added is at least `s[0]`. */
  lemma BoundedByFirst<T>(s: seq<T>, x: T, rest: seq<T>, key: T -> int)
    requires |s| > 0 && SortedBy(s, key) && key(s[0]) <= key(x)
    requires multiset(rest) == multiset(s[1..]) + multiset{x}
    ensures forall k :: 0 <= k < |rest| ==> key(s[0]) <= key(rest[k])
  {
    forall k | 0 <= k < |rest|
      ensures key(s[0]) <= key(rest[k])
    {
      assert rest[k] in multiset(rest);
      if rest[k] != x {
        assert rest[k] in s[1..];
        var j :| 0 <= j < |s[1..]| && s[1..][j] == rest[k];
        assert s[j + 1] == rest[k];
      }
    }
  }

  /** Stable insertion sort by `key`. */
  function SortByKey<T>(s: seq<T>, key: T -> int): (r: seq<T>)
    ensures |r| == |s|
    ensures multiset(r) == multiset(s)
    ensures SortedBy(r, key)
  {
    if |s| == 0 then []
    else
      assert s == s[..|s| - 1] + [s[|s| - 1]];
      Insert(s[|s| - 1], SortByKey(s[..|s| - 1], key), key)
  }

  /** With an injective key there is only one sorted arrangement of a
      multiset, so sorting any permutation of a sequence gives the same
      result. */
  lemma {:induction false} SortedUnique<T(!new)>(a: seq<T>, b: seq<T>, key: T -> int)
    requires Injective(key)
    requires SortedBy(a, key) && SortedBy(b, key)
    requires multiset(a) == multiset(b)
    ensures a == b
    decreases |a|
  {
    assert |a| == |multiset(a)| == |multiset(b)| == |b|;
    if |a| > 0 {
      SameHead(a, b, key);
      SameTailMultiset(a, b);
      SortedTail(a, key);
      SortedTail(b, key);
      SortedUnique(a[1..], b[1..], key);
      assert a == [a[0]] + a[1..] && b == [b[0]] + b[1..];
    }
  }

  lemma SameHead<T(!new)>(a: seq<T>, b: seq<T>, key: T -> int)
    requires Injective(key)
    requires SortedBy(a, key) && SortedBy(b, key)
    requires multiset(a) == multiset(b) && |a| > 0 && |b| > 0
    ensures a[0] == b[0]
  {
    assert a[0] in multiset(b);
    var j :| 0 <= j < |b| && b[j] == a[0];
    assert key(b[0]) <= key(a[0]) by {
      if j > 0 { assert key(b[0]) <= key(b[j]); }
    }
    assert b[0] in multiset(a);
    var i :| 0 <= i < |a| && a[i] == b[0];
    assert key(a[0]) <= key(b[0]) by {
      if i > 0 { assert key(a[0]) <= key(a[i]); }
    }
  }

  lemma SameTailMultiset<T>(a: seq<T>, b: seq<T>)
    requires multiset(a) == multiset(b) && |a| > 0 && |b| > 0 && a[0] == b[0]
    ensures multiset(a[1..]) == multiset(b[1..])
  {
    assert a == [a[0]] + a[1..];
    assert b == [b[0]] + b[1..];
    assert multiset(a[1..]) == multiset(a) - multiset{a[0]};
    assert multiset(b[1..]) == multiset(b) - multiset{b[0]};
  }

  lemma SortedTail<T>(a: seq<T>, key: T -> int)
    requires SortedBy(a, key) && |a| > 0
    ensures SortedBy(a[1..], key)
  {
  }

  /** `f` applied to every element, as `iter().map(f).collect()`. */
  function Map<A, B>(f: A -> B, s: seq<A>): (r: seq<B>)
    ensures |r| == |s|
    ensures forall k :: 0 <= k < |s| ==> r[k] == f(s[k])
  {
    seq(|s|, k requires 0 <= k < |s| => f(s[k]))
  }

  /** Removing one occurrence of `s[i]` from `s`. */
  lemma RemoveAt<T>(s: seq<T>, i: nat)
    requires i < |s|
    ensures s == s[..i] + [s[i]] + s[i + 1..]
    ensures multiset(s[..i] + s[i + 1..]) == multiset(s) - multiset{s[i]}
  {
    assert s == s[..i] + [s[i]] + s[i + 1..];
  }

  lemma MapConcat<A, B>(f: A -> B, u: seq<A>, v: seq<A>)
    ensures Map(f, u + v) == Map(f, u) + Map(f, v)
  {
    var l, r := Map(f, u + v), Map(f, u) + Map(f, v);
    assert |l| == |r|;
    forall k | 0 <= k < |l|
      ensures l[k] == r[k]
    {
      if k < |u| {
        assert (u + v)[k] == u[k];
      } else {
        assert (u + v)[k] == v[k - |u|];
      }
    }
  }

  /** Mapping two permutations of each other gives two permutations of each
      other. */
  lemma {:induction false} MapPermutation<A, B>(f: A -> B, a: seq<A>, b: seq<A>)
    requires multiset(a) == multiset(b)
    ensures multiset(Map(f, a)) == multiset(Map(f, b))
    decreases |a|
  {
    if |a| > 0 {
      var x := a[0];
      var i := IndexOf(a, b);
      var rest := b[..i] + b[i + 1..];
      assert multiset(a[1..]) == multiset(rest) by {
        RemoveFirst(a, b, i);
      }
      MapPermutation(f, a[1..], rest);
      assert multiset(Map(f, a)) == multiset{f(x)} + multiset(Map(f, a[1..])) by {
        MapConcat(f, [x], a[1..]);
        assert a == [x] + a[1..];
        assert Map(f, [x]) == [f(x)];
      }
      assert multiset(Map(f, b)) == multiset{f(x)} + multiset(Map(f, rest)) by {
        MapRemoveAt(f, b, i);
      }
    } else {
      assert |b| == |multiset(b)| == 0;
      assert Map(f, a) == [] == Map(f, b);
    }
  }

  /** Where the first element of `a` sits in a permutation `b` of it. */
  lemma IndexOf<T>(a: seq<T>, b: seq<T>) returns (i: nat)
    requires multiset(a) == multiset(b) && |a| > 0
    ensures i < |b| && b[i] == a[0]
  {
    assert a[0] in multiset(b);
    i :| 0 <= i < |b| && b[i] == a[0];
  }

  /** Removing the same element from two permutations of each other leaves
      permutations of each other. */
  lemma RemoveFirst<T>(a: seq<T>, b: seq<T>, i: nat)
    requires multiset(a) == multiset(b) && |a| > 0 && i < |b| && b[i] == a[0]
    ensures multiset(a[1..]) == multiset(b[..i] + b[i + 1..])
  {
    RemoveAt(b, i);
    assert a == [a[0]] + a[1..];
  }

  /** Mapping a sequence maps each element once: removing position `i`
      removes `f(s[i])` from the image. */
  lemma MapRemoveAt<A, B>(f: A -> B, s: seq<A>, i: nat)
    requires i < |s|
    ensures multiset(Map(f, s)) == multiset{f(s[i])} + multiset(Map(f, s[..i] + s[i + 1..]))
  {
    RemoveAt(s, i);
    MapConcat(f, s[..i] + [s[i]], s[i + 1..]);
    MapConcat(f, s[..i], [s[i]]);
    MapConcat(f, s[..i], s[i + 1..]);
    assert Map(f, [s[i]]) == [f(s[i])];
  }

  /** The sum of `f` over the elements, as `iter().map(f).sum()`. */
  function SumOf<T>(f: T -> int, s: seq<T>): int
  {
    if |s| == 0 then 0 else f(s[0]) + SumOf(f, s[1..])
  }

  lemma {:induction false} SumOfConcat<T>(f: T -> int, u: seq<T>, v: seq<T>)
    ensures SumOf(f, u + v) == SumOf(f, u) + SumOf(f, v)
    decreases |u|
  {
    if |u| > 0 {
      assert (u + v)[1..] == u[1..] + v;
      SumOfConcat(f, u[1..], v);
    } else {
      assert u + v == v;
    }
  }

  /** A sum does not depend on the order of its terms. */
  lemma {:induction false} SumOfPermutation<T>(f: T -> int, a: seq<T>, b: seq<T>)
    requires multiset(a) == multiset(b)
    ensures SumOf(f, a) == SumOf(f, b)
    decreases |a|
  {
    assert |a| == |multiset(a)| == |multiset(b)| == |b|;
    if |a| > 0 {
      var x := a[0];
      assert x in multiset(b);
      var i :| 0 <= i < |b| && b[i] == x;
      RemoveFirst(a, b, i);
      SumOfPermutation(f, a[1..], b[..i] + b[i + 1..]);
      SumOfRemoveAt(f, b, i);
    }
  }

  /** Removing position `i` takes `f(s[i])` off the sum. */
  lemma SumOfRemoveAt<T>(f: T -> int, s: seq<T>, i: nat)
    requires i < |s|
    ensures SumOf(f, s) == f(s[i]) + SumOf(f, s[..i] + s[i + 1..])
  {
    RemoveAt(s, i);
    SumOfConcat(f, s[..i] + [s[i]], s[i + 1..]);
    SumOfConcat(f, s[..i], [s[i]]);
    SumOfConcat(f, s[..i], s[i + 1..]);
    assert SumOf(f, [s[i]]) == f(s[i]) by {
      assert [s[i]][1..] == [];
    }
  }

  /** A value at two different positions occurs at least twice. */
  lemma TwoOccurrences<T>(s: seq<T>, i: nat, j: nat)
    requires i < j < |s|
    ensures s[i] == s[j] ==> multiset(s)[s[i]] >= 2
  {
    if s[i] == s[j] {
      assert s == s[..i] + [s[i]] + s[i + 1..j] + [s[j]] + s[j + 1..];
    }
  }

  /** A sum of terms that are all `c`. */
  lemma {:induction false} SumOfConstant<T>(f: T -> int, s: seq<T>, c: int)
    requires forall k :: 0 <= k < |s| ==> f(s[k]) == c
    ensures SumOf(f, s) == c * |s|
    decreases |s|
  {
    if |s| > 0 {
      SumOfConstant(f, s[1..], c);
    }
  }

  /** A sum of non-negative terms is at least each of its terms, and it is
      zero exactly when every term is. */
  lemma {:induction false} SumOfNonNegative<T>(f: T -> int, s: seq<T>)
    requires forall k :: 0 <= k < |s| ==> f(s[k]) >= 0
    ensures SumOf(f, s) >= 0
    ensures forall k :: 0 <= k < |s| ==> f(s[k]) <= SumOf(f, s)
    ensures SumOf(f, s) == 0 <==> forall k :: 0 <= k < |s| ==> f(s[k]) == 0
    decreases |s|
  {
    if |s| > 0 {
      var t := s[1..];
      assert forall k :: 1 <= k < |s| ==> s[k] == t[k - 1];
      SumOfNonNegative(f, t);
    }
  }

  /** Sums of two functions that agree on every element are equal. */
  lemma {:induction false} SumOfAgree<T>(f: T -> int, g: T -> int, s: seq<T>)
    requires forall k :: 0 <= k < |s| ==> f(s[k]) == g(s[k])
    ensures SumOf(f, s) == SumOf(g, s)
    decreases |s|
  {
    if |s| > 0 {
      var t := s[1..];
      assert forall k :: 0 <= k < |t| ==> t[k] == s[k + 1];
      SumOfAgree(f, g, t);
    }
  }
}
