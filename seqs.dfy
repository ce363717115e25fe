/**
 * Array operations the pages chain together: `filter`, a stable
 * descending `sort` by a numeric key, `find`, `slice(0, n)` and a sum.
 */
module Seqs {
  import opened Wrappers

  /** `s.filter(p)`: the elements satisfying `p`, in their original order. */
  function Filter<T(==,!new)>(s: seq<T>, p: T -> bool): (r: seq<T>)
    ensures |r| <= |s|
    ensures forall i :: 0 <= i < |r| ==> p(r[i]) && r[i] in s
  {
    if s == [] then []
    else
      var rest := Filter(s[1..], p);
      assert forall i :: 0 <= i < |rest| ==> rest[i] in s[1..];
      if p(s[0]) then [s[0]] + rest else rest
  }

  /** Filtering keeps every occurrence of each element that satisfies `p`, and nothing else. */
  lemma {:induction false} FilterCount<T(!new)>(s: seq<T>, p: T -> bool)
    ensures forall x :: multiset(Filter(s, p))[x] == if p(x) then multiset(s)[x] else 0
  {
    if s != [] {
      FilterCount(s[1..], p);
      assert s == [s[0]] + s[1..];
    }
  }

  /** Membership in a filtered sequence. */
  lemma FilterMembers<T(!new)>(s: seq<T>, p: T -> bool)
    ensures forall x :: x in Filter(s, p) <==> x in s && p(x)
  {
    FilterCount(s, p);
    forall x ensures x in Filter(s, p) <==> x in s && p(x) {
      assert x in Filter(s, p) <==> x in multiset(Filter(s, p));
      assert x in s <==> x in multiset(s);
    }
  }

  lemma {:induction false} FilterAll<T(!new)>(s: seq<T>, p: T -> bool)
    requires forall i :: 0 <= i < |s| ==> p(s[i])
    ensures Filter(s, p) == s
  {
    if s != [] {
      assert p(s[0]);
      forall i | 0 <= i < |s| - 1 ensures p(s[1..][i]) {
        assert s[1..][i] == s[i + 1];
      }
      FilterAll(s[1..], p);
      assert s == [s[0]] + s[1..];
    }
  }

  /** Nothing is kept when no element satisfies `p`. */
  lemma {:induction false} FilterNone<T(!new)>(s: seq<T>, p: T -> bool)
    requires forall i :: 0 <= i < |s| ==> !p(s[i])
    ensures Filter(s, p) == []
  {
    if s != [] {
      assert !p(s[0]);
      forall i | 0 <= i < |s| - 1 ensures !p(s[1..][i]) {
        assert s[1..][i] == s[i + 1];
      }
      FilterNone(s[1..], p);
    }
  }

  /** Filtering twice keeps what both conditions keep. */
  lemma {:induction false} FilterFilter<T(!new)>(s: seq<T>, p: T -> bool, q: T -> bool)
    ensures Filter(Filter(s, p), q) == Filter(s, x => p(x) && q(x))
  {
    if s != [] {
      FilterFilter(s[1..], p, q);
    }
  }

  predicate SortedDesc<T>(s: seq<T>, key: T -> int) {
    forall i, j :: 0 <= i < j < |s| ==> key(s[i]) >= key(s[j])
  }

  /** Places `x` in the descending sequence `t` before the first element whose key is not larger. */
  function InsertDesc<T>(x: T, t: seq<T>, key: T -> int): (r: seq<T>)
    requires SortedDesc(t, key)
    ensures SortedDesc(r, key)
    ensures multiset(r) == multiset(t) + multiset{x}
    ensures |r| == |t| + 1
    ensures r[0] == x || (t != [] && r[0] == t[0])
  {
    if t == [] || key(x) >= key(t[0]) then
      assert forall j :: 0 < j < |t| ==> key(t[0]) >= key(t[j]);
      [x] + t
    else
      assert SortedDesc(t[1..], key) by {
        forall i, j | 0 <= i < j < |t| - 1 ensures key(t[1..][i]) >= key(t[1..][j]) {
          assert t[1..][i] == t[i + 1] && t[1..][j] == t[j + 1];
        }
      }
      var rest := InsertDesc(x, t[1..], key);
      var r := [t[0]] + rest;
      assert key(rest[0]) <= key(t[0]) by {
        if |t| > 1 { assert t[1..][0] == t[1]; }
      }
      assert SortedDesc(r, key) by {
        forall i, j | 0 <= i < j < |r| ensures key(r[i]) >= key(r[j]) {
          assert r[j] == rest[j - 1];
          if i > 0 { assert r[i] == rest[i - 1]; }
          else if j > 1 { assert key(rest[0]) >= key(rest[j - 1]); }
        }
      }
      assert t == [t[0]] + t[1..];
      r
  }

  /**
   * `[...s].sort((a, b) => key(b) - key(a))`: newest first. The sort is
   * stable, like the engine's, so elements with equal keys keep their order.
   */
  function SortDesc<T>(s: seq<T>, key: T -> int): (r: seq<T>)
    ensures SortedDesc(r, key)
    ensures multiset(r) == multiset(s)
    ensures |r| == |s|
  {
    if s == [] then []
    else
      assert s == [s[0]] + s[1..];
      InsertDesc(s[0], SortDesc(s[1..], key), key)
  }

  /** Sorting keeps the members. */
  lemma SortDescMembers<T>(s: seq<T>, key: T -> int)
    ensures forall x :: x in SortDesc(s, key) <==> x in s
  {
    var r := SortDesc(s, key);
    forall x ensures x in r <==> x in s {
      assert x in r <==> x in multiset(r);
      assert x in s <==> x in multiset(s);
    }
  }

  /** The first element of a descending sort has the largest key. */
  lemma SortDescHeadIsMax<T>(s: seq<T>, key: T -> int)
    requires s != []
    ensures SortDesc(s, key)[0] in s
    ensures forall i :: 0 <= i < |s| ==> key(s[i]) <= key(SortDesc(s, key)[0])
  {
    var r := SortDesc(s, key);
    assert r[0] in multiset(r);
    forall i | 0 <= i < |s| ensures key(s[i]) <= key(r[0]) {
      assert s[i] in multiset(s);
      assert s[i] in multiset(r);
      var j :| 0 <= j < |r| && r[j] == s[i];
    }
  }

  /** Filtering keeps a descending order. */
  lemma {:induction false} FilterSortedDesc<T(!new)>(s: seq<T>, p: T -> bool, key: T -> int)
    requires SortedDesc(s, key)
    ensures SortedDesc(Filter(s, p), key)
  {
    if s != [] {
      SortedTail(s, key);
      FilterSortedDesc(s[1..], p, key);
      if p(s[0]) {
        var rest := Filter(s[1..], p);
        forall i | 0 <= i < |rest| ensures key(rest[i]) <= key(s[0]) {
          var k :| 0 <= k < |s[1..]| && s[1..][k] == rest[i];
          assert s[k + 1] == rest[i];
        }
        SortedCons(s[0], rest, key);
      }
    }
  }

  /** The tail of a descending sequence is descending. */
  lemma SortedTail<T>(s: seq<T>, key: T -> int)
    requires SortedDesc(s, key) && s != []
    ensures SortedDesc(s[1..], key)
  {
    forall i, j | 0 <= i < j < |s| - 1 ensures key(s[1..][i]) >= key(s[1..][j]) {
      assert s[1..][i] == s[i + 1] && s[1..][j] == s[j + 1];
    }
  }

  /** An element no smaller than every element of a descending sequence can go in front of it. */
  lemma SortedCons<T>(x: T, t: seq<T>, key: T -> int)
    requires SortedDesc(t, key)
    requires forall i :: 0 <= i < |t| ==> key(t[i]) <= key(x)
    ensures SortedDesc([x] + t, key)
  {
    var r := [x] + t;
    forall i, j | 0 <= i < j < |r| ensures key(r[i]) >= key(r[j]) {
      assert r[j] == t[j - 1];
      if i > 0 { assert r[i] == t[i - 1]; }
    }
  }

  /** `s.map(f)` */
  function Map<T, U>(s: seq<T>, f: T -> U): (r: seq<U>)
    ensures |r| == |s|
    ensures forall i :: 0 <= i < |s| ==> r[i] == f(s[i])
  {
    seq(|s|, i requires 0 <= i < |s| => f(s[i]))
  }

  /** `s.some(p)` */
  function Any<T>(s: seq<T>, p: T -> bool): (b: bool)
    ensures b <==> exists i :: 0 <= i < |s| && p(s[i])
  {
    if s == [] then false
    else if p(s[0]) then true
    else
      var b := Any(s[1..], p);
      assert (exists i :: 0 <= i < |s| && p(s[i])) ==> b by {
        if exists i :: 0 <= i < |s| && p(s[i]) {
          var i :| 0 <= i < |s| && p(s[i]);
          assert s[1..][i - 1] == s[i];
        }
      }
      b
  }

  /** `s.filter((_, idx) => idx !== i)`: drops position `i`; an `i` outside the sequence drops nothing. */
  function RemoveAt<T>(s: seq<T>, i: int): (r: seq<T>)
    ensures 0 <= i < |s| ==> |r| == |s| - 1
    ensures 0 <= i < |s| ==> (forall j :: 0 <= j < i ==> r[j] == s[j]) && (forall j :: i <= j < |r| ==> r[j] == s[j + 1])
    ensures !(0 <= i < |s|) ==> r == s
  {
    if 0 <= i < |s| then s[..i] + s[i + 1..] else s
  }

  /** Removing the element just appended gives back the sequence. */
  lemma RemoveAtLast<T>(s: seq<T>, x: T)
    ensures RemoveAt(s + [x], |s|) == s
  {
    var r := RemoveAt(s + [x], |s|);
    assert forall j :: 0 <= j < |s| ==> r[j] == s[j];
  }

  /** Removing keeps every other element: what was removed and what is left make up the whole. */
  lemma RemoveAtMultiset<T>(s: seq<T>, i: int)
    requires 0 <= i < |s|
    ensures multiset(RemoveAt(s, i)) + multiset{s[i]} == multiset(s)
  {
    assert s == s[..i] + [s[i]] + s[i + 1..];
  }

  /** `s[i]` is the first element satisfying `p`. */
  predicate FirstMatch<T>(s: seq<T>, p: T -> bool, i: int) {
    0 <= i < |s| && p(s[i]) && forall j :: 0 <= j < i ==> !p(s[j])
  }

  /** `s.find(p)`: the first element satisfying `p`. */
  function Find<T>(s: seq<T>, p: T -> bool): (r: Option<T>)
    ensures r.None? <==> forall i :: 0 <= i < |s| ==> !p(s[i])
    ensures r.Some? ==> exists i :: FirstMatch(s, p, i) && s[i] == r.value
  {
    if s == [] then None
    else if p(s[0]) then
      assert FirstMatch(s, p, 0);
      Some(s[0])
    else
      var r := Find(s[1..], p);
      assert r.Some? ==> exists i :: FirstMatch(s, p, i) && s[i] == r.value by {
        if r.Some? {
          var i :| FirstMatch(s[1..], p, i) && s[1..][i] == r.value;
          assert FirstMatch(s, p, i + 1);
        }
      }
      assert r.None? ==> forall i :: 0 <= i < |s| ==> !p(s[i]) by {
        if r.None? {
          forall i | 0 <= i < |s| ensures !p(s[i]) {
            if i > 0 { assert s[i] == s[1..][i - 1]; }
          }
        }
      }
      r
  }

  /** `s.slice(0, n)` */
  function Take<T>(s: seq<T>, n: nat): (r: seq<T>)
    ensures |r| == if |s| < n then |s| else n
    ensures r == s[..|r|]
  {
    if |s| <= n then s else s[..n]
  }

  /** `s.reduce((sum, x) => sum + f(x), 0)` */
  function SumOf<T>(s: seq<T>, f: T -> int): int {
    if s == [] then 0 else f(s[0]) + SumOf(s[1..], f)
  }

  /** A sum over two parts is the sum of the parts' sums. */
  lemma {:induction false} SumOfConcat<T>(a: seq<T>, b: seq<T>, f: T -> int)
    ensures SumOf(a + b, f) == SumOf(a, f) + SumOf(b, f)
  {
    if a == [] {
      assert a + b == b;
    } else {
      SumOfConcat(a[1..], b, f);
      assert (a + b)[0] == a[0] && (a + b)[1..] == a[1..] + b;
    }
  }

  /** Removing one element takes its term out of the sum. */
  lemma SumOfRemoveAt<T>(s: seq<T>, i: int, f: T -> int)
    requires 0 <= i < |s|
    ensures SumOf(RemoveAt(s, i), f) == SumOf(s, f) - f(s[i])
  {
    var a, b := s[..i], s[i + 1..];
    var tail := [s[i]] + b;
    assert s == a + tail;
    assert RemoveAt(s, i) == a + b;
    SumOfConcat(a, tail, f);
    SumOfConcat(a, b, f);
    assert tail[0] == s[i] && tail[1..] == b;
    assert SumOf(tail, f) == f(s[i]) + SumOf(b, f);
  }

  /** Changing one element changes the sum by the difference of its terms. */
  lemma SumOfUpdate<T>(s: seq<T>, i: int, x: T, f: T -> int)
    requires 0 <= i < |s|
    ensures SumOf(s[i := x], f) == SumOf(s, f) - f(s[i]) + f(x)
  {
    var t := s[i := x];
    assert s == s[..i] + ([s[i]] + s[i + 1..]);
    assert t == s[..i] + ([x] + s[i + 1..]);
    SumOfConcat(s[..i], [s[i]] + s[i + 1..], f);
    SumOfConcat(s[..i], [x] + s[i + 1..], f);
    assert ([s[i]] + s[i + 1..])[1..] == s[i + 1..];
    assert ([x] + s[i + 1..])[1..] == s[i + 1..];
  }

  /** A sum of non-negative terms is not negative, and one term never exceeds the whole. */
  lemma {:induction false} SumOfNonNegative<T>(s: seq<T>, f: T -> int, i: nat)
    requires forall x :: 0 <= f(x)
    requires i < |s|
    ensures f(s[i]) <= SumOf(s, f)
  {
    if i > 0 {
      SumOfNonNegative(s[1..], f, i - 1);
    } else if |s| > 1 {
      SumOfNonNegative(s[1..], f, 0);
    }
  }

  /** Summing the elements that satisfy `p` and those that do not gives the whole sum. */
  lemma {:induction false} SumOfFilterSplit<T(!new)>(s: seq<T>, p: T -> bool, q: T -> bool, f: T -> int)
    requires forall x :: q(x) == !p(x)
    ensures SumOf(Filter(s, p), f) + SumOf(Filter(s, q), f) == SumOf(s, f)
  {
    if s != [] {
      SumOfFilterSplit(s[1..], p, q, f);
    }
  }

  /** A sum of non-negative terms is 0 exactly when every term is. */
  lemma {:induction false} SumOfZero<T>(s: seq<T>, f: T -> int)
    requires forall x :: 0 <= f(x)
    ensures 0 <= SumOf(s, f)
    ensures SumOf(s, f) == 0 <==> forall i :: 0 <= i < |s| ==> f(s[i]) == 0
  {
    if s != [] {
      SumOfZero(s[1..], f);
      assert SumOf(s, f) == f(s[0]) + SumOf(s[1..], f);
      forall i | 1 <= i < |s| ensures s[i] == s[1..][i - 1] {}
    }
  }

  /**
   * The first `n` of a descending sort: still descending, drawn from `s`,
   * and no element left out has a larger key than any element kept.
   */
  lemma SortDescTop<T>(s: seq<T>, key: T -> int, n: nat)
    ensures SortedDesc(Take(SortDesc(s, key), n), key)
    ensures multiset(Take(SortDesc(s, key), n)) <= multiset(s)
    ensures forall x :: multiset(Take(SortDesc(s, key), n))[x] < multiset(s)[x] ==>
              forall i :: 0 <= i < |Take(SortDesc(s, key), n)| ==> key(x) <= key(Take(SortDesc(s, key), n)[i])
  {
    TopOfSorted(SortDesc(s, key), key, n);
  }

  /** The same for a sequence that is already descending. */
  lemma TopOfSorted<T>(sorted: seq<T>, key: T -> int, n: nat)
    requires SortedDesc(sorted, key)
    ensures SortedDesc(Take(sorted, n), key)
    ensures multiset(Take(sorted, n)) <= multiset(sorted)
    ensures forall x :: multiset(Take(sorted, n))[x] < multiset(sorted)[x] ==>
              forall i :: 0 <= i < |Take(sorted, n)| ==> key(x) <= key(Take(sorted, n)[i])
  {
    var top := Take(sorted, n);
    var rest := sorted[|top|..];
    assert sorted == top + rest;
    SortedPrefix(sorted, key, |top|);
    assert multiset(sorted) == multiset(top) + multiset(rest);
    forall x | multiset(top)[x] < multiset(sorted)[x]
      ensures forall i :: 0 <= i < |top| ==> key(x) <= key(top[i])
    {
      assert x in multiset(rest);
      var j :| 0 <= j < |rest| && rest[j] == x;
      assert sorted[|top| + j] == x;
      SortedBehind(sorted, key, |top|, j);
    }
  }

  /** A prefix of a descending sequence is descending. */
  lemma SortedPrefix<T>(s: seq<T>, key: T -> int, n: nat)
    requires SortedDesc(s, key) && n <= |s|
    ensures SortedDesc(s[..n], key)
  {
    forall i, j | 0 <= i < j < n ensures key(s[..n][i]) >= key(s[..n][j]) {
      assert s[..n][i] == s[i] && s[..n][j] == s[j];
    }
  }

  /** In a descending sequence, an element past the first `n` has a key no larger than any of them. */
  lemma SortedBehind<T>(s: seq<T>, key: T -> int, n: nat, j: nat)
    requires SortedDesc(s, key) && n + j < |s|
    ensures forall i :: 0 <= i < n ==> key(s[n + j]) <= key(s[..n][i])
  {
    forall i | 0 <= i < n ensures key(s[n + j]) <= key(s[..n][i]) {
      assert s[..n][i] == s[i];
    }
  }
}
