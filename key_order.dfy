/**
 * The order in which an object store returns its records: ascending by key,
 * strings compared character by character.
 */
module KeyOrder {

  /** `a` sorts strictly before `b`. */
  predicate KeyLt(a: string, b: string)
    decreases |a|
  {
    if a == [] then b != []
    else if b == [] then false
    else a[0] < b[0] || (a[0] == b[0] && KeyLt(a[1..], b[1..]))
  }

  lemma {:induction false} KeyLtIrreflexive(a: string)
    ensures !KeyLt(a, a)
    decreases |a|
  {
    if a != [] { KeyLtIrreflexive(a[1..]); }
  }

  lemma {:induction false} KeyLtAsymmetric(a: string, b: string)
    ensures KeyLt(a, b) ==> !KeyLt(b, a)
    decreases |a|
  {
    if a != [] && b != [] { KeyLtAsymmetric(a[1..], b[1..]); }
  }

  lemma {:induction false} KeyLtTransitive(a: string, b: string, c: string)
    requires KeyLt(a, b) && KeyLt(b, c)
    ensures KeyLt(a, c)
    decreases |a|
  {
    if a != [] && a[0] == b[0] && b[0] == c[0] {
      KeyLtTransitive(a[1..], b[1..], c[1..]);
    }
  }

  lemma {:induction false} KeyLtTotal(a: string, b: string)
    ensures a == b || KeyLt(a, b) || KeyLt(b, a)
    decreases |a|
  {
    if a != [] && b != [] && a[0] == b[0] {
      KeyLtTotal(a[1..], b[1..]);
      if a[1..] == b[1..] {
        assert a == [a[0]] + a[1..] && b == [b[0]] + b[1..];
      }
    }
  }

  /** `k` is the least key of `K`. */
  predicate IsLeast(k: string, K: set<string>) {
    k in K && forall x :: x in K && x != k ==> KeyLt(k, x)
  }

  lemma {:induction false} LeastExists(K: set<string>)
    requires K != {}
    ensures exists k :: IsLeast(k, K)
    decreases |K|
  {
    var x :| x in K;
    var rest := K - {x};
    if rest == {} {
      assert K == {x};
      assert IsLeast(x, K);
    } else {
      LeastExists(rest);
      var m :| IsLeast(m, rest);
      KeyLtTotal(x, m);
      if KeyLt(x, m) {
        forall y | y in K && y != x ensures KeyLt(x, y) {
          if y != m { KeyLtTransitive(x, m, y); }
        }
        assert IsLeast(x, K);
      } else {
        assert IsLeast(m, K);
      }
    }
  }

  lemma LeastUnique(a: string, b: string, K: set<string>)
    requires IsLeast(a, K) && IsLeast(b, K)
    ensures a == b
  {
    KeyLtAsymmetric(a, b);
  }

  /** The keys of `K` in ascending order: the least key first, then the rest. */
  ghost function SortedKeys(K: set<string>): (ks: seq<string>)
    ensures |ks| == |K|
    decreases |K|
  {
    if K == {} then []
    else
      LeastExists(K);
      var k :| IsLeast(k, K);
      [k] + SortedKeys(K - {k})
  }

  /** A listing starts with the least key, followed by the listing of the others. */
  lemma SortedKeysHead(K: set<string>)
    requires K != {}
    ensures IsLeast(SortedKeys(K)[0], K)
    ensures SortedKeys(K)[1..] == SortedKeys(K - {SortedKeys(K)[0]})
  {
  }

  /** The listing holds exactly the keys of `K`. */
  lemma {:induction false} SortedKeysMembers(K: set<string>)
    ensures forall k :: k in SortedKeys(K) <==> k in K
    decreases |K|
  {
    if K != {} {
      var ks := SortedKeys(K);
      var k := ks[0];
      SortedKeysHead(K);
      SortedKeysMembers(K - {k});
      assert ks == [k] + ks[1..];
    }
  }

  predicate Ascending(ks: seq<string>) {
    forall i, j :: 0 <= i < j < |ks| ==> KeyLt(ks[i], ks[j])
  }

  lemma AscendingCons(k: string, rest: seq<string>)
    requires Ascending(rest)
    requires forall x :: x in rest ==> KeyLt(k, x)
    ensures Ascending([k] + rest)
  {
    var ks := [k] + rest;
    forall i, j | 0 <= i < j < |ks| ensures KeyLt(ks[i], ks[j]) {
      assert ks[j] == rest[j - 1];
      if i > 0 { assert ks[i] == rest[i - 1]; }
    }
  }

  /** The listing is strictly ascending. */
  lemma {:induction false} SortedKeysAscending(K: set<string>)
    ensures Ascending(SortedKeys(K))
    decreases |K|
  {
    if K != {} {
      var ks := SortedKeys(K);
      var k := ks[0];
      SortedKeysHead(K);
      SortedKeysAscending(K - {k});
      SortedKeysMembers(K - {k});
      AscendingCons(k, ks[1..]);
      assert ks == [k] + ks[1..];
    }
  }

  /** The listing holds exactly the keys of `K`, in strictly ascending order. */
  lemma SortedKeysSorted(K: set<string>)
    ensures forall k :: k in SortedKeys(K) <==> k in K
    ensures forall i, j :: 0 <= i < j < |SortedKeys(K)| ==> KeyLt(SortedKeys(K)[i], SortedKeys(K)[j])
  {
    SortedKeysMembers(K);
    SortedKeysAscending(K);
    assert Ascending(SortedKeys(K));
  }

  /** Taking the least key first is exactly how the ascending listing starts. */
  lemma SortedKeysFirst(K: set<string>, k: string)
    requires IsLeast(k, K)
    ensures SortedKeys(K) == [k] + SortedKeys(K - {k})
  {
    var ks := SortedKeys(K);
    var m := ks[0];
    assert IsLeast(m, K) && ks == [m] + SortedKeys(K - {m});
    LeastUnique(m, k, K);
  }

  /** Strict ascent means no key is listed twice. */
  lemma SortedKeysDistinct(K: set<string>)
    ensures forall i, j :: 0 <= i < |SortedKeys(K)| && 0 <= j < |SortedKeys(K)| && i != j ==> SortedKeys(K)[i] != SortedKeys(K)[j]
  {
    SortedKeysSorted(K);
    var ks := SortedKeys(K);
    forall i, j | 0 <= i < |ks| && 0 <= j < |ks| && i != j ensures ks[i] != ks[j] {
      if i < j { KeyLtIrreflexive(ks[i]); } else { KeyLtIrreflexive(ks[j]); }
    }
  }
}
