/**
 * String operations the pages use: whitespace, trimming, ASCII lower-casing,
 * `includes`, global replacement of a literal pattern, `split(c)[0]` and
 * decimal rendering of natural numbers.
 */
module Text {

  /** The characters JavaScript's `\s` and `String.prototype.trim` treat as white space. */
  predicate IsSpace(c: char) {
    var n := c as int;
    (9 <= n <= 13) || n == 32 || n == 0xA0 || n == 0x1680 || (0x2000 <= n <= 0x200A)
    || n == 0x2028 || n == 0x2029 || n == 0x202F || n == 0x205F || n == 0x3000 || n == 0xFEFF
  }

  predicate AllSpace(s: string) {
    forall i :: 0 <= i < |s| ==> IsSpace(s[i])
  }

  function TrimStart(s: string): (r: string)
    ensures |r| <= |s| && r == s[|s| - |r|..]
    ensures r == [] || !IsSpace(r[0])
    ensures forall i :: 0 <= i < |s| - |r| ==> IsSpace(s[i])
  {
    if s != [] && IsSpace(s[0]) then
      var r := TrimStart(s[1..]);
      assert forall i :: 0 <= i < |s| - 1 - |r| ==> s[1..][i] == s[i + 1];
      r
    else s
  }

  function TrimEnd(s: string): (r: string)
    ensures |r| <= |s| && r == s[..|r|]
    ensures r == [] || !IsSpace(r[|r| - 1])
    ensures forall i :: |r| <= i < |s| ==> IsSpace(s[i])
  {
    if s != [] && IsSpace(s[|s| - 1]) then
      var r := TrimEnd(s[..|s| - 1]);
      assert s[..|s| - 1][..|r|] == s[..|r|];
      r
    else s
  }

  /** `s.trim()` */
  function Trim(s: string): string {
    TrimEnd(TrimStart(s))
  }

  /** A search term is blank exactly when it consists of white space only. */
  lemma TrimEmptyIffAllSpace(s: string)
    ensures Trim(s) == "" <==> AllSpace(s)
  {
    var a := TrimStart(s);
    if a != [] {
      assert !IsSpace(a[0]) && a[0] == s[|s| - |a|];
      assert a[..1] == TrimEnd(a)[..1];
    }
  }

  function LowerChar(c: char): char {
    if 'A' <= c <= 'Z' then (c as int + 32) as char else c
  }

  /** `s.toLowerCase()`, restricted to the ASCII letters. */
  function Lower(s: string): (r: string)
    ensures |r| == |s|
    ensures forall i :: 0 <= i < |s| ==> r[i] == LowerChar(s[i])
  {
    if s == [] then [] else [LowerChar(s[0])] + Lower(s[1..])
  }

  predicate StartsWith(s: string, p: string) {
    |p| <= |s| && s[..|p|] == p
  }

  /** `p` occurs in `s` at index `i`. */
  predicate OccursAt(s: string, p: string, i: int) {
    0 <= i && i + |p| <= |s| && s[i..i + |p|] == p
  }

  /** `h.includes(n)` */
  function Includes(h: string, n: string): (b: bool)
    ensures b <==> exists i :: OccursAt(h, n, i)
  {
    if StartsWith(h, n) then
      assert OccursAt(h, n, 0);
      true
    else if h == [] then
      false
    else
      var b := Includes(h[1..], n);
      forall i | OccursAt(h, n, i) ensures i > 0 && OccursAt(h[1..], n, i - 1) {
        assert h[1..][i - 1..i - 1 + |n|] == h[i..i + |n|];
      }
      forall i | OccursAt(h[1..], n, i) ensures OccursAt(h, n, i + 1) {
        assert h[i + 1..i + 1 + |n|] == h[1..][i..i + |n|];
      }
      b
  }

  /**
   * `s.replace(/p/g, r)` for a literal, non-empty pattern `p`: matches are
   * found left to right and do not overlap; replacement text is not rescanned.
   */
  function ReplaceAll(s: string, p: string, r: string): string
    requires p != []
    decreases |s|
  {
    if |s| < |p| then s
    else if s[..|p|] == p then r + ReplaceAll(s[|p|..], p, r)
    else [s[0]] + ReplaceAll(s[1..], p, r)
  }

  /** The leftmost occurrence of `p` in `s` (scanning from the start) is at `k`. */
  predicate FirstOccurrenceAt(s: string, p: string, k: int) {
    OccursAt(s, p, k) && forall i :: 0 <= i < k ==> !OccursAt(s, p, i)
  }

  /** Text without the pattern is returned unchanged. */
  lemma {:induction false} ReplaceAllAbsent(s: string, p: string, r: string)
    requires p != []
    requires forall i :: !OccursAt(s, p, i)
    ensures ReplaceAll(s, p, r) == s
    decreases |s|
  {
    if |s| >= |p| {
      assert !OccursAt(s, p, 0);
      forall i | OccursAt(s[1..], p, i) ensures OccursAt(s, p, i + 1) {
        assert s[i + 1..i + 1 + |p|] == s[1..][i..i + |p|];
      }
      ReplaceAllAbsent(s[1..], p, r);
    }
  }

  /** Before the first occurrence, a character that starts no match is copied and scanning moves on. */
  lemma ReplaceAllCons(s: string, p: string, r: string, k: nat, tail: string)
    requires p != [] && 0 < k <= |s| && k + |p| <= |s|
    requires !OccursAt(s, p, 0)
    requires ReplaceAll(s[1..], p, r) == s[1..][..k - 1] + r + tail
    ensures ReplaceAll(s, p, r) == s[..k] + r + tail
  {
    assert ReplaceAll(s, p, r) == [s[0]] + ReplaceAll(s[1..], p, r);
    assert [s[0]] + (s[1..][..k - 1] + r + tail) == ([s[0]] + s[1..][..k - 1]) + r + tail;
    assert [s[0]] + s[1..][..k - 1] == s[..k];
  }

  /** An occurrence after the first character is an occurrence in the rest. */
  lemma OccursShift(s: string, p: string, i: int)
    requires s != [] && i >= 1
    ensures OccursAt(s, p, i) <==> OccursAt(s[1..], p, i - 1)
  {
    if i + |p| <= |s| {
      var here, there := s[i..i + |p|], s[1..][i - 1..i - 1 + |p|];
      forall j | 0 <= j < |p| ensures here[j] == there[j] {
        assert s[i + j] == s[1..][i - 1 + j];
      }
      assert here == there;
    }
  }

  /** A first occurrence past the start is the first occurrence in the rest, one place earlier. */
  lemma FirstOccurrenceShift(s: string, p: string, k: nat)
    requires FirstOccurrenceAt(s, p, k) && k > 0
    ensures !OccursAt(s, p, 0)
    ensures FirstOccurrenceAt(s[1..], p, k - 1)
  {
    forall i | 0 <= i < k - 1 ensures !OccursAt(s[1..], p, i) {
      OccursShift(s, p, i + 1);
    }
    OccursShift(s, p, k);
  }

  /**
   * The leftmost occurrence, at `k`, is replaced and scanning resumes right
   * after it: applied repeatedly, this is "every occurrence, not only the first".
   */
  lemma {:induction false} ReplaceAllAtFirst(s: string, p: string, k: nat, r: string)
    requires p != []
    requires FirstOccurrenceAt(s, p, k)
    ensures ReplaceAll(s, p, r) == s[..k] + r + ReplaceAll(s[k + |p|..], p, r)
    decreases k
  {
    if k == 0 {
      assert s[..|p|] == p;
    } else {
      FirstOccurrenceShift(s, p, k);
      ReplaceAllAtFirst(s[1..], p, k - 1, r);
      assert s[1..][k - 1 + |p|..] == s[k + |p|..];
      ReplaceAllCons(s, p, r, k, ReplaceAll(s[k + |p|..], p, r));
    }
  }

  /** Replacing a pattern by itself changes nothing. */
  lemma {:induction false} ReplaceAllSelf(s: string, p: string)
    requires p != []
    ensures ReplaceAll(s, p, p) == s
    decreases |s|
  {
    if |s| >= |p| {
      if s[..|p|] == p {
        ReplaceAllSelf(s[|p|..], p);
        assert s == s[..|p|] + s[|p|..];
      } else {
        ReplaceAllSelf(s[1..], p);
        assert s == [s[0]] + s[1..];
      }
    }
  }

  /** The pieces put back together with `sep` between each two: the inverse of `s.split(sep)`. */
  function Join(pieces: seq<string>, sep: string): string
    decreases |pieces|
  {
    if pieces == [] then []
    else if |pieces| == 1 then pieces[0]
    else pieces[0] + sep + Join(pieces[1..], sep)
  }

  /** An occurrence that ends before `|a|` characters of `a + b` lies within `a`. */
  lemma OccursInPrefix(a: string, b: string, p: string, i: int)
    requires 0 <= i && i + |p| <= |a|
    ensures OccursAt(a + b, p, i) <==> OccursAt(a, p, i)
  {
    assert (a + b)[i..i + |p|] == a[i..i + |p|];
  }

  /**
   * `x` followed by `p` first matches `p` where `p` begins: `x` holds no
   * occurrence, and no occurrence starts in `x` and runs into `p`.
   */
  predicate Separated(x: string, p: string) {
    FirstOccurrenceAt(x + p, p, |x|)
  }

  /** A text followed by a pattern it is separated from holds no occurrence of it. */
  lemma SeparatedAbsent(x: string, p: string)
    requires p != [] && Separated(x, p)
    ensures forall i :: !OccursAt(x, p, i)
  {
    forall i | OccursAt(x, p, i) ensures false {
      OccursInPrefix(x, p, p, i);
    }
  }

  /**
   * `s.replace(/p/g, r)` on pieces joined by `p` joins them by `r`
   * instead: every occurrence is replaced, not only the first.
   */
  lemma {:induction false} ReplaceAllJoin(pieces: seq<string>, p: string, r: string)
    requires p != []
    requires forall i :: 0 <= i < |pieces| ==> Separated(pieces[i], p)
    ensures ReplaceAll(Join(pieces, p), p, r) == Join(pieces, r)
    decreases |pieces|
  {
    if pieces == [] {
    } else if |pieces| == 1 {
      SeparatedAbsent(pieces[0], p);
      ReplaceAllAbsent(pieces[0], p, r);
    } else {
      var x := pieces[0];
      var rest := Join(pieces[1..], p);
      var s := x + p + rest;
      assert s == (x + p) + rest;
      assert Separated(x, p);
      forall i | 0 <= i < |x| ensures !OccursAt(s, p, i) {
        OccursInPrefix(x + p, rest, p, i);
      }
      OccursInPrefix(x + p, rest, p, |x|);
      assert FirstOccurrenceAt(s, p, |x|);
      ReplaceAllAtFirst(s, p, |x|, r);
      assert s[..|x|] == x && s[|x| + |p|..] == rest;
      ReplaceAllJoin(pieces[1..], p, r);
    }
  }

  /** Text without the pattern's first character holds no occurrence of it, so replacing it changes nothing. */
  lemma FirstCharAbsent(s: string, p: string, r: string)
    requires p != [] && p[0] !in s
    ensures forall i :: !OccursAt(s, p, i)
    ensures ReplaceAll(s, p, r) == s
  {
    forall i | 0 <= i && i + |p| <= |s| ensures !OccursAt(s, p, i) {
      assert s[i..i + |p|][0] == s[i];
    }
    ReplaceAllAbsent(s, p, r);
  }

  /** A character in none of the pieces and not in the separator is not in their join. */
  lemma {:induction false} JoinAvoids(pieces: seq<string>, sep: string, c: char)
    requires forall i :: 0 <= i < |pieces| ==> c !in pieces[i]
    requires c !in sep
    ensures c !in Join(pieces, sep)
    decreases |pieces|
  {
    if |pieces| > 1 {
      JoinAvoids(pieces[1..], sep, c);
    }
  }

  /** Text without the pattern's first character is separated from the pattern. */
  lemma SeparatedByFirst(x: string, p: string)
    requires p != [] && p[0] !in x
    ensures Separated(x, p)
  {
    var s := x + p;
    assert s[|x|..|x| + |p|] == p;
    forall i | 0 <= i < |x| ensures !OccursAt(s, p, i) {
      assert s[i] == x[i];
    }
  }

  /** `s.split(c)[0]`: the text before the first `c`, or all of `s`. */
  function Before(s: string, c: char): (r: string)
    ensures StartsWith(s, r)
    ensures c !in r
    ensures |r| < |s| ==> s[|r|] == c
  {
    if s == [] then []
    else if s[0] == c then []
    else [s[0]] + Before(s[1..], c)
  }

  function DigitChar(d: nat): char
    requires d < 10
  {
    ('0' as int + d) as char
  }

  /** `n.toString()` for a natural number. */
  function NatToString(n: nat): (r: string)
    ensures r != []
    ensures forall i :: 0 <= i < |r| ==> '0' <= r[i] <= '9'
  {
    if n < 10 then [DigitChar(n)] else NatToString(n / 10) + [DigitChar(n % 10)]
  }
}
