/** Shared vocabulary: optional values, bytes, .NET string predicates and
    a few sequence helpers used by every component of the model. */
module Common {

  datatype Option<T> = None | Some(value: T)

  /** An operation that either produces a value or fails the way the source
      throws (the message names the exception). */
  datatype Result<T> = Ok(value: T) | Err(error: string)

  /** A System.Guid; Guid.Empty is Guid(0). */
  datatype Guid = Guid(bits: nat)

  const EmptyGuid: Guid := Guid(0)

  /** An unsigned 8-bit value, as in a C# byte[]. */
  type byte = b: int | 0 <= b < 256

  /** The characters for which .NET's char.IsWhiteSpace holds (Unicode
      categories Zs, Zl, Zp plus U+0009..U+000D, U+0085 and U+00A0). */
  predicate IsWhiteSpace(c: char)
  {
    || c == ' ' || ('\t' <= c <= '\r')
    || c == '\U{0085}' || c == '\U{00A0}' || c == '\U{1680}'
    || ('\U{2000}' <= c <= '\U{200A}')
    || c == '\U{2028}' || c == '\U{2029}' || c == '\U{202F}'
    || c == '\U{205F}' || c == '\U{3000}'
  }

  /** string.IsNullOrWhiteSpace for a non-null string. */
  predicate IsBlank(s: string)
  {
    forall i :: 0 <= i < |s| ==> IsWhiteSpace(s[i])
  }

  /** string.IsNullOrWhiteSpace for a nullable string. */
  predicate IsNullOrBlank(s: Option<string>)
  {
    s.None? || IsBlank(s.value)
  }

  /** The index of the first character at or after i that is not white space, or |s|. */
  function SkipWhite(s: string, i: nat): (r: nat)
    requires i <= |s|
    ensures i <= r <= |s|
    ensures forall k :: i <= k < r ==> IsWhiteSpace(s[k])
    ensures r < |s| ==> !IsWhiteSpace(s[r])
    decreases |s| - i
  {
    if i == |s| || !IsWhiteSpace(s[i]) then i else SkipWhite(s, i + 1)
  }

  /** The end of s[lo..j] once trailing white space is dropped. */
  function SkipWhiteBack(s: string, lo: nat, j: nat): (r: nat)
    requires lo <= j <= |s|
    ensures lo <= r <= j
    ensures forall k :: r <= k < j ==> IsWhiteSpace(s[k])
    ensures r > lo ==> !IsWhiteSpace(s[r - 1])
    decreases j
  {
    if j == lo || !IsWhiteSpace(s[j - 1]) then j else SkipWhiteBack(s, lo, j - 1)
  }

  /** The trimmed window is empty exactly when every character is white
      space, and otherwise starts and ends on a non-white character. */
  lemma TrimWindow(s: string, a: nat, b: nat)
    requires a == SkipWhite(s, 0) && b == SkipWhiteBack(s, a, |s|)
    ensures a == b <==> IsBlank(s)
    ensures a < b ==> !IsWhiteSpace(s[a]) && !IsWhiteSpace(s[b - 1])
  {
    if a < |s| {
      assert b > a;
    }
  }

  /** string.Trim(): drops leading and trailing white space. */
  function Trim(s: string): (r: string)
    ensures r == s[SkipWhite(s, 0)..SkipWhiteBack(s, SkipWhite(s, 0), |s|)]
    ensures r == [] || (!IsWhiteSpace(r[0]) && !IsWhiteSpace(r[|r| - 1]))
    ensures r == [] <==> IsBlank(s)
  {
    var a := SkipWhite(s, 0);
    var b := SkipWhiteBack(s, a, |s|);
    TrimWindow(s, a, b);
    assert |s[a..b]| == b - a;
    s[a..b]
  }

  /** Upper-cases an ASCII letter; every other character is left as it is. */
  function FoldChar(c: char): char
  {
    if 'a' <= c <= 'z' then (c as int - 32) as char else c
  }

  /** The key under which StringComparer.OrdinalIgnoreCase identifies strings
      (ASCII letters only, see README). */
  function Fold(s: string): (r: string)
    ensures |r| == |s|
    ensures forall i :: 0 <= i < |s| ==> r[i] == FoldChar(s[i])
  {
    seq(|s|, i requires 0 <= i < |s| => FoldChar(s[i]))
  }

  /** string.Equals(a, b, StringComparison.OrdinalIgnoreCase). */
  predicate EqualsIgnoreCase(a: string, b: string)
  {
    Fold(a) == Fold(b)
  }

  lemma EqualsIgnoreCaseIsEquivalence(a: string, b: string, c: string)
    ensures EqualsIgnoreCase(a, a)
    ensures EqualsIgnoreCase(a, b) ==> EqualsIgnoreCase(b, a)
    ensures EqualsIgnoreCase(a, b) && EqualsIgnoreCase(b, c) ==> EqualsIgnoreCase(a, c)
  {
  }

  predicate StartsWithIgnoreCase(s: string, prefix: string)
  {
    |prefix| <= |s| && EqualsIgnoreCase(s[..|prefix|], prefix)
  }

  /** string.IndexOf(char): the first index of c, or -1. */
  function IndexOf(s: string, c: char): (r: int)
    ensures -1 <= r < |s|
    ensures r == -1 <==> c !in s
    ensures r >= 0 ==> s[r] == c && c !in s[..r]
  {
    if s == [] then -1
    else if s[0] == c then 0
    else
      var k := IndexOf(s[1..], c);
      if k == -1 then -1
      else
        assert s[..k + 1] == [s[0]] + s[1..][..k];
        k + 1
  }

  function Min(a: int, b: int): int { if a <= b then a else b }
  function Max(a: int, b: int): int { if a >= b then a else b }

  /** The elements of s that satisfy p, in their original order. */
  function Filter<T(==)>(s: seq<T>, p: T -> bool): (r: seq<T>)
    ensures |r| <= |s|
    ensures forall i :: 0 <= i < |r| ==> r[i] in s && p(r[i])
    ensures forall i :: 0 <= i < |s| && p(s[i]) ==> s[i] in r
    ensures |r| == |s| <==> forall i :: 0 <= i < |s| ==> p(s[i])
    decreases |s|
  {
    if s == [] then []
    else
      var rest := Filter(s[..|s| - 1], p);
      assert s == s[..|s| - 1] + [s[|s| - 1]];
      if p(s[|s| - 1]) then rest + [s[|s| - 1]] else rest
  }

  /** The number of elements of s that satisfy p. */
  function Count<T>(s: seq<T>, p: T -> bool): (n: nat)
    ensures n <= |s|
    decreases |s|
  {
    if s == [] then 0
    else Count(s[..|s| - 1], p) + (if p(s[|s| - 1]) then 1 else 0)
  }

  /** Keeping the elements that fail p (those satisfying q) removes exactly Count(s, p) of them. */
  lemma {:induction false} FilterComplementSize<T>(s: seq<T>, p: T -> bool, q: T -> bool)
    requires forall x :: q(x) == !p(x)
    ensures |Filter(s, q)| == |s| - Count(s, p)
    decreases |s|
  {
    if s != [] {
      FilterComplementSize(s[..|s| - 1], p, q);
    }
  }

  /** Filter keeps elements in their relative order, so a relation that holds
      between every earlier and later element of s still holds in the result. */
  lemma {:induction false} FilterKeepsPairwise<T>(s: seq<T>, p: T -> bool, rel: (T, T) -> bool)
    requires forall i, j :: 0 <= i < j < |s| ==> rel(s[i], s[j])
    ensures forall i, j :: 0 <= i < j < |Filter(s, p)| ==> rel(Filter(s, p)[i], Filter(s, p)[j])
    decreases |s|
  {
    if s != [] {
      var init := s[..|s| - 1];
      var last := s[|s| - 1];
      FilterKeepsPairwise(init, p, rel);
      var prev := Filter(init, p);
      forall i | 0 <= i < |prev|
        ensures rel(prev[i], last)
      {
        var k :| 0 <= k < |init| && init[k] == prev[i];
        assert s[k] == init[k];
      }
      if p(last) {
        var r := prev + [last];
        assert Filter(s, p) == r;
        forall i, j | 0 <= i < j < |r|
          ensures rel(r[i], r[j])
        {
          if j == |prev| {
            assert r[i] == prev[i];
          } else {
            assert r[i] == prev[i] && r[j] == prev[j];
          }
        }
      }
    }
  }

  /** A stable ordering of s by ascending key (LINQ OrderBy). */
  predicate SortedBy<T>(s: seq<T>, key: T -> int)
  {
    forall i, j :: 0 <= i < j < |s| ==> key(s[i]) <= key(s[j])
  }

  function InsertBy<T(==)>(x: T, s: seq<T>, key: T -> int): (r: seq<T>)
    requires SortedBy(s, key)
    ensures SortedBy(r, key)
    ensures multiset(r) == multiset(s) + multiset{x}
    ensures |r| == |s| + 1
    ensures r[0] == x || (s != [] && r[0] == s[0])
    decreases |s|
  {
    if s == [] then [x]
    else if key(x) <= key(s[0]) then
      PrependSorted(x, s, key);
      [x] + s
    else
      var rest := InsertBy(x, s[1..], key);
      InsertAfterHead(x, s, rest, key);
      [s[0]] + rest
  }

  /** Putting the head back in front of the insertion into the tail keeps
      the order and the elements. */
  lemma InsertAfterHead<T>(x: T, s: seq<T>, rest: seq<T>, key: T -> int)
    requires s != [] && SortedBy(s, key) && key(s[0]) < key(x)
    requires SortedBy(rest, key) && multiset(rest) == multiset(s[1..]) + multiset{x}
    requires rest != [] && (rest[0] == x || (|s| > 1 && rest[0] == s[1]))
    ensures SortedBy([s[0]] + rest, key)
    ensures multiset([s[0]] + rest) == multiset(s) + multiset{x}
  {
    assert s == [s[0]] + s[1..];
    PrependSorted(s[0], rest, key);
  }

  /** An element no larger than the head of a sorted sequence can go in front. */
  lemma PrependSorted<T>(h: T, r: seq<T>, key: T -> int)
    requires SortedBy(r, key)
    requires r != [] ==> key(h) <= key(r[0])
    ensures SortedBy([h] + r, key)
  {
    var t := [h] + r;
    forall i, j | 0 <= i < j < |t|
      ensures key(t[i]) <= key(t[j])
    {
      if i == 0 {
        assert t[j] == r[j - 1];
      } else {
        assert t[i] == r[i - 1] && t[j] == r[j - 1];
      }
    }
  }

  /** LINQ OrderBy(key): sorted by key, a permutation of the input; equal keys
      keep their input order because each element is inserted before the
      first element whose key is not smaller. */
  function SortBy<T(==)>(s: seq<T>, key: T -> int): (r: seq<T>)
    ensures SortedBy(r, key)
    ensures multiset(r) == multiset(s)
    ensures |r| == |s|
    decreases |s|
  {
    if s == [] then []
    else
      assert s == [s[0]] + s[1..];
      InsertBy(s[0], SortBy(s[1..], key), key)
  }

  /** The elements of s whose key is v, in their order in s. */
  function WithKey<T>(s: seq<T>, key: T -> int, v: int): seq<T>
    decreases |s|
  {
    if s == [] then []
    else (if key(s[0]) == v then [s[0]] else []) + WithKey(s[1..], key, v)
  }

  /** Inserting x puts it in front of the elements already there with its key. */
  lemma {:induction false} InsertByWithKey<T>(x: T, s: seq<T>, key: T -> int, v: int)
    requires SortedBy(s, key)
    ensures WithKey(InsertBy(x, s, key), key, v) == (if key(x) == v then [x] else []) + WithKey(s, key, v)
    decreases |s|
  {
    var xs: seq<T> := if key(x) == v then [x] else [];
    if s == [] {
      assert InsertBy(x, s, key) == [x];
      assert WithKey([x], key, v) == xs + WithKey([x][1..], key, v);
    } else if key(x) <= key(s[0]) {
      var r := [x] + s;
      assert InsertBy(x, s, key) == r;
      assert r[0] == x && r[1..] == s;
      assert WithKey(r, key, v) == xs + WithKey(s, key, v);
    } else {
      InsertByWithKey(x, s[1..], key, v);
      WithKeyAfterHead(x, s, InsertBy(x, s[1..], key), key, v);
    }
  }

  /** The step of InsertByWithKey where x goes behind the head of s. */
  lemma WithKeyAfterHead<T>(x: T, s: seq<T>, rest: seq<T>, key: T -> int, v: int)
    requires s != [] && key(s[0]) < key(x)
    requires WithKey(rest, key, v) == (if key(x) == v then [x] else []) + WithKey(s[1..], key, v)
    ensures WithKey([s[0]] + rest, key, v) == (if key(x) == v then [x] else []) + WithKey(s, key, v)
  {
    var xs: seq<T> := if key(x) == v then [x] else [];
    var hs: seq<T> := if key(s[0]) == v then [s[0]] else [];
    var r := [s[0]] + rest;
    assert r[0] == s[0] && r[1..] == rest;
    assert WithKey(r, key, v) == hs + WithKey(rest, key, v);
    assert WithKey(s, key, v) == hs + WithKey(s[1..], key, v);
    // x and the head of s never share a key, so one of xs and hs is empty
    assert xs == [] || hs == [];
    if xs == [] {
      assert WithKey(r, key, v) == hs + WithKey(s[1..], key, v);
    } else {
      assert WithKey(r, key, v) == xs + WithKey(s[1..], key, v);
    }
  }

  /** SortBy is stable: for every key, the elements with that key come out
      in the order they went in. */
  lemma {:induction false} SortByStable<T>(s: seq<T>, key: T -> int, v: int)
    ensures WithKey(SortBy(s, key), key, v) == WithKey(s, key, v)
    decreases |s|
  {
    if s != [] {
      SortByStable(s[1..], key, v);
      InsertByWithKey(s[0], SortBy(s[1..], key), key, v);
    }
  }

  /** Take(n): the first min(n, |s|) elements. */
  function Take<T>(s: seq<T>, n: nat): (r: seq<T>)
    ensures |r| == Min(n, |s|)
    ensures r == s[..|r|]
  {
    if |s| <= n then s else s[..n]
  }

  /** a is a subsequence of b: it can be obtained by deleting elements of b. */
  predicate IsSubsequence<T(==)>(a: seq<T>, b: seq<T>)
    decreases |b|
  {
    if a == [] then true
    else if b == [] then false
    else if a[|a| - 1] == b[|b| - 1] then IsSubsequence(a[..|a| - 1], b[..|b| - 1])
    else IsSubsequence(a, b[..|b| - 1])
  }
}
