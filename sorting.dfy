/**
 * The pieces of Python's built-ins the query engine relies on for ranking:
 * `<` on `str` (lexicographic by code point), comparison of `(value, name)`
 * tuples, the stable `sorted(xs, key=..., reverse=...)`, and the prefix slice `xs[:n]`.
 */
module Sorting {

  /** Python's `a < b` on `str`: the first differing code point decides, and a proper prefix comes first. */
  predicate StrLess(a: string, b: string)
  {
    if |a| == 0 then |b| > 0
    else if |b| == 0 then false
    else a[0] < b[0] || (a[0] == b[0] && StrLess(a[1..], b[1..]))
  }

  lemma {:induction false} StrLessIrreflexive(a: string)
    ensures !StrLess(a, a)
  {
    if |a| > 0 {
      StrLessIrreflexive(a[1..]);
    }
  }

  lemma {:induction false} StrLessTransitive(a: string, b: string, c: string)
    requires StrLess(a, b) && StrLess(b, c)
    ensures StrLess(a, c)
  {
    if |a| > 0 && a[0] == b[0] && b[0] == c[0] {
      StrLessTransitive(a[1..], b[1..], c[1..]);
    }
  }

  lemma {:induction false} StrLessTotal(a: string, b: string)
    requires a != b
    ensures StrLess(a, b) || StrLess(b, a)
  {
    if |a| > 0 && |b| > 0 && a[0] == b[0] {
      assert a == [a[0]] + a[1..] && b == [b[0]] + b[1..];
      StrLessTotal(a[1..], b[1..]);
    }
  }

  /** The sort key `(value, name)` of a row; Python compares such tuples component by component. */
  datatype SortKey = SortKey(value: real, name: string)

  predicate KeyLess(a: SortKey, b: SortKey)
  {
    a.value < b.value || (a.value == b.value && StrLess(a.name, b.name))
  }

  lemma KeyLessIrreflexive(a: SortKey)
    ensures !KeyLess(a, a)
  {
    StrLessIrreflexive(a.name);
  }

  lemma KeyLessTransitive(a: SortKey, b: SortKey, c: SortKey)
    requires KeyLess(a, b) && KeyLess(b, c)
    ensures KeyLess(a, c)
  {
    if a.value == b.value == c.value {
      StrLessTransitive(a.name, b.name, c.name);
    }
  }

  lemma KeyLessTotal(a: SortKey, b: SortKey)
    requires a != b
    ensures KeyLess(a, b) || KeyLess(b, a)
  {
    if a.value == b.value {
      StrLessTotal(a.name, b.name);
    }
  }

  /** `x` must be placed before `y`: its key is smaller (ascending) or larger (`desc`, Python's `reverse=True`). */
  predicate Before<T>(key: T -> SortKey, desc: bool, x: T, y: T)
  {
    if desc then KeyLess(key(y), key(x)) else KeyLess(key(x), key(y))
  }

  lemma BeforeIrreflexive<T>(key: T -> SortKey, desc: bool, x: T)
    ensures !Before(key, desc, x, x)
  {
    KeyLessIrreflexive(key(x));
  }

  lemma BeforeTransitive<T>(key: T -> SortKey, desc: bool, x: T, y: T, z: T)
    requires Before(key, desc, x, y) && Before(key, desc, y, z)
    ensures Before(key, desc, x, z)
  {
    if desc {
      KeyLessTransitive(key(z), key(y), key(x));
    } else {
      KeyLessTransitive(key(x), key(y), key(z));
    }
  }

  lemma BeforeAsymmetric<T>(key: T -> SortKey, desc: bool, x: T, y: T)
    requires Before(key, desc, x, y)
    ensures !Before(key, desc, y, x)
  {
    if Before(key, desc, y, x) {
      BeforeTransitive(key, desc, x, y, x);
      BeforeIrreflexive(key, desc, x);
    }
  }

  /** Two elements are in order either way exactly when their keys are equal. */
  lemma BeforeTotal<T>(key: T -> SortKey, desc: bool, x: T, y: T)
    requires key(x) != key(y)
    ensures Before(key, desc, x, y) || Before(key, desc, y, x)
  {
    KeyLessTotal(key(x), key(y));
  }

  /** No later element must be placed before an earlier one. */
  predicate Sorted<T>(s: seq<T>, key: T -> SortKey, desc: bool)
  {
    forall i, j :: 0 <= i < j < |s| ==> !Before(key, desc, s[j], s[i])
  }

  /** The elements of `s` whose key is `k`, in their order in `s`. */
  function WithKey<T>(s: seq<T>, key: T -> SortKey, k: SortKey): seq<T>
  {
    if |s| == 0 then []
    else (if key(s[0]) == k then [s[0]] else []) + WithKey(s[1..], key, k)
  }

  lemma {:induction false} WithKeyAppend<T>(a: seq<T>, b: seq<T>, key: T -> SortKey, k: SortKey)
    ensures WithKey(a + b, key, k) == WithKey(a, key, k) + WithKey(b, key, k)
  {
    if |a| > 0 {
      assert (a + b)[1..] == a[1..] + b;
      WithKeyAppend(a[1..], b, key, k);
    } else {
      assert a + b == b;
    }
  }

  /** `x` goes in front of the first element it must precede, so after every element with an equal key. */
  function Insert<T>(x: T, s: seq<T>, key: T -> SortKey, desc: bool): seq<T>
  {
    if |s| == 0 then [x]
    else if Before(key, desc, x, s[0]) then [x] + s
    else [s[0]] + Insert(x, s[1..], key, desc)
  }

  /** Python's `sorted(xs, key=key, reverse=desc)`, built by inserting each element in turn (the sort is stable). */
  function SortBy<T>(xs: seq<T>, key: T -> SortKey, desc: bool): seq<T>
  {
    if |xs| == 0 then []
    else Insert(xs[|xs| - 1], SortBy(xs[..|xs| - 1], key, desc), key, desc)
  }

  /** In a sorted sequence every element that the first one must precede is preceded by `x` too. */
  lemma SortedTail<T>(x: T, s: seq<T>, key: T -> SortKey, desc: bool)
    requires Sorted(s, key, desc) && |s| > 0 && Before(key, desc, x, s[0])
    ensures forall j :: 0 <= j < |s| ==> Before(key, desc, x, s[j])
  {
    forall j | 0 < j < |s|
      ensures Before(key, desc, x, s[j])
    {
      if key(s[0]) == key(s[j]) {
      } else {
        BeforeTotal(key, desc, s[0], s[j]);
        BeforeTransitive(key, desc, x, s[0], s[j]);
      }
    }
  }

  lemma {:induction false} InsertPermutes<T>(x: T, s: seq<T>, key: T -> SortKey, desc: bool)
    ensures multiset(Insert(x, s, key, desc)) == multiset(s) + multiset{x}
  {
    if |s| > 0 && !Before(key, desc, x, s[0]) {
      InsertPermutes(x, s[1..], key, desc);
      assert s == [s[0]] + s[1..];
    }
  }

  lemma {:induction false} InsertSorted<T>(x: T, s: seq<T>, key: T -> SortKey, desc: bool)
    requires Sorted(s, key, desc)
    ensures Sorted(Insert(x, s, key, desc), key, desc)
  {
    var r := Insert(x, s, key, desc);
    if |s| == 0 {
    } else if Before(key, desc, x, s[0]) {
      SortedTail(x, s, key, desc);
      forall j | 0 <= j < |s|
        ensures !Before(key, desc, s[j], x)
      {
        BeforeAsymmetric(key, desc, x, s[j]);
      }
      assert r == [x] + s;
    } else {
      var t := Insert(x, s[1..], key, desc);
      InsertSorted(x, s[1..], key, desc);
      assert r == [s[0]] + t;
      forall j | 0 <= j < |t|
        ensures !Before(key, desc, t[j], s[0])
      {
        InsertBehindHead(x, s, key, desc, t[j]);
      }
      forall i, j | 0 <= i < j < |r|
        ensures !Before(key, desc, r[j], r[i])
      {
        assert r[j] == t[j - 1];
        if i > 0 {
          assert r[i] == t[i - 1];
        }
      }
    }
  }

  /** When `x` does not go in front of a sorted `s`, nothing inserted behind the head must precede the head. */
  lemma InsertBehindHead<T>(x: T, s: seq<T>, key: T -> SortKey, desc: bool, y: T)
    requires Sorted(s, key, desc) && |s| > 0 && !Before(key, desc, x, s[0])
    requires y in Insert(x, s[1..], key, desc)
    ensures !Before(key, desc, y, s[0])
  {
    InsertPermutes(x, s[1..], key, desc);
    assert y in multiset(Insert(x, s[1..], key, desc));
    if y != x {
      assert y in multiset(s[1..]);
      var m :| 0 <= m < |s[1..]| && s[1..][m] == y;
      assert s[m + 1] == y;
    }
  }

  lemma {:induction false} InsertWithKey<T>(x: T, s: seq<T>, key: T -> SortKey, desc: bool, k: SortKey)
    requires Sorted(s, key, desc)
    ensures WithKey(Insert(x, s, key, desc), key, k) == WithKey(s, key, k) + (if key(x) == k then [x] else [])
  {
    var r := Insert(x, s, key, desc);
    if |s| == 0 {
      assert r[1..] == [];
    } else if Before(key, desc, x, s[0]) {
      assert r[1..] == s;
      if key(x) == k {
        SortedTail(x, s, key, desc);
        WithKeyNone(s, key, k, x, desc);
      }
    } else {
      var head := if key(s[0]) == k then [s[0]] else [];
      InsertWithKey(x, s[1..], key, desc, k);
      assert r[0] == s[0] && r[1..] == Insert(x, s[1..], key, desc);
      assert WithKey(r, key, k) == head + WithKey(r[1..], key, k);
      assert WithKey(s, key, k) == head + WithKey(s[1..], key, k);
    }
  }

  /** No element of a sorted `s` that `x` must precede has `x`'s key. */
  lemma {:induction false} WithKeyNone<T>(s: seq<T>, key: T -> SortKey, k: SortKey, x: T, desc: bool)
    requires key(x) == k
    requires forall j :: 0 <= j < |s| ==> Before(key, desc, x, s[j])
    ensures WithKey(s, key, k) == []
  {
    if |s| > 0 {
      BeforeIrreflexive(key, desc, x);
      WithKeyNone(s[1..], key, k, x, desc);
    }
  }

  /** `sorted` returns a permutation of its input. */
  lemma {:induction false} SortByPermutes<T>(xs: seq<T>, key: T -> SortKey, desc: bool)
    ensures multiset(SortBy(xs, key, desc)) == multiset(xs)
  {
    if |xs| > 0 {
      SortByPermutes(xs[..|xs| - 1], key, desc);
      InsertPermutes(xs[|xs| - 1], SortBy(xs[..|xs| - 1], key, desc), key, desc);
      assert xs == xs[..|xs| - 1] + [xs[|xs| - 1]];
    }
  }

  /** `sorted` returns its input in order. */
  lemma {:induction false} SortBySorted<T>(xs: seq<T>, key: T -> SortKey, desc: bool)
    ensures Sorted(SortBy(xs, key, desc), key, desc)
  {
    if |xs| > 0 {
      SortBySorted(xs[..|xs| - 1], key, desc);
      InsertSorted(xs[|xs| - 1], SortBy(xs[..|xs| - 1], key, desc), key, desc);
    }
  }

  /** `sorted` is stable: the elements sharing a key keep their relative input order. */
  lemma {:induction false} SortByStable<T>(xs: seq<T>, key: T -> SortKey, desc: bool, k: SortKey)
    ensures WithKey(SortBy(xs, key, desc), key, k) == WithKey(xs, key, k)
  {
    if |xs| > 0 {
      var init, last := xs[..|xs| - 1], xs[|xs| - 1];
      SortByStable(init, key, desc, k);
      SortBySorted(init, key, desc);
      InsertWithKey(last, SortBy(init, key, desc), key, desc, k);
      assert xs == init + [last];
      WithKeyAppend(init, [last], key, k);
      assert [last][1..] == [];
    }
  }

  /** Sorting loses no element. */
  lemma SortByKeepsMembers<T>(xs: seq<T>, key: T -> SortKey, desc: bool, x: T)
    requires x in xs
    ensures x in SortBy(xs, key, desc)
  {
    SortByPermutes(xs, key, desc);
    assert x in multiset(xs);
  }

  lemma SortByLength<T>(xs: seq<T>, key: T -> SortKey, desc: bool)
    ensures |SortBy(xs, key, desc)| == |xs|
  {
    SortByPermutes(xs, key, desc);
    assert |multiset(SortBy(xs, key, desc))| == |multiset(xs)|;
  }

  function Min(a: int, b: int): int { if a <= b then a else b }

  /** Python's prefix slice `s[:n]`: a negative `n` drops the last `-n` elements. */
  function TakePrefix<T>(s: seq<T>, n: int): (r: seq<T>)
    ensures |r| == (if n >= 0 then Min(n, |s|) else if |s| + n >= 0 then |s| + n else 0)
    ensures r == s[..|r|]
  {
    if n >= 0 then (if n <= |s| then s[..n] else s)
    else if |s| + n >= 0 then s[..|s| + n]
    else []
  }
}
