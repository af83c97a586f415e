/** Sequence operations the scripts perform on their arrays: `filter`,
    `findIndex` followed by `splice(idx, 1)`, `slice(0, n)`, `reverse`,
    `[...new Set(s)]`, and the (stable) `sort` by a numeric key. */
module Seqs {
  import opened Wrappers

  /** `s.filter(p)` */
  function Filter<T(==,!new)>(s: seq<T>, p: T -> bool): (r: seq<T>)
    ensures |r| <= |s|
    ensures forall i :: 0 <= i < |r| ==> p(r[i])
    ensures forall x :: x in r <==> x in s && p(x)
  {
    if |s| == 0 then [] else (if p(s[0]) then [s[0]] else []) + Filter(s[1..], p)
  }

  /** Filtering twice by the same test is filtering once. */
  lemma {:induction false} FilterIdempotent<T(!new)>(s: seq<T>, p: T -> bool)
    ensures Filter(Filter(s, p), p) == Filter(s, p)
    decreases |s|
  {
    if |s| > 0 {
      FilterIdempotent(s[1..], p);
      var rest := Filter(s[1..], p);
      var t := Filter(s, p);
      if p(s[0]) {
        assert t == [s[0]] + rest;
        assert t[0] == s[0] && t[1..] == rest;
        assert Filter(t, p) == [t[0]] + Filter(t[1..], p);
      } else {
        assert t == rest;
      }
    }
  }

  /** Filtering keeps every element satisfying `p` as often as it occurs,
      and drops the others entirely. */
  lemma {:induction false} FilterMultiset<T(!new)>(s: seq<T>, p: T -> bool)
    ensures forall x :: multiset(Filter(s, p))[x] == if p(x) then multiset(s)[x] else 0
    decreases |s|
  {
    if |s| > 0 {
      FilterMultiset(s[1..], p);
      assert s == [s[0]] + s[1..];
    }
  }

  /** Filtering distributes over concatenation: the kept elements keep their
      relative order. */
  lemma {:induction false} FilterConcat<T(!new)>(a: seq<T>, b: seq<T>, p: T -> bool)
    ensures Filter(a + b, p) == Filter(a, p) + Filter(b, p)
    decreases |a|
  {
    if |a| == 0 {
      assert a + b == b;
    } else {
      assert (a + b)[0] == a[0];
      assert (a + b)[1..] == a[1..] + b;
      FilterConcat(a[1..], b, p);
    }
  }

  /** Filtering keeps any pairwise order the list had: if every element
      stands in `before` to every later one, so do the kept ones. */
  lemma {:induction false} FilterKeepsOrder<T(!new)>(s: seq<T>, p: T -> bool, before: (T, T) -> bool)
    requires forall i, j :: 0 <= i < j < |s| ==> before(s[i], s[j])
    ensures forall i, j :: 0 <= i < j < |Filter(s, p)| ==> before(Filter(s, p)[i], Filter(s, p)[j])
    decreases |s|
  {
    if |s| > 0 {
      var t := Filter(s[1..], p);
      FilterKeepsOrder(s[1..], p, before);
      forall j | 0 <= j < |t|
        ensures before(s[0], t[j])
      {
        assert t[j] in s[1..];
        var k :| 0 <= k < |s[1..]| && s[1..][k] == t[j];
        assert s[k + 1] == t[j];
      }
      var r := Filter(s, p);
      if p(s[0]) {
        assert r == [s[0]] + t;
        forall i, j | 0 <= i < j < |r|
          ensures before(r[i], r[j])
        {
          if i == 0 {
            assert r[j] == t[j - 1];
            assert before(s[0], t[j - 1]);
          } else {
            assert r[i] == t[i - 1] && r[j] == t[j - 1];
            assert before(t[i - 1], t[j - 1]);
          }
        }
      } else {
        assert r == t;
      }
    }
  }

  /** `s.findIndex(p)`, with None for -1. */
  function FindFirst<T>(s: seq<T>, p: T -> bool): (r: Option<nat>)
    ensures r.None? <==> forall i :: 0 <= i < |s| ==> !p(s[i])
    ensures r.Some? ==> r.value < |s| && p(s[r.value])
    ensures r.Some? ==> forall j :: 0 <= j < r.value ==> !p(s[j])
  {
    if |s| == 0 then None
    else if p(s[0]) then Some(0)
    else match FindFirst(s[1..], p)
      case None => None
      case Some(i) => Some(i + 1)
  }

  /** `t` is `s` without its element `i`, the first one satisfying `p`. */
  ghost predicate FirstMatchRemoved<T>(s: seq<T>, p: T -> bool, i: nat, t: seq<T>) {
    && i < |s|
    && p(s[i])
    && (forall j :: 0 <= j < i ==> !p(s[j]))
    && t == s[..i] + s[i + 1..]
  }

  /** `idx = s.findIndex(p); if (idx !== -1) s.splice(idx, 1)`: None when
      nothing matches (the callers then save nothing). */
  function RemoveFirst<T>(s: seq<T>, p: T -> bool): (r: Option<seq<T>>)
    ensures r.None? <==> forall i :: 0 <= i < |s| ==> !p(s[i])
    ensures r.Some? ==> |r.value| == |s| - 1 && exists i :: FirstMatchRemoved(s, p, i, r.value)
  {
    match FindFirst(s, p)
    case None => None
    case Some(i) =>
      assert FirstMatchRemoved(s, p, i, s[..i] + s[i + 1..]);
      Some(s[..i] + s[i + 1..])
  }

  /** Removing the first match takes exactly one matching element out of the
      multiset and nothing else. */
  lemma RemoveFirstMultiset<T>(s: seq<T>, p: T -> bool)
    requires RemoveFirst(s, p).Some?
    ensures exists i :: 0 <= i < |s| && p(s[i])
                        && multiset(RemoveFirst(s, p).value) + multiset{s[i]} == multiset(s)
  {
    var i: nat :| FirstMatchRemoved(s, p, i, RemoveFirst(s, p).value);
    assert s == s[..i] + [s[i]] + s[i + 1..];
  }

  /** `s.slice(0, n)` */
  function Take<T>(s: seq<T>, n: nat): (r: seq<T>)
    ensures |r| == if n < |s| then n else |s|
    ensures forall i :: 0 <= i < |r| ==> r[i] == s[i]
  {
    if n < |s| then s[..n] else s
  }

  /** `s.slice().reverse()` */
  function Reverse<T>(s: seq<T>): (r: seq<T>)
    ensures |r| == |s|
    ensures forall i :: 0 <= i < |s| ==> r[i] == s[|s| - 1 - i]
  {
    if |s| == 0 then [] else Reverse(s[1..]) + [s[0]]
  }

  /** Reversing a list with one element appended puts that element first. */
  lemma {:induction false} ReverseSnoc<T>(s: seq<T>, x: T)
    ensures Reverse(s + [x]) == [x] + Reverse(s)
    decreases |s|
  {
    if |s| > 0 {
      assert (s + [x])[1..] == s[1..] + [x];
      ReverseSnoc(s[1..], x);
    } else {
      assert s + [x] == [x];
    }
  }

  lemma ReverseInvolutive<T>(s: seq<T>)
    ensures Reverse(Reverse(s)) == s
  {
  }

  predicate Distinct<T(==)>(s: seq<T>) {
    forall i, j :: 0 <= i < j < |s| ==> s[i] != s[j]
  }

  /** `s.indexOf(x)` for an element that is present. */
  function FirstIndex<T(==)>(s: seq<T>, x: T): (i: nat)
    requires x in s
    ensures i < |s| && s[i] == x
    ensures forall j :: 0 <= j < i ==> s[j] != x
  {
    if s[0] == x then 0 else 1 + FirstIndex(s[1..], x)
  }

  lemma {:induction false} FirstIndexPrefix<T>(s: seq<T>, n: nat, x: T)
    requires n <= |s| && x in s[..n]
    ensures FirstIndex(s, x) == FirstIndex(s[..n], x)
    decreases n
  {
    assert s[..n][0] == s[0];
    if s[0] != x {
      assert s[..n][1..] == s[1..][..n - 1];
      FirstIndexPrefix(s[1..], n - 1, x);
    }
  }

  /** `[...new Set(s)]`: every element once, in order of first occurrence. */
  function Dedup<T(==,!new)>(s: seq<T>): (r: seq<T>)
    ensures Distinct(r)
    ensures forall x :: x in r <==> x in s
    ensures forall i, j :: 0 <= i < j < |r| ==> FirstIndex(s, r[i]) < FirstIndex(s, r[j])
  {
    if |s| == 0 then []
    else
      var p := s[..|s| - 1];
      var last := s[|s| - 1];
      var d := Dedup(p);
      assert s == p + [last];
      assert forall x :: x in d ==> FirstIndex(s, x) == FirstIndex(p, x) by {
        forall x | x in d {
          FirstIndexPrefix(s, |s| - 1, x);
        }
      }
      if last in d then d
      else
        assert FirstIndex(s, last) == |s| - 1;
        d + [last]
  }

  predicate SortedBy<T>(s: seq<T>, key: T -> int) {
    forall i, j :: 0 <= i < j < |s| ==> key(s[i]) <= key(s[j])
  }

  /** The elements of `s` whose key is `k`, in order. */
  function WithKey<T>(s: seq<T>, key: T -> int, k: int): seq<T> {
    if |s| == 0 then [] else (if key(s[0]) == k then [s[0]] else []) + WithKey(s[1..], key, k)
  }

  /** Inserts `x` before the first element whose key is not smaller. */
  function Insert<T>(x: T, s: seq<T>, key: T -> int): (r: seq<T>)
    requires SortedBy(s, key)
    ensures SortedBy(r, key)
    ensures multiset(r) == multiset(s) + multiset{x}
  {
    if |s| == 0 then [x]
    else if key(x) <= key(s[0]) then [x] + s
    else
      var t := Insert(x, s[1..], key);
      assert forall i :: 0 <= i < |t| ==> key(s[0]) <= key(t[i]) by {
        forall i | 0 <= i < |t|
          ensures key(s[0]) <= key(t[i])
        {
          assert t[i] in multiset(t);
          assert t[i] == x || t[i] in multiset(s[1..]);
          if t[i] != x {
            var j :| 0 <= j < |s[1..]| && s[1..][j] == t[i];
            assert s[j + 1] == t[i];
          }
        }
      }
      assert s == [s[0]] + s[1..];
      [s[0]] + t
  }

  lemma {:induction false} InsertWithKey<T>(x: T, s: seq<T>, key: T -> int, k: int)
    requires SortedBy(s, key)
    ensures WithKey(Insert(x, s, key), key, k) == if key(x) == k then [x] + WithKey(s, key, k) else WithKey(s, key, k)
    decreases |s|
  {
    if |s| == 0 {
    } else if key(x) <= key(s[0]) {
      assert ([x] + s)[1..] == s;
    } else {
      var t := Insert(x, s[1..], key);
      assert ([s[0]] + t)[1..] == t;
      InsertWithKey(x, s[1..], key, k);
    }
  }

  /** Array.prototype.sort with the comparator `(a, b) => key(a) - key(b)`:
      ordered by key and a permutation; `SortByStable` adds that elements
      with equal keys keep their order. */
  function SortBy<T>(s: seq<T>, key: T -> int): (r: seq<T>)
    ensures SortedBy(r, key)
    ensures multiset(r) == multiset(s)
  {
    if |s| == 0 then []
    else
      assert s == [s[0]] + s[1..];
      Insert(s[0], SortBy(s[1..], key), key)
  }

  /** The sort is stable, as ECMAScript requires of Array.prototype.sort:
      for every key, the elements carrying it appear in their original order. */
  lemma {:induction false} SortByStable<T>(s: seq<T>, key: T -> int, k: int)
    ensures WithKey(SortBy(s, key), key, k) == WithKey(s, key, k)
    decreases |s|
  {
    if |s| > 0 {
      SortByStable(s[1..], key, k);
      InsertWithKey(s[0], SortBy(s[1..], key), key, k);
    }
  }

  /** When exactly the elements satisfying `p` carry key `k`, the elements
      with key `k` are the filter by `p`. */
  lemma {:induction false} WithKeyIsFilter<T(!new)>(s: seq<T>, key: T -> int, k: int, p: T -> bool)
    requires forall i :: 0 <= i < |s| ==> (key(s[i]) == k <==> p(s[i]))
    ensures WithKey(s, key, k) == Filter(s, p)
    decreases |s|
  {
    if |s| > 0 {
      WithKeyIsFilter(s[1..], key, k, p);
    }
  }

  /** A permutation has the same elements. */
  lemma SameMembers<T>(a: seq<T>, b: seq<T>)
    requires multiset(a) == multiset(b)
    ensures forall x :: x in a <==> x in b
  {
    forall x
      ensures x in a <==> x in b
    {
      assert x in a <==> x in multiset(a);
      assert x in b <==> x in multiset(b);
    }
  }

  /** The positions of the elements satisfying `p`, ascending. */
  function Positions<T>(s: seq<T>, p: T -> bool): (r: seq<nat>)
    ensures forall i :: 0 <= i < |r| ==> r[i] < |s| && p(s[r[i]])
    ensures forall i, j :: 0 <= i < j < |r| ==> r[i] < r[j]
    ensures forall k :: 0 <= k < |s| && p(s[k]) ==> k in r
  {
    if |s| == 0 then []
    else
      var n := |s| - 1;
      var rest := Positions(s[..n], p);
      assert forall k :: 0 <= k < n ==> s[..n][k] == s[k];
      if p(s[n]) then
        var r := rest + [n];
        assert forall i :: 0 <= i < |rest| ==> r[i] == rest[i];
        r
      else rest
  }
}
