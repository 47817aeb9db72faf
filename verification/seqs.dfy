/** Sequence operations the pipeline borrows from JavaScript arrays:
    `slice(0, end)`, `findIndex`, `[...new Set(xs)]`, and a stable
    newest-first sort on an optional timestamp key. */
module Seqs {
  import opened Wrappers

  /** The end index `slice(0, end)` uses on an array of length `len`: a negative
      `end` counts back from the end, and the index is clamped to `[0, len]`. */
  function SliceEnd(len: nat, end: int): (k: nat)
    ensures k <= len
    ensures 0 <= end ==> k == (if end < len then end else len)
    ensures end < 0 ==> k == (if len + end < 0 then 0 else len + end)
  {
    if end < 0 then (if len + end < 0 then 0 else len + end)
    else if end < len then end
    else len
  }

  /** `s.slice(0, end)`. */
  function Slice0<T>(s: seq<T>, end: int): (r: seq<T>)
    ensures |r| <= |s| && r == s[..|r|]
    ensures 0 <= end ==> |r| <= end
  {
    s[..SliceEnd(|s|, end)]
  }

  /** Taking `m` elements of `[x] + s` is `x` followed by `m - 1` elements of `s`. */
  lemma SliceCons<T>(x: T, s: seq<T>, m: int)
    requires m >= 1
    ensures Slice0([x] + s, m) == [x] + Slice0(s, m - 1)
  {
    assert ([x] + s)[1..] == s;
  }

  /** `s.findIndex(p)`: the first position whose element satisfies `p`, or -1. */
  function FindIndex<T>(s: seq<T>, p: T -> bool): (r: int)
    ensures -1 <= r < |s|
    ensures r == -1 <==> forall k :: 0 <= k < |s| ==> !p(s[k])
    ensures 0 <= r ==> p(s[r]) && forall k :: 0 <= k < r ==> !p(s[k])
  {
    if s == [] then -1
    else if p(s[0]) then 0
    else
      var r := FindIndex(s[1..], p);
      assert forall k :: 0 < k < |s| ==> s[k] == s[1..][k - 1];
      if r == -1 then -1 else r + 1
  }

  /** `s.filter(p)`: the elements satisfying `p`, in order. */
  function Filter<T>(s: seq<T>, p: T -> bool): (r: seq<T>)
    ensures |r| <= |s|
    ensures forall i :: 0 <= i < |r| ==> p(r[i]) && r[i] in s
    ensures forall i :: 0 <= i < |s| && p(s[i]) ==> s[i] in r
  {
    if s == [] then []
    else
      var rest := Filter(s[1..], p);
      assert forall i :: 0 < i < |s| ==> s[i] == s[1..][i - 1];
      if p(s[0]) then [s[0]] + rest else rest
  }

  /** `s.map(f)` where `f` may throw: the first failure ends the map. */
  function MapResult<A, B, E>(s: seq<A>, f: A -> Result<B, E>): (res: Result<seq<B>, E>)
    ensures res.Success? <==> forall i :: 0 <= i < |s| ==> f(s[i]).Success?
    ensures res.Success? ==> |res.value| == |s| && forall i :: 0 <= i < |s| ==> f(s[i]) == Success(res.value[i])
    ensures res.Failure? ==> exists i :: 0 <= i < |s| && f(s[i]) == Failure(res.error)
  {
    if s == [] then Success([])
    else
      assert forall i :: 0 < i < |s| ==> s[i] == s[1..][i - 1];
      match f(s[0])
      case Failure(e) => Failure(e)
      case Success(b) =>
        match MapResult(s[1..], f)
        case Failure(e) => Failure(e)
        case Success(bs) => Success([b] + bs)
  }

  predicate NoDuplicates<T(==)>(s: seq<T>) {
    forall i, j :: 0 <= i < j < |s| ==> s[i] != s[j]
  }

  /** `[...new Set(s)]`: the first occurrence of every element, in order. */
  function Distinct<T(==, !new)>(s: seq<T>): (r: seq<T>)
    ensures NoDuplicates(r)
    ensures forall x :: x in r <==> x in s
    ensures |r| <= |s|
  {
    if s == [] then []
    else
      var init := s[..|s| - 1];
      var p := Distinct(init);
      assert forall x :: x in s <==> x in init || x == s[|s| - 1];
      if s[|s| - 1] in init then p else p + [s[|s| - 1]]
  }

  /** The position of the first occurrence of `x` in `s`. */
  function IndexOf<T(==)>(s: seq<T>, x: T): (k: nat)
    requires x in s
    ensures k < |s| && s[k] == x && x !in s[..k]
  {
    if s[0] == x then 0
    else
      assert x in s[1..];
      var k := IndexOf(s[1..], x);
      assert s[..k + 1] == [s[0]] + s[1..][..k];
      k + 1
  }

  /** A position holding `x` with no `x` before it is the first occurrence. */
  lemma IndexOfUnique<T>(s: seq<T>, x: T, k: nat)
    requires k < |s| && s[k] == x && x !in s[..k]
    ensures IndexOf(s, x) == k
  {
    var m := IndexOf(s, x);
    assert forall i :: 0 <= i < m ==> s[..m][i] == s[i];
    assert forall i :: 0 <= i < k ==> s[..k][i] == s[i];
  }

  /** Adding elements at the end does not move a first occurrence. */
  lemma IndexOfPrefix<T>(a: seq<T>, b: seq<T>, x: T)
    requires x in a
    ensures x in a + b && IndexOf(a + b, x) == IndexOf(a, x)
  {
    var k := IndexOf(a, x);
    assert (a + b)[..k] == a[..k];
    assert (a + b)[k] == x;
    IndexOfUnique(a + b, x, k);
  }

  /** The distinct elements come in the order of their first occurrences in
      `s`; with `Distinct`'s contract this pins the result down. */
  lemma {:induction false} DistinctKeepsFirstOrder<T(!new)>(s: seq<T>)
    ensures forall i, j :: 0 <= i < j < |Distinct(s)| ==> IndexOf(s, Distinct(s)[i]) < IndexOf(s, Distinct(s)[j])
  {
    if s != [] {
      var init := s[..|s| - 1];
      var last := s[|s| - 1];
      assert s == init + [last];
      DistinctKeepsFirstOrder(init);
      var p := Distinct(init);
      forall i, j | 0 <= i < j < |p|
        ensures IndexOf(s, p[i]) < IndexOf(s, p[j])
      {
        assert p[i] in p && p[j] in p;
        assert IndexOf(init, p[i]) < IndexOf(init, p[j]);
        IndexOfPrefix(init, [last], p[i]);
        IndexOfPrefix(init, [last], p[j]);
      }
      if last !in init {
        var r := p + [last];
        assert s[..|init|] == init;
        IndexOfUnique(s, last, |init|);
        forall i, j | 0 <= i < j < |r|
          ensures IndexOf(s, r[i]) < IndexOf(s, r[j])
        {
          if j == |p| {
            assert r[i] == p[i] && p[i] in p;
            IndexOfPrefix(init, [last], r[i]);
          } else {
            assert r[i] == p[i] && r[j] == p[j];
          }
        }
      }
    }
  }

  /** Sets built from two disjoint runs keep the runs apart: the distinct
      elements of `a + b` are those of `a` followed by those of `b`. */
  lemma {:induction false} DistinctOfDisjointAppend<T(!new)>(a: seq<T>, b: seq<T>)
    requires forall x :: x in a ==> x !in b
    ensures Distinct(a + b) == Distinct(a) + Distinct(b)
    decreases |b|
  {
    if b == [] {
      assert a + b == a;
    } else {
      var b' := b[..|b| - 1];
      var last := b[|b| - 1];
      assert (a + b)[..|a + b| - 1] == a + b';
      assert (a + b)[|a + b| - 1] == last;
      assert last in a + b' <==> last in b';
      DistinctOfDisjointAppend(a, b');
    }
  }

  /** Order on optional timestamps: a missing (unparseable) timestamp sorts
      below every timestamp. */
  predicate KeyLe(a: Option<int>, b: Option<int>) {
    match a
    case None => true
    case Some(x) => b.Some? && x <= b.value
  }

  /** Newest first: keys never increase along the sequence. */
  predicate SortedDesc<T>(s: seq<T>, key: T -> Option<int>) {
    forall i, j :: 0 <= i < j < |s| ==> KeyLe(key(s[j]), key(s[i]))
  }

  /** Places `x` in front of the first element whose key is not greater than its own. */
  function Insert<T>(x: T, t: seq<T>, key: T -> Option<int>): (r: seq<T>)
    ensures |r| == |t| + 1
    ensures multiset(r) == multiset(t) + multiset{x}
  {
    if t == [] || KeyLe(key(t[0]), key(x)) then [x] + t
    else
      assert t == [t[0]] + t[1..];
      [t[0]] + Insert(x, t[1..], key)
  }

  lemma KeyLeTotal(a: Option<int>, b: Option<int>)
    ensures KeyLe(a, b) || KeyLe(b, a)
  {
  }

  lemma {:induction false} InsertKeepsSorted<T>(x: T, t: seq<T>, key: T -> Option<int>)
    requires SortedDesc(t, key)
    ensures SortedDesc(Insert(x, t, key), key)
    decreases |t|
  {
    if t == [] || KeyLe(key(t[0]), key(x)) {
      var r := [x] + t;
      forall i, j | 0 <= i < j < |r|
        ensures KeyLe(key(r[j]), key(r[i]))
      {
        if i == 0 {
          assert r[j] == t[j - 1];
        } else {
          assert r[i] == t[i - 1] && r[j] == t[j - 1];
        }
      }
    } else {
      var tail := t[1..];
      assert SortedDesc(tail, key) by {
        forall i, j | 0 <= i < j < |tail|
          ensures KeyLe(key(tail[j]), key(tail[i]))
        {
          assert tail[i] == t[i + 1] && tail[j] == t[j + 1];
        }
      }
      InsertKeepsSorted(x, tail, key);
      var rest := Insert(x, tail, key);
      KeyLeTotal(key(t[0]), key(x));
      forall y | y in rest
        ensures KeyLe(key(y), key(t[0]))
      {
        assert y in multiset(tail) + multiset{x};
        if y != x {
          var k :| 0 <= k < |tail| && tail[k] == y;
          assert t[k + 1] == y;
        }
      }
      var r := [t[0]] + rest;
      forall i, j | 0 <= i < j < |r|
        ensures KeyLe(key(r[j]), key(r[i]))
      {
        if i == 0 {
          assert r[j] in rest;
        } else {
          assert r[i] == rest[i - 1] && r[j] == rest[j - 1];
        }
      }
    }
  }

  /** `s.sort((a, b) => key(b) - key(a))` as a stable insertion sort: the result
      is a permutation of `s` ordered newest first. */
  function SortDesc<T>(s: seq<T>, key: T -> Option<int>): (r: seq<T>)
    ensures |r| == |s|
    ensures multiset(r) == multiset(s)
    ensures SortedDesc(r, key)
  {
    if s == [] then []
    else
      assert s == [s[0]] + s[1..];
      var sorted := SortDesc(s[1..], key);
      InsertKeepsSorted(s[0], sorted, key);
      Insert(s[0], sorted, key)
  }

  /** Every two elements at different positions are related by the symmetric `rel`. */
  predicate Separated<T>(s: seq<T>, rel: (T, T) -> bool) {
    forall i, j :: 0 <= i < j < |s| ==> rel(s[i], s[j])
  }

  ghost predicate Symmetric<T(!new)>(rel: (T, T) -> bool) {
    forall a, b :: rel(a, b) == rel(b, a)
  }

  lemma {:induction false} InsertKeepsSeparated<T(!new)>(x: T, t: seq<T>, key: T -> Option<int>, rel: (T, T) -> bool)
    requires Symmetric(rel)
    requires Separated(t, rel)
    requires forall y :: y in t ==> rel(x, y)
    ensures Separated(Insert(x, t, key), rel)
    decreases |t|
  {
    if t == [] || KeyLe(key(t[0]), key(x)) {
    } else {
      var rest := Insert(x, t[1..], key);
      InsertKeepsSeparated(x, t[1..], key, rel);
      forall y | y in rest
        ensures rel(t[0], y)
      {
        assert y in multiset(t[1..]) + multiset{x};
        if y != x {
          var k :| 0 <= k < |t[1..]| && t[1..][k] == y;
          assert t[k + 1] == y;
        }
      }
      var r := [t[0]] + rest;
      forall i, j | 0 <= i < j < |r|
        ensures rel(r[i], r[j])
      {
        if i == 0 {
          assert r[j] in rest;
        } else {
          assert r[i] == rest[i - 1] && r[j] == rest[j - 1];
        }
      }
    }
  }

  /** Sorting keeps every pair of elements separated. */
  lemma {:induction false} SortKeepsSeparated<T(!new)>(s: seq<T>, key: T -> Option<int>, rel: (T, T) -> bool)
    requires Symmetric(rel)
    requires Separated(s, rel)
    ensures Separated(SortDesc(s, key), rel)
  {
    if s != [] {
      var tail := s[1..];
      assert Separated(tail, rel) by {
        forall i, j | 0 <= i < j < |tail|
          ensures rel(tail[i], tail[j])
        {
          assert tail[i] == s[i + 1] && tail[j] == s[j + 1];
        }
      }
      SortKeepsSeparated(tail, key, rel);
      var sorted := SortDesc(tail, key);
      forall y | y in sorted
        ensures rel(s[0], y)
      {
        assert y in multiset(tail);
        var k :| 0 <= k < |tail| && tail[k] == y;
        assert s[k + 1] == y;
      }
      InsertKeepsSeparated(s[0], sorted, key, rel);
    }
  }

  /** `r` is a sub-bag of `pool` that holds its newest elements: whatever of
      `pool` was left out is no newer than anything kept. */
  predicate NewestOf<T(==, !new)>(r: seq<T>, pool: seq<T>, key: T -> Option<int>) {
    && multiset(r) <= multiset(pool)
    && forall x, y :: x in multiset(pool) - multiset(r) && y in r ==> KeyLe(key(x), key(y))
  }

  /** A prefix of a sorted sequence holds its newest elements. */
  lemma SliceOfSortedIsNewest<T(!new)>(s: seq<T>, end: int, key: T -> Option<int>)
    requires SortedDesc(s, key)
    ensures NewestOf(Slice0(s, end), s, key)
  {
    var r := Slice0(s, end);
    var rest := s[|r|..];
    assert s == r + rest;
    assert multiset(s) - multiset(r) == multiset(rest);
    forall x, y | x in multiset(s) - multiset(r) && y in r
      ensures KeyLe(key(x), key(y))
    {
      assert x in rest;
      var j :| 0 <= j < |rest| && rest[j] == x;
      var i :| 0 <= i < |r| && r[i] == y;
      assert s[|r| + j] == x && s[i] == y;
    }
  }

  /** Being the newest elements survives replacing the pool by a permutation. */
  lemma NewestOfPermutation<T(!new)>(r: seq<T>, pool: seq<T>, pool': seq<T>, key: T -> Option<int>)
    requires NewestOf(r, pool, key) && multiset(pool) == multiset(pool')
    ensures NewestOf(r, pool', key)
  {
  }

  /** The elements of the first `n` positions of `s` whose position passes `keep`, in order. */
  function KeepPositions<T>(s: seq<T>, n: nat, keep: nat -> bool): (r: seq<T>)
    requires n <= |s|
    ensures |r| <= n
  {
    if n == 0 then []
    else
      var prev := KeepPositions(s, n - 1, keep);
      if keep(n - 1) then prev + [s[n - 1]] else prev
  }

  /** What is kept is exactly the elements at the passing positions. */
  lemma {:induction false} KeepPositionsMembers<T>(s: seq<T>, n: nat, keep: nat -> bool)
    requires n <= |s|
    ensures forall x :: x in KeepPositions(s, n, keep) ==> exists i :: 0 <= i < n && keep(i) && s[i] == x
    ensures forall i :: 0 <= i < n && keep(i) ==> s[i] in KeepPositions(s, n, keep)
  {
    if n > 0 {
      KeepPositionsMembers(s, n - 1, keep);
      var prev := KeepPositions(s, n - 1, keep);
      forall i | 0 <= i < n - 1 && keep(i)
        ensures s[i] in KeepPositions(s, n, keep)
      {
        assert s[i] in prev;
      }
    }
  }

  /** Kept elements are pairwise related when the passing positions are. */
  lemma {:induction false} KeepPositionsSeparated<T>(s: seq<T>, n: nat, keep: nat -> bool, rel: (T, T) -> bool)
    requires n <= |s|
    requires forall i, j :: 0 <= i < j < n && keep(i) && keep(j) ==> rel(s[i], s[j])
    ensures Separated(KeepPositions(s, n, keep), rel)
  {
    if n > 0 {
      var prev := KeepPositions(s, n - 1, keep);
      KeepPositionsSeparated(s, n - 1, keep, rel);
      if keep(n - 1) {
        KeepPositionsMembers(s, n - 1, keep);
        forall x | x in prev
          ensures rel(x, s[n - 1])
        {
          var i :| 0 <= i < n - 1 && keep(i) && s[i] == x;
        }
        SeparatedPush(prev, s[n - 1], rel);
      }
    }
  }

  /** An element related to everything before it extends a separated sequence. */
  lemma SeparatedPush<T>(s: seq<T>, y: T, rel: (T, T) -> bool)
    requires Separated(s, rel)
    requires forall x :: x in s ==> rel(x, y)
    ensures Separated(s + [y], rel)
  {
    var r := s + [y];
    forall i, j | 0 <= i < j < |r|
      ensures rel(r[i], r[j])
    {
      if j == |s| {
        assert r[i] == s[i] && s[i] in s;
      } else {
        assert r[i] == s[i] && r[j] == s[j];
      }
    }
  }

  /** A prefix of a separated sequence is separated. */
  lemma SliceKeepsSeparated<T>(s: seq<T>, end: int, rel: (T, T) -> bool)
    requires Separated(s, rel)
    ensures Separated(Slice0(s, end), rel)
  {
  }

  /** A prefix of a sorted sequence is sorted. */
  lemma SliceKeepsSorted<T>(s: seq<T>, end: int, key: T -> Option<int>)
    requires SortedDesc(s, key)
    ensures SortedDesc(Slice0(s, end), key)
  {
  }

  /** `items.filter(keep).map(f).sort(newest first).slice(0, limit)`: fails
      exactly when `f` fails on a kept item; otherwise the result is ordered
      newest first, every element comes from a kept item, and its length is
      the smaller of `limit` and the number of kept items. */
  function FilterMapSortSlice<A, B(==, !new), E>(items: seq<A>, keep: A -> bool, f: A -> Result<B, E>, key: B -> Option<int>, limit: int)
    : (res: Result<seq<B>, E>)
    ensures res.Failure? <==> exists i :: 0 <= i < |items| && keep(items[i]) && f(items[i]).Failure?
    ensures res.Success? ==> SortedDesc(res.value, key)
    ensures res.Success? ==> |res.value| == SliceEnd(|Filter(items, keep)|, limit)
    ensures res.Success? ==>
              forall b :: b in res.value ==> exists i :: 0 <= i < |items| && keep(items[i]) && f(items[i]) == Success(b)
    ensures res.Success? ==> NewestOf(res.value, MapResult(Filter(items, keep), f).value, key)
  {
    var kept := Filter(items, keep);
    match MapResult(kept, f)
    case Failure(e) =>
      assert exists i :: 0 <= i < |items| && keep(items[i]) && f(items[i]).Failure? by {
        var k :| 0 <= k < |kept| && f(kept[k]) == Failure(e);
        assert kept[k] in items;
      }
      Failure(e)
    case Success(mapped) =>
      var sorted := SortDesc(mapped, key);
      var out := Slice0(sorted, limit);
      SliceKeepsSorted(sorted, limit, key);
      SliceOfSortedIsNewest(sorted, limit, key);
      NewestOfPermutation(out, sorted, mapped, key);
      forall b | b in out
        ensures exists i :: 0 <= i < |items| && keep(items[i]) && f(items[i]) == Success(b)
      {
        assert b in multiset(sorted);
        var k :| 0 <= k < |mapped| && mapped[k] == b;
        assert kept[k] in items;
      }
      forall i | 0 <= i < |items| && keep(items[i])
        ensures f(items[i]).Success?
      {
        assert items[i] in kept;
      }
      Success(out)
  }
}
