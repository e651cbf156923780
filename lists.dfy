/**
 * The JavaScript array operations the handlers and pages rely on:
 * `filter`, a stable `sort` with a comparator, `splice` for one element,
 * and `slice` with its negative-index rules, plus the offset/limit paging
 * built on it.
 */
module Lists {
  import opened Wrappers

  /** `Array.prototype.filter`: the elements that satisfy `p`, in their order. */
  function Filter<T>(s: seq<T>, p: T -> bool): (r: seq<T>)
    ensures |r| <= |s|
  {
    if s == [] then []
    else if p(s[0]) then [s[0]] + Filter(s[1..], p)
    else Filter(s[1..], p)
  }

  /** The filtered elements are exactly the elements that satisfy `p`. */
  lemma {:induction false} FilterIn<T(!new)>(s: seq<T>, p: T -> bool)
    ensures forall x :: x in Filter(s, p) <==> x in s && p(x)
  {
    if s != [] {
      FilterIn(s[1..], p);
      assert forall x :: x in s <==> x == s[0] || x in s[1..];
    }
  }

  lemma FilterCons<T>(x: T, s: seq<T>, p: T -> bool)
    ensures Filter([x] + s, p) == (if p(x) then [x] else []) + Filter(s, p)
  {
    assert ([x] + s)[1..] == s;
  }

  lemma {:induction false} FilterAppend<T>(a: seq<T>, b: seq<T>, p: T -> bool)
    ensures Filter(a + b, p) == Filter(a, p) + Filter(b, p)
  {
    if a == [] {
      assert a + b == b;
    } else {
      FilterAppend(a[1..], b, p);
      assert a + b == [a[0]] + (a[1..] + b);
      FilterCons(a[0], a[1..] + b, p);
      FilterCons(a[0], a[1..], p);
      assert a == [a[0]] + a[1..];
    }
  }

  /** Filtering with a predicate every element meets keeps the whole sequence. */
  lemma {:induction false} FilterAll<T>(s: seq<T>, p: T -> bool)
    requires forall i :: 0 <= i < |s| ==> p(s[i])
    ensures Filter(s, p) == s
  {
    if s != [] {
      FilterAll(s[1..], p);
    }
  }

  /** Filtering with a predicate no element meets keeps nothing. */
  lemma {:induction false} FilterNone<T>(s: seq<T>, p: T -> bool)
    requires forall i :: 0 <= i < |s| ==> !p(s[i])
    ensures Filter(s, p) == []
  {
    if s != [] {
      FilterNone(s[1..], p);
    }
  }

  /** Filtering twice is filtering once with both predicates. */
  lemma {:induction false} FilterFilter<T>(s: seq<T>, p: T -> bool, q: T -> bool)
    ensures Filter(Filter(s, p), q) == Filter(s, x => p(x) && q(x))
  {
    if s != [] {
      FilterFilter(s[1..], p, q);
    }
  }

  /** The elements whose key is not `k`. */
  function WithoutKey<T>(s: seq<T>, key: T -> int, k: int): seq<T>
  {
    Filter(s, x => key(x) != k)
  }

  /** The elements kept are exactly those with another key. */
  lemma WithoutKeyIn<T(!new)>(s: seq<T>, key: T -> int, k: int)
    ensures forall x :: x in WithoutKey(s, key, k) <==> x in s && key(x) != k
  {
    FilterIn(s, x => key(x) != k);
  }

  lemma WithoutKeyCons<T>(x: T, s: seq<T>, key: T -> int, k: int)
    ensures WithoutKey([x] + s, key, k) == (if key(x) != k then [x] else []) + WithoutKey(s, key, k)
  {
    FilterCons(x, s, y => key(y) != k);
  }

  lemma WithoutKeyAppend<T>(a: seq<T>, b: seq<T>, key: T -> int, k: int)
    ensures WithoutKey(a + b, key, k) == WithoutKey(a, key, k) + WithoutKey(b, key, k)
  {
    FilterAppend(a, b, x => key(x) != k);
  }

  /** Without an element of key `k` nothing is filtered out. */
  lemma WithoutKeyAbsent<T>(s: seq<T>, key: T -> int, k: int)
    requires forall i :: 0 <= i < |s| ==> key(s[i]) != k
    ensures WithoutKey(s, key, k) == s
  {
    FilterAll(s, x => key(x) != k);
  }

  /** Filtering out the one element with key `k` is removing it at its place. */
  lemma {:induction false} FilterOutUnique<T>(s: seq<T>, key: T -> int, k: int, i: nat)
    requires i < |s| && key(s[i]) == k
    requires DistinctKeys(s, key)
    ensures WithoutKey(s, key, k) == RemoveAt(s, i)
  {
    if i == 0 {
      FilterAll(s[1..], x => key(x) != k);
      assert s[1..] == RemoveAt(s, 0);
    } else {
      FilterOutUnique(s[1..], key, k, i - 1);
      assert RemoveAt(s, i) == [s[0]] + RemoveAt(s[1..], i - 1);
    }
  }

  /** No two elements share a key. */
  predicate DistinctKeys<T>(s: seq<T>, key: T -> int)
  {
    forall a, b :: 0 <= a < b < |s| ==> key(s[a]) != key(s[b])
  }

  /** An element found at two positions occurs at least twice. */
  lemma TwoPositions<T>(t: seq<T>, a: nat, b: nat)
    requires a < b < |t| && t[a] == t[b]
    ensures multiset(t)[t[a]] >= 2
  {
    assert t == t[..b] + t[b..];
    assert t[a] in t[..b] && t[b..][0] == t[a];
  }

  /** In a sequence with distinct keys every element occurs once. */
  lemma OnePosition<T>(s: seq<T>, i: nat, key: T -> int)
    requires i < |s| && DistinctKeys(s, key)
    ensures multiset(s)[s[i]] == 1
  {
    var x := s[i];
    assert s == s[..i] + [x] + s[i + 1..];
    forall c | 0 <= c < |s| && c != i ensures s[c] != x {
      assert key(s[c]) != key(s[i]);
    }
    assert x !in s[..i] && x !in s[i + 1..];
  }

  /** A permutation of a sequence with distinct keys has distinct keys. */
  lemma DistinctKeysPermutation<T>(s: seq<T>, t: seq<T>, key: T -> int)
    requires multiset(s) == multiset(t)
    requires DistinctKeys(s, key)
    ensures DistinctKeys(t, key)
  {
    forall a, b | 0 <= a < b < |t| ensures key(t[a]) != key(t[b]) {
      assert t[a] in multiset(s) && t[b] in multiset(s);
      var i :| 0 <= i < |s| && s[i] == t[a];
      var j :| 0 <= j < |s| && s[j] == t[b];
      if i == j {
        TwoPositions(t, a, b);
        OnePosition(s, i, key);
        assert false;
      }
    }
  }

  /** A subsequence kept by `Filter` has distinct keys when the whole has. */
  lemma {:induction false} DistinctKeysFilter<T(!new)>(s: seq<T>, p: T -> bool, key: T -> int)
    requires DistinctKeys(s, key)
    ensures DistinctKeys(Filter(s, p), key)
  {
    if s != [] {
      DistinctKeysFilter(s[1..], p, key);
      var rest := Filter(s[1..], p);
      FilterIn(s[1..], p);
      assert forall x :: x in rest ==> x in s[1..];
      if p(s[0]) {
        var r := Filter(s, p);
        assert r == [s[0]] + rest;
        forall b | 0 < b < |r| ensures key(r[0]) != key(r[b]) {
          assert r[b] == rest[b - 1] && rest[b - 1] in rest;
          assert r[b] in s[1..];
          var c :| 0 <= c < |s[1..]| && s[1..][c] == r[b];
          assert s[c + 1] == r[b];
        }
      }
    }
  }

  /** `Array.prototype.findIndex`: the first position whose element has key `k`. */
  function Find<T>(s: seq<T>, key: T -> int, k: int): (r: Option<nat>)
    ensures r.Some? ==> r.value < |s| && key(s[r.value]) == k
    ensures r.Some? ==> forall j :: 0 <= j < r.value ==> key(s[j]) != k
    ensures r.None? ==> forall j :: 0 <= j < |s| ==> key(s[j]) != k
  {
    if s == [] then None
    else if key(s[0]) == k then Some(0)
    else match Find(s[1..], key, k)
      case None => None
      case Some(i) => Some(i + 1)
  }

  /** The number of elements that satisfy `p`. */
  function Count<T>(s: seq<T>, p: T -> bool): nat
  {
    |Filter(s, p)|
  }

  // ---------------------------------------------------------------------
  // Stable sort

  /** `le(a, b)` says the comparator does not put `a` after `b`
      (`compare(a, b) <= 0`). */
  ghost predicate TotalPreorder<T(!new)>(le: (T, T) -> bool)
  {
    && (forall a, b :: le(a, b) || le(b, a))
    && (forall a, b, c :: le(a, b) && le(b, c) ==> le(a, c))
  }

  predicate SortedBy<T>(s: seq<T>, le: (T, T) -> bool)
  {
    forall i, j :: 0 <= i < j < |s| ==> le(s[i], s[j])
  }

  /** Puts `x` in front of the first element it may precede, so `x` stays ahead
      of the elements it ties with. */
  function Insert<T>(x: T, s: seq<T>, le: (T, T) -> bool): (r: seq<T>)
    ensures |r| == |s| + 1
    ensures multiset(r) == multiset(s) + multiset{x}
  {
    if s == [] || le(x, s[0]) then [x] + s
    else
      assert s == [s[0]] + s[1..];
      [s[0]] + Insert(x, s[1..], le)
  }

  /** `Array.prototype.sort`, which is stable: an insertion sort that keeps
      elements that tie in their original order. */
  function SortBy<T>(s: seq<T>, le: (T, T) -> bool): (r: seq<T>)
    ensures |r| == |s|
    ensures multiset(r) == multiset(s)
  {
    if s == [] then []
    else
      assert s == [s[0]] + s[1..];
      Insert(s[0], SortBy(s[1..], le), le)
  }

  lemma {:induction false} InsertSorted<T(!new)>(x: T, s: seq<T>, le: (T, T) -> bool)
    requires TotalPreorder(le)
    requires SortedBy(s, le)
    ensures SortedBy(Insert(x, s, le), le)
  {
    if s != [] && !le(x, s[0]) {
      InsertSorted(x, s[1..], le);
      var r := Insert(x, s, le);
      var t := Insert(x, s[1..], le);
      assert r == [s[0]] + t;
      forall j | 0 < j < |r| ensures le(r[0], r[j]) {
        assert r[j] in multiset(t);
        assert r[j] in multiset(s[1..]) + multiset{x};
        if r[j] == x {
        } else {
          assert r[j] in s[1..];
        }
      }
    }
  }

  /** The sorted result is ordered by the comparator and is a permutation of
      the input. */
  lemma {:induction false} SortBySorted<T(!new)>(s: seq<T>, le: (T, T) -> bool)
    requires TotalPreorder(le)
    ensures SortedBy(SortBy(s, le), le)
    ensures multiset(SortBy(s, le)) == multiset(s)
  {
    if s != [] {
      SortBySorted(s[1..], le);
      InsertSorted(s[0], SortBy(s[1..], le), le);
    }
  }

  /** The elements the comparator cannot tell apart from `y`. */
  function Tied<T>(le: (T, T) -> bool, y: T): T -> bool
  {
    (z: T) => le(y, z) && le(z, y)
  }

  /** Inserting `x` passes over no element that ties with `x`, so among
      the elements tied with any `y` it lands in front. */
  lemma {:induction false} FilterTiedInsert<T(!new)>(x: T, s: seq<T>, le: (T, T) -> bool, y: T)
    requires TotalPreorder(le)
    ensures Filter(Insert(x, s, le), Tied(le, y)) ==
              (if Tied(le, y)(x) then [x] else []) + Filter(s, Tied(le, y))
  {
    var p := Tied(le, y);
    if s == [] || le(x, s[0]) {
      FilterCons(x, s, p);
    } else {
      FilterTiedInsert(x, s[1..], le, y);
      FilterCons(s[0], Insert(x, s[1..], le), p);
      assert s == [s[0]] + s[1..];
      FilterCons(s[0], s[1..], p);
      if p(x) {
        assert !p(s[0]);
      }
    }
  }

  /** The sort is stable: the elements that tie with any `y` come out in
      the order they went in. */
  lemma {:induction false} SortByStable<T(!new)>(s: seq<T>, le: (T, T) -> bool, y: T)
    requires TotalPreorder(le)
    ensures Filter(SortBy(s, le), Tied(le, y)) == Filter(s, Tied(le, y))
  {
    if s != [] {
      SortByStable(s[1..], le, y);
      FilterTiedInsert(s[0], SortBy(s[1..], le), le, y);
      assert s == [s[0]] + s[1..];
      FilterCons(s[0], s[1..], Tied(le, y));
    }
  }

  // ---------------------------------------------------------------------
  // splice of one element

  /** `a.splice(i, 1)` for an index inside the array. */
  function RemoveAt<T>(s: seq<T>, i: nat): (r: seq<T>)
    requires i < |s|
    ensures |r| == |s| - 1
    ensures forall k :: 0 <= k < i ==> r[k] == s[k]
    ensures forall k :: i <= k < |r| ==> r[k] == s[k + 1]
  {
    s[..i] + s[i + 1..]
  }

  /** `a.splice(i, 0, x)` for an index that is not negative; an index past
      the end appends. */
  function InsertAt<T>(s: seq<T>, i: nat, x: T): (r: seq<T>)
    ensures |r| == |s| + 1
    ensures r[if i <= |s| then i else |s|] == x
    ensures forall k :: 0 <= k < |s| ==> r[if k < i then k else k + 1] == s[k]
  {
    var j := if i <= |s| then i else |s|;
    s[..j] + [x] + s[j..]
  }

  /** Taking one element out and putting it back elsewhere keeps the same
      elements. */
  lemma RemoveInsertMultiset<T>(s: seq<T>, i: nat, j: nat)
    requires i < |s|
    ensures multiset(InsertAt(RemoveAt(s, i), j, s[i])) == multiset(s)
  {
    var x := s[i];
    var r := RemoveAt(s, i);
    var k := if j <= |r| then j else |r|;
    var t := InsertAt(r, j, x);
    assert t == r[..k] + [x] + r[k..];
    assert r == s[..i] + s[i + 1..];
    assert s == s[..i] + [x] + s[i + 1..];
    calc {
      multiset(t);
      multiset(r[..k]) + multiset{x} + multiset(r[k..]);
      { assert r == r[..k] + r[k..]; }
      multiset(r) + multiset{x};
      multiset(s[..i]) + multiset(s[i + 1..]) + multiset{x};
      multiset(s);
    }
  }

  // ---------------------------------------------------------------------
  // slice and paging

  /** How `slice` turns one of its arguments into an index: a negative one
      counts from the end, and the result is clamped to `[0, n]`. */
  function SliceIndex(i: int, n: nat): (r: nat)
    ensures r <= n
    ensures 0 <= i <= n ==> r == i
  {
    if i < 0 then (if n + i < 0 then 0 else n + i)
    else if i > n then n
    else i
  }

  /** `Array.prototype.slice(start, end)`. */
  function Slice<T>(s: seq<T>, start: int, end: int): (r: seq<T>)
    ensures |r| <= |s|
  {
    var a, b := SliceIndex(start, |s|), SliceIndex(end, |s|);
    if a < b then s[a..b] else []
  }

  lemma SliceIn<T>(s: seq<T>, start: int, end: int)
    ensures forall x :: x in Slice(s, start, end) ==> x in s
  {
  }

  function Min(a: int, b: int): int { if a <= b then a else b }

  function Max(a: int, b: int): int { if a <= b then b else a }

  /** The page of a listing: `slice((page - 1) * pageSize, (page - 1) * pageSize + pageSize)`. */
  function Page<T>(s: seq<T>, page: int, pageSize: int): seq<T>
  {
    var start := (page - 1) * pageSize;
    Slice(s, start, start + pageSize)
  }

  /** A page number from 1 up and a positive size give the window
      `[(page-1)*size, page*size)` of the listing, cut at its end. */
  lemma PageWindow<T>(s: seq<T>, page: int, pageSize: int)
    requires page >= 1 && pageSize >= 1
    ensures var lo, hi := Min((page - 1) * pageSize, |s|), Min(page * pageSize, |s|);
            lo <= hi && Page(s, page, pageSize) == s[lo..hi]
    ensures |Page(s, page, pageSize)| <= pageSize
    ensures (page - 1) * pageSize >= |s| ==> Page(s, page, pageSize) == []
  {
    MulStep(page - 1, pageSize);
  }

  lemma MulStep(q: nat, k: nat)
    ensures q * k >= 0 && q * k + k == (q + 1) * k
  {
  }

  /** Pages 1 to `m` laid end to end give the first `m * pageSize` elements,
      so every element is on exactly one page. */
  lemma {:induction false} PagesCover<T>(s: seq<T>, pageSize: int, m: nat)
    requires pageSize >= 1
    ensures Pages(s, pageSize, m) == s[..Min(m * pageSize, |s|)]
  {
    if m > 0 {
      PagesCover(s, pageSize, m - 1);
      PagesAppend(s, pageSize, m);
    }
  }

  /** Page `m` continues the listing where pages 1 to `m - 1` stop. */
  lemma PagesAppend<T>(s: seq<T>, pageSize: int, m: nat)
    requires pageSize >= 1 && m >= 1
    requires Pages(s, pageSize, m - 1) == s[..Min((m - 1) * pageSize, |s|)]
    ensures Pages(s, pageSize, m) == s[..Min(m * pageSize, |s|)]
  {
    var k := (m - 1) * pageSize;
    assert k >= 0 && k + pageSize == m * pageSize by {
      MulStep(m - 1, pageSize);
    }
    assert Pages(s, pageSize, m) == s[..Min(k, |s|)] + Slice(s, k, k + pageSize);
    WindowAppend(s, k, pageSize);
  }

  /** The elements before `k` followed by the slice from `k` of length
      `size` are the elements before `k + size`. */
  lemma WindowAppend<T>(s: seq<T>, k: nat, size: nat)
    ensures s[..Min(k, |s|)] + Slice(s, k, k + size) == s[..Min(k + size, |s|)]
  {
    if k < |s| {
      assert s[..k] + s[k..Min(k + size, |s|)] == s[..Min(k + size, |s|)];
    }
  }

  /** The first `m` pages of a listing, laid end to end. */
  function Pages<T>(s: seq<T>, pageSize: int, m: nat): seq<T>
  {
    if m == 0 then [] else Pages(s, pageSize, m - 1) + Page(s, m, pageSize)
  }
}
