/** Sequence operations that stand in for the Java stream pipelines and the
    Spring Data paging used by the stores: filtering, stable sorting by a key,
    first maximum / first minimum, page slices and skip/limit windows. */
module Seqs {
  import opened Wrappers

  function Min(a: int, b: int): int { if a <= b then a else b }

  /** `s` is ordered by `key`, smallest first. */
  ghost predicate SortedBy<T>(s: seq<T>, key: T -> int)
  {
    forall i, j :: 0 <= i < j < |s| ==> key(s[i]) <= key(s[j])
  }

  /** stream().filter(p): the elements satisfying p, each as often as in s. */
  function Filter<T(!new)>(s: seq<T>, p: T -> bool): (r: seq<T>)
    ensures |r| <= |s|
    ensures forall x :: multiset(r)[x] == if p(x) then multiset(s)[x] else 0
    ensures forall x :: x in r <==> x in s && p(x)
    decreases |s|
  {
    if s == [] then []
    else
      assert s == [s[0]] + s[1..];
      var rest := Filter(s[1..], p);
      if p(s[0]) then [s[0]] + rest else rest
  }

  /** Filtering keeps the relative order, so a sorted input gives a sorted output. */
  lemma {:induction false} FilterSorted<T(!new)>(s: seq<T>, p: T -> bool, key: T -> int)
    requires SortedBy(s, key)
    ensures SortedBy(Filter(s, p), key)
    decreases |s|
  {
    if s != [] {
      FilterSorted(s[1..], p, key);
      var rest := Filter(s[1..], p);
      if p(s[0]) {
        forall j | 0 <= j < |rest| ensures key(s[0]) <= key(rest[j]) {
          assert rest[j] in s[1..];
        }
      }
    }
  }

  /** Inserts x in front of the first element whose key is not smaller. */
  function InsertBy<T>(x: T, s: seq<T>, key: T -> int): (r: seq<T>)
    requires SortedBy(s, key)
    ensures SortedBy(r, key)
    ensures multiset(r) == multiset(s) + multiset{x}
    ensures |r| == |s| + 1
    ensures r[0] == x || (s != [] && r[0] == s[0])
    decreases |s|
  {
    if s == [] || key(x) <= key(s[0]) then [x] + s
    else
      var rest := InsertBy(x, s[1..], key);
      assert key(s[0]) <= key(rest[0]);
      assert s == [s[0]] + s[1..];
      [s[0]] + rest
  }

  /** A stable sort by `key`, smallest first (Comparator.comparing(key) with
      stream().sorted(), or an ORDER BY ... ASC clause). */
  function SortBy<T>(s: seq<T>, key: T -> int): (r: seq<T>)
    ensures SortedBy(r, key)
    ensures multiset(r) == multiset(s)
    ensures |r| == |s|
    decreases |s|
  {
    if s == [] then []
    else
      assert s == [s[0]] + s[1..];
      InsertBy(s[0], SortBy(s[1..], key), key)
  }

  /** Index of the first element with the greatest key (Stream.max keeps the
      first of equal elements). */
  function FirstMaxBy<T>(s: seq<T>, key: T -> int): (k: nat)
    requires |s| > 0
    ensures k < |s|
    ensures forall i :: 0 <= i < |s| ==> key(s[i]) <= key(s[k])
    ensures forall i :: 0 <= i < k ==> key(s[i]) < key(s[k])
    decreases |s|
  {
    if |s| == 1 then 0
    else
      var k' := FirstMaxBy(s[1..], key);
      assert forall i :: 1 <= i < |s| ==> s[i] == s[1..][i - 1];
      if key(s[0]) >= key(s[k' + 1]) then 0 else k' + 1
  }

  /** Index of the first element with the smallest key (Stream.min keeps the
      first of equal elements). */
  function FirstMinBy<T>(s: seq<T>, key: T -> int): (k: nat)
    requires |s| > 0
    ensures k < |s|
    ensures forall i :: 0 <= i < |s| ==> key(s[k]) <= key(s[i])
    ensures forall i :: 0 <= i < k ==> key(s[k]) < key(s[i])
    decreases |s|
  {
    if |s| == 1 then 0
    else
      var k' := FirstMinBy(s[1..], key);
      assert forall i :: 1 <= i < |s| ==> s[i] == s[1..][i - 1];
      if key(s[0]) <= key(s[k' + 1]) then 0 else k' + 1
  }

  /** stream().filter(p).max(comparing(key)): among the elements satisfying
      p, the first one with the greatest key; none if no element does. */
  function FilterMax<T(!new)>(s: seq<T>, p: T -> bool, key: T -> int): (r: Option<T>)
    ensures r.Some? ==> r.value in s && p(r.value)
    ensures r.Some? ==> forall x :: x in s && p(x) ==> key(x) <= key(r.value)
    ensures r.None? <==> forall x :: x in s ==> !p(x)
    ensures r.Some? ==> exists k :: 0 <= k < |Filter(s, p)| && Filter(s, p)[k] == r.value
                                    && forall j :: 0 <= j < k ==> key(Filter(s, p)[j]) < key(r.value)
  {
    var c := Filter(s, p);
    if c == [] then None
    else
      var k := FirstMaxBy(c, key);
      assert forall x :: x in c ==> exists j :: 0 <= j < |c| && c[j] == x;
      assert forall j :: 0 <= j < k ==> key(c[j]) < key(c[k]);
      assert exists k' :: 0 <= k' < |c| && c[k'] == c[k] && forall j :: 0 <= j < k' ==> key(c[j]) < key(c[k']);
      Some(c[k])
  }

  /** stream().filter(p).min(comparing(key)): among the elements satisfying
      p, the first one with the smallest key; none if no element does. */
  function FilterMin<T(!new)>(s: seq<T>, p: T -> bool, key: T -> int): (r: Option<T>)
    ensures r.Some? ==> r.value in s && p(r.value)
    ensures r.Some? ==> forall x :: x in s && p(x) ==> key(r.value) <= key(x)
    ensures r.None? <==> forall x :: x in s ==> !p(x)
    ensures r.Some? ==> exists k :: 0 <= k < |Filter(s, p)| && Filter(s, p)[k] == r.value
                                    && forall j :: 0 <= j < k ==> key(Filter(s, p)[j]) > key(r.value)
  {
    var c := Filter(s, p);
    if c == [] then None
    else
      var k := FirstMinBy(c, key);
      assert forall x :: x in c ==> exists j :: 0 <= j < |c| && c[j] == x;
      assert forall j :: 0 <= j < k ==> key(c[j]) > key(c[k]);
      assert exists k' :: 0 <= k' < |c| && c[k'] == c[k] && forall j :: 0 <= j < k' ==> key(c[j]) > key(c[k']);
      Some(c[k])
  }

  /** stream().sorted(comparing(key)).filter(p).findFirst(): since filtering
      keeps the order, this is an element satisfying p with the smallest key. */
  function SortFilterFirst<T(!new)>(s: seq<T>, key: T -> int, p: T -> bool): (r: Option<T>)
    ensures r.Some? ==> r.value in s && p(r.value)
    ensures r.Some? ==> forall x :: x in s && p(x) ==> key(r.value) <= key(x)
    ensures r.None? <==> forall x :: x in s ==> !p(x)
  {
    var sorted := SortBy(s, key);
    assert forall x :: x in s <==> x in multiset(sorted);
    FilterSorted(sorted, p, key);
    var c := Filter(sorted, p);
    assert forall x :: x in c ==> exists j :: 0 <= j < |c| && c[j] == x;
    First(c)
  }

  /** The first element, if any (stream().findFirst()). */
  function First<T>(s: seq<T>): (r: Option<T>)
    ensures r.None? <==> s == []
    ensures r.Some? ==> r.value == s[0]
  {
    if s == [] then None else Some(s[0])
  }

  /** Page `page` of size `size` (PageRequest.of(page, size) applied to the
      whole ordered result); PageRequest rejects a negative page or a size below 1. */
  function Page<T>(s: seq<T>, page: int, size: int): (r: seq<T>)
    requires page >= 0 && size >= 1
    ensures |r| <= size
    ensures page * size >= |s| ==> r == []
    ensures page * size < |s| ==> |r| == Min(size, |s| - page * size)
    ensures forall i :: 0 <= i < |r| ==> page * size + i < |s| && r[i] == s[page * size + i]
  {
    var lo := Min(page * size, |s|);
    s[lo..Min(lo + size, |s|)]
  }

  /** Every element of `s` shows up on exactly the page its position falls in. */
  lemma PageHoldsPosition<T>(s: seq<T>, size: int, k: int)
    requires size >= 1 && 0 <= k < |s|
    ensures 0 <= k / size
    ensures k % size < |Page(s, k / size, size)|
    ensures Page(s, k / size, size)[k % size] == s[k]
  {
    var p, o := k / size, k % size;
    assert k == p * size + o && 0 <= o < size;
    assert p * size <= k;
  }

  /** stream().skip(skip).limit(limit): an offset window, not a page index. */
  function SkipLimit<T>(s: seq<T>, skip: int, limit: int): (r: seq<T>)
    requires skip >= 0 && limit >= 0
    ensures |r| <= limit
    ensures skip >= |s| ==> r == []
    ensures skip < |s| ==> |r| == Min(limit, |s| - skip)
    ensures forall i :: 0 <= i < |r| ==> skip + i < |s| && r[i] == s[skip + i]
  {
    var lo := Min(skip, |s|);
    s[lo..Min(lo + limit, |s|)]
  }
}
