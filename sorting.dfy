/**
 * The result-set shapes the queries share: `WHERE` (a filter), `ORDER BY key` (a sort),
 * `LIMIT k` and `OFFSET n` (slices of the sorted rows).
 */
module Sorting {

  /** `s` is in ascending order of `key`. */
  ghost predicate SortedBy<T>(s: seq<T>, key: T -> int)
  {
    forall i, j :: 0 <= i < j < |s| ==> key(s[i]) <= key(s[j])
  }

  /** The rows of `s` that satisfy `p`, in their original order. */
  function Filter<T(==,!new)>(s: seq<T>, p: T -> bool): (r: seq<T>)
    ensures |r| <= |s|
    ensures forall x :: multiset(r)[x] == if p(x) then multiset(s)[x] else 0
  {
    if s == [] then []
    else
      var rest := Filter(s[1..], p);
      assert s == [s[0]] + s[1..];
      if p(s[0]) then [s[0]] + rest else rest
  }

  /** Inserts `x` into `s` before the first element whose key is not smaller. */
  function InsertBy<T>(x: T, s: seq<T>, key: T -> int): seq<T>
  {
    if s == [] || key(x) <= key(s[0]) then [x] + s
    else [s[0]] + InsertBy(x, s[1..], key)
  }

  /** Inserting adds exactly `x` and keeps every other row. */
  lemma {:induction false} InsertByContents<T>(x: T, s: seq<T>, key: T -> int)
    ensures multiset(InsertBy(x, s, key)) == multiset(s) + multiset{x}
    ensures |InsertBy(x, s, key)| == |s| + 1
  {
    if s != [] && key(s[0]) < key(x) {
      InsertByContents(x, s[1..], key);
      assert s == [s[0]] + s[1..];
    }
  }

  /** Inserting into a sorted sequence keeps it sorted. */
  lemma {:induction false} InsertBySorted<T>(x: T, s: seq<T>, key: T -> int)
    requires SortedBy(s, key)
    ensures SortedBy(InsertBy(x, s, key), key)
  {
    if s != [] && key(s[0]) < key(x) {
      var rest := InsertBy(x, s[1..], key);
      InsertBySorted(x, s[1..], key);
      InsertByContents(x, s[1..], key);
      forall i | 0 <= i < |rest|
        ensures key(s[0]) <= key(rest[i])
      {
        assert rest[i] in multiset(rest);
        if rest[i] != x {
          assert rest[i] in multiset(s[1..]);
          var j :| 0 <= j < |s[1..]| && s[1..][j] == rest[i];
          assert s[1 + j] == rest[i];
        }
      }
    }
  }

  /** Insertion sort by `key`: one realisation of `ORDER BY key ASC`. */
  function SortBy<T>(s: seq<T>, key: T -> int): (r: seq<T>)
    ensures SortedBy(r, key)
    ensures multiset(r) == multiset(s)
    ensures |r| == |s|
  {
    if s == [] then []
    else
      var rest := SortBy(s[1..], key);
      InsertBySorted(s[0], rest, key);
      InsertByContents(s[0], rest, key);
      assert s == [s[0]] + s[1..];
      InsertBy(s[0], rest, key)
  }

  /** `LIMIT k`: the first `k` rows, or all of them when there are fewer. */
  function Take<T>(s: seq<T>, k: nat): (r: seq<T>)
    ensures |r| == if k < |s| then k else |s|
    ensures forall i :: 0 <= i < |r| ==> r[i] == s[i]
  {
    if k < |s| then s[..k] else s
  }

  /** `OFFSET n LIMIT k`: the rows from position `n` on, at most `k` of them. */
  function Page<T>(s: seq<T>, offset: nat, k: nat): (r: seq<T>)
    ensures |r| == if |s| <= offset then 0 else if k < |s| - offset then k else |s| - offset
    ensures forall i :: 0 <= i < |r| ==> r[i] == s[offset + i]
  {
    if |s| <= offset then [] else Take(s[offset..], k)
  }

  /**
   * Consecutive pages tile the rows: the page at `offset` of `k` rows followed by the page
   * right after it of `k2` rows is the page at `offset` of `k + k2` rows, so paging by a
   * fixed size neither skips nor repeats a row.
   */
  lemma PagesTile<T>(s: seq<T>, offset: nat, k: nat, k2: nat)
    ensures Page(s, offset, k) + Page(s, offset + k, k2) == Page(s, offset, k + k2)
  {
    var a, b, c := Page(s, offset, k), Page(s, offset + k, k2), Page(s, offset, k + k2);
    assert |a + b| == |c|;
    forall i | 0 <= i < |c|
      ensures (a + b)[i] == c[i]
    {
      if i >= |a| {
        assert (a + b)[i] == b[i - |a|];
      }
    }
  }

  /**
   * Taking the first rows of a sorted sequence takes the earliest ones: no row left out
   * sorts before a row taken.
   */
  lemma {:induction false} TakeIsEarliest<T>(s: seq<T>, key: T -> int, k: nat)
    requires SortedBy(s, key)
    ensures SortedBy(Take(s, k), key)
    ensures multiset(Take(s, k)) <= multiset(s)
    ensures forall x, y :: x in multiset(s) - multiset(Take(s, k)) && y in Take(s, k) ==> key(y) <= key(x)
  {
    var t := Take(s, k);
    var n := |t|;
    assert s == t + s[n..];
    assert multiset(s) == multiset(t) + multiset(s[n..]);
    assert multiset(s) - multiset(t) == multiset(s[n..]);
    forall x, y | x in multiset(s) - multiset(t) && y in t
      ensures key(y) <= key(x)
    {
      assert x in s[n..];
      var j :| 0 <= j < |s[n..]| && s[n..][j] == x;
      var i :| 0 <= i < n && t[i] == y;
      assert s[i] == y && s[n + j] == x;
    }
  }

  /** The first `k` rows of `s` that satisfy `p`, in order of `key`. */
  function FirstBy<T(==,!new)>(s: seq<T>, p: T -> bool, key: T -> int, k: nat): (r: seq<T>)
    ensures SortedBy(r, key)
    ensures |r| == if k < |Filter(s, p)| then k else |Filter(s, p)|
    ensures forall x :: x in r ==> p(x)
    ensures multiset(r) <= multiset(Filter(s, p))
    ensures forall x, y :: x in multiset(Filter(s, p)) - multiset(r) && y in r ==> key(y) <= key(x)
  {
    var sorted := SortBy(Filter(s, p), key);
    TakeIsEarliest(sorted, key, k);
    var r := Take(sorted, k);
    assert forall x :: x in r ==> x in multiset(Filter(s, p));
    r
  }

  /** A page of a sorted permutation of the matching rows is sorted and holds matching rows only. */
  lemma PageOfSorted<T>(rows: seq<T>, matching: seq<T>, offset: nat, k: nat, key: T -> int)
    requires SortedBy(rows, key) && multiset(rows) == multiset(matching)
    ensures SortedBy(Page(rows, offset, k), key)
    ensures forall x :: x in Page(rows, offset, k) ==> x in matching
  {
    var page := Page(rows, offset, k);
    forall i, j | 0 <= i < j < |page| ensures key(page[i]) <= key(page[j]) {
      assert page[i] == rows[offset + i] && page[j] == rows[offset + j];
    }
    forall x | x in page ensures x in matching {
      var i :| 0 <= i < |page| && page[i] == x;
      assert rows[offset + i] == x;
      assert x in multiset(rows);
    }
  }

  /**
   * `order by key limit k offset n` over `matching`: `r` is the window at `offset` of at most
   * `k` rows of some ordering of exactly the matching rows by `key` (the database may break
   * ties either way), so no row is repeated and the offset decides which rows come back.
   */
  ghost predicate IsPageOf<T(!new)>(r: seq<T>, matching: seq<T>, key: T -> int, offset: nat, k: nat)
  {
    exists rows :: SortedBy(rows, key) && multiset(rows) == multiset(matching) && r == Page(rows, offset, k)
  }
}
