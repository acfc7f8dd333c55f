/** Collection vocabulary for the repository queries: WHERE as `Filter`,
    ORDER BY as a key sort (descending = ascending on the negated key), and a
    Spring Data page as a slice of the ordered rows. */
module Ordering {

  // ---------------------------------------------------------------------------
  // WHERE
  // ---------------------------------------------------------------------------

  /** The rows of `s` that satisfy `p`, in table order. */
  function Filter<T(!new)>(s: seq<T>, p: T -> bool): (r: seq<T>)
    ensures |r| <= |s|
    ensures forall x :: x in r <==> x in s && p(x)
    ensures multiset(r) <= multiset(s)
  {
    if s == [] then []
    else
      assert s == [s[0]] + s[1..];
      if p(s[0]) then [s[0]] + Filter(s[1..], p) else Filter(s[1..], p)
  }

  /** A relation that holds between every earlier and every later element. */
  ghost predicate Pairwise<T>(s: seq<T>, rel: (T, T) -> bool) {
    forall i, j :: 0 <= i < j < |s| ==> rel(s[i], s[j])
  }

  /** Filtering keeps the relative order of the rows it keeps. */
  lemma {:induction false} FilterKeepsPairwise<T(!new)>(s: seq<T>, p: T -> bool, rel: (T, T) -> bool)
    requires Pairwise(s, rel)
    ensures Pairwise(Filter(s, p), rel)
  {
    if s != [] {
      var rest := s[1..];
      forall a, b | 0 <= a < b < |rest| ensures rel(rest[a], rest[b]) {
        assert rest[a] == s[a + 1] && rest[b] == s[b + 1];
      }
      FilterKeepsPairwise(rest, p, rel);
      var tail := Filter(rest, p);
      if p(s[0]) {
        var r := [s[0]] + tail;
        assert Filter(s, p) == r;
        forall i, j | 0 <= i < j < |r| ensures rel(r[i], r[j]) {
          if i > 0 {
            assert r[i] == tail[i - 1] && r[j] == tail[j - 1];
          } else {
            assert r[j] == tail[j - 1] && tail[j - 1] in tail;
            var k :| 0 <= k < |rest| && rest[k] == r[j];
            assert s[k + 1] == r[j];
          }
        }
      } else {
        assert Filter(s, p) == tail;
      }
    }
  }

  /** A row appended to a table none of whose rows satisfies `p` is the only
      row the filter keeps, when it satisfies `p`. */
  lemma {:induction false} FilterOnlyAppended<T(!new)>(s: seq<T>, x: T, p: T -> bool)
    requires forall i :: 0 <= i < |s| ==> !p(s[i])
    requires p(x)
    ensures Filter(s + [x], p) == [x]
  {
    if s == [] {
      assert [x][1..] == [];
    } else {
      assert (s + [x])[0] == s[0] && (s + [x])[1..] == s[1..] + [x];
      assert forall i :: 0 <= i < |s[1..]| ==> s[1..][i] == s[i + 1];
      FilterOnlyAppended(s[1..], x, p);
    }
  }

  /** The number of rows of `s` that satisfy `p` (SQL `COUNT`). */
  function Count<T(!new)>(s: seq<T>, p: T -> bool): (n: nat)
    ensures n == |Filter(s, p)|
  {
    |Filter(s, p)|
  }

  /** Two conditions that agree on every row of `s` select the same rows. */
  lemma {:induction false} FilterSameOn<T(!new)>(s: seq<T>, p: T -> bool, q: T -> bool)
    requires forall x :: x in s ==> (p(x) <==> q(x))
    ensures Filter(s, p) == Filter(s, q)
  {
    if s != [] {
      assert forall x :: x in s[1..] ==> x in s;
      FilterSameOn(s[1..], p, q);
    }
  }

  /** Two different positions that satisfy `p` make a count of at least two. */
  lemma {:induction false} CountAtLeastTwo<T(!new)>(s: seq<T>, p: T -> bool, i: nat, j: nat)
    requires i < j < |s| && p(s[i]) && p(s[j])
    ensures Count(s, p) >= 2
  {
    assert s == s[..j] + s[j..];
    CountConcat(s[..j], s[j..], p);
    assert s[..j][i] == s[i];
    CountExtremes(s[..j], p);
    assert s[j..][0] == s[j];
    CountExtremes(s[j..], p);
  }

  /** When no two rows both satisfy `p`, at most one row does. */
  lemma {:induction false} AtMostOneMatch<T(!new)>(s: seq<T>, p: T -> bool)
    requires forall i, j :: 0 <= i < j < |s| && p(s[i]) ==> !p(s[j])
    ensures Count(s, p) <= 1
  {
    if s != [] {
      AtMostOneMatch(s[1..], p);
      if p(s[0]) {
        forall k | 0 <= k < |s[1..]| ensures !p(s[1..][k]) {
          assert s[1..][k] == s[k + 1];
        }
        CountExtremes(s[1..], p);
      }
    }
  }

  /** A second condition can only shrink the count. */
  lemma {:induction false} CountMonotone<T(!new)>(s: seq<T>, p: T -> bool, q: T -> bool)
    requires forall x :: x in s && q(x) ==> p(x)
    ensures Count(s, q) <= Count(s, p)
  {
    if s != [] {
      CountMonotone(s[1..], p, q);
    }
  }

  /** The count over two tables is the sum of their counts. */
  lemma {:induction false} CountConcat<T(!new)>(s: seq<T>, t: seq<T>, p: T -> bool)
    ensures Count(s + t, p) == Count(s, p) + Count(t, p)
  {
    if s == [] {
      assert s + t == t;
    } else {
      assert (s + t)[0] == s[0] && (s + t)[1..] == s[1..] + t;
      CountConcat(s[1..], t, p);
    }
  }

  /** Appending a row adds one to the count exactly when the row satisfies `p`. */
  lemma CountAppend<T(!new)>(s: seq<T>, x: T, p: T -> bool)
    ensures Count(s + [x], p) == Count(s, p) + (if p(x) then 1 else 0)
  {
    CountConcat(s, [x], p);
    assert [x][1..] == [];
  }

  /** The count is the whole table exactly when every row satisfies `p`, and
      zero exactly when none does. */
  lemma CountExtremes<T(!new)>(s: seq<T>, p: T -> bool)
    ensures Count(s, p) == |s| <==> forall i :: 0 <= i < |s| ==> p(s[i])
    ensures Count(s, p) == 0 <==> forall i :: 0 <= i < |s| ==> !p(s[i])
  {
    CountAll(s, p);
    CountNone(s, p);
  }

  /** The count of a non-empty table: the first row, then the rest. */
  lemma CountUnfold<T(!new)>(s: seq<T>, p: T -> bool)
    requires s != []
    ensures Count(s, p) == (if p(s[0]) then 1 else 0) + Count(s[1..], p)
  {
  }

  lemma {:induction false} CountAll<T(!new)>(s: seq<T>, p: T -> bool)
    ensures Count(s, p) == |s| <==> forall i :: 0 <= i < |s| ==> p(s[i])
  {
    if s != [] {
      var rest := s[1..];
      CountUnfold(s, p);
      CountAll(rest, p);
      assert Count(rest, p) <= |rest|;
      if Count(s, p) == |s| {
        forall i | 0 <= i < |s| ensures p(s[i]) {
          if i > 0 { assert s[i] == rest[i - 1]; }
        }
      }
      if forall i :: 0 <= i < |s| ==> p(s[i]) {
        forall i | 0 <= i < |rest| ensures p(rest[i]) {
          assert rest[i] == s[i + 1];
        }
      }
    }
  }

  lemma {:induction false} CountNone<T(!new)>(s: seq<T>, p: T -> bool)
    ensures Count(s, p) == 0 <==> forall i :: 0 <= i < |s| ==> !p(s[i])
  {
    if s != [] {
      var rest := s[1..];
      CountUnfold(s, p);
      CountNone(rest, p);
      if Count(s, p) == 0 {
        forall i | 0 <= i < |s| ensures !p(s[i]) {
          if i > 0 { assert s[i] == rest[i - 1]; }
        }
      }
      if forall i :: 0 <= i < |s| ==> !p(s[i]) {
        forall i | 0 <= i < |rest| ensures !p(rest[i]) {
          assert rest[i] == s[i + 1];
        }
      }
    }
  }

  /** `f` applied to every row, in order: a loop that appends one result
      per row. */
  function MapSeq<A, B>(s: seq<A>, f: A -> B): (r: seq<B>)
    ensures |r| == |s|
    ensures forall i :: 0 <= i < |s| ==> r[i] == f(s[i])
    decreases |s|
  {
    if s == [] then [] else MapSeq(s[..|s| - 1], f) + [f(s[|s| - 1])]
  }

  /** One more row gives one more result at the end. */
  lemma MapSeqStep<A, B>(s: seq<A>, i: nat, f: A -> B)
    requires i < |s|
    ensures MapSeq(s[..i + 1], f) == MapSeq(s[..i], f) + [f(s[i])]
  {
    assert s[..i + 1][..i] == s[..i];
  }

  /** The results are exactly the images of the rows. */
  lemma MapSeqMembers<A, B>(s: seq<A>, f: A -> B)
    ensures forall y :: y in MapSeq(s, f) ==> exists x :: x in s && y == f(x)
    ensures forall x :: x in s ==> f(x) in MapSeq(s, f)
  {
    var r := MapSeq(s, f);
    forall x | x in s ensures f(x) in r {
      var i :| 0 <= i < |s| && s[i] == x;
      assert r[i] == f(x);
    }
    forall y | y in r ensures exists x :: x in s && y == f(x) {
      var i :| 0 <= i < |r| && r[i] == y;
      assert s[i] in s;
    }
  }

  /** The position of the first element equal to `x`. */
  function IndexOf<T(==)>(s: seq<T>, x: T): (i: nat)
    requires x in s
    ensures i < |s| && s[i] == x && x !in s[..i]
  {
    if s[0] == x then 0
    else
      assert s == [s[0]] + s[1..];
      var j := IndexOf(s[1..], x);
      assert s[..j + 1] == [s[0]] + s[1..][..j];
      j + 1
  }

  /** `List.remove(Object)`: drops the first element equal to `x`, if any. */
  function RemoveFirst<T(==)>(s: seq<T>, x: T): (r: seq<T>)
    ensures x !in s ==> r == s
    ensures x in s ==> |r| == |s| - 1 && multiset(r) == multiset(s) - multiset{x}
    ensures x in s ==> r == s[..IndexOf(s, x)] + s[IndexOf(s, x) + 1..]
  {
    if x in s then
      var i := IndexOf(s, x);
      assert s == s[..i] + [x] + s[i + 1..];
      s[..i] + s[i + 1..]
    else s
  }

  /** Removing an element lowers the count by one exactly when it was present and
      satisfies `p`. */
  lemma CountRemoveFirst<T(!new)>(s: seq<T>, x: T, p: T -> bool)
    ensures Count(RemoveFirst(s, x), p) == Count(s, p) - (if x in s && p(x) then 1 else 0)
  {
    if x in s {
      var i := IndexOf(s, x);
      assert s == s[..i] + ([x] + s[i + 1..]);
      CountConcat(s[..i], [x] + s[i + 1..], p);
      CountConcat([x], s[i + 1..], p);
      CountConcat(s[..i], s[i + 1..], p);
      assert [x][1..] == [];
    }
  }

  // ---------------------------------------------------------------------------
  // ORDER BY
  // ---------------------------------------------------------------------------

  ghost predicate SortedByKey<T>(s: seq<T>, key: T -> int) {
    forall i, j :: 0 <= i < j < |s| ==> key(s[i]) <= key(s[j])
  }

  /** Inserts `x` before the first row whose key is not smaller. */
  function InsertByKey<T(!new)>(x: T, s: seq<T>, key: T -> int): (r: seq<T>)
    requires SortedByKey(s, key)
    ensures SortedByKey(r, key)
    ensures multiset(r) == multiset(s) + multiset{x}
  {
    if s == [] || key(x) <= key(s[0]) then [x] + s
    else
      var tail := InsertByKey(x, s[1..], key);
      InsertByKeyHead(x, s, key, tail);
      assert s == [s[0]] + s[1..];
      [s[0]] + tail
  }

  /** The head of a sorted `s` is not above anything of `tail`, when `tail` is
      `x` inserted into the rest of `s` and `x` is above the head. */
  lemma InsertByKeyHead<T>(x: T, s: seq<T>, key: T -> int, tail: seq<T>)
    requires SortedByKey(s, key) && s != [] && key(s[0]) < key(x)
    requires SortedByKey(tail, key)
    requires multiset(tail) == multiset(s[1..]) + multiset{x}
    ensures SortedByKey([s[0]] + tail, key)
  {
    var r := [s[0]] + tail;
    forall j | 1 <= j < |r| ensures key(s[0]) <= key(r[j]) {
      var y := tail[j - 1];
      assert y in multiset(tail);
      if y != x {
        assert y in multiset(s[1..]);
        var k :| 0 <= k < |s[1..]| && s[1..][k] == y;
        assert s[k + 1] == y;
      }
    }
    forall i, j | 0 <= i < j < |r| ensures key(r[i]) <= key(r[j]) {
      if i > 0 {
        assert r[i] == tail[i - 1] && r[j] == tail[j - 1];
      }
    }
  }

  /** The rows of `s` ordered by ascending key; rows with equal keys keep table order. */
  function SortByKey<T(!new)>(s: seq<T>, key: T -> int): (r: seq<T>)
    ensures SortedByKey(r, key)
    ensures multiset(r) == multiset(s)
  {
    if s == [] then []
    else
      assert s == [s[0]] + s[1..];
      InsertByKey(s[0], SortByKey(s[1..], key), key)
  }

  /** `SELECT ... WHERE p ORDER BY key`: the rows satisfying `p`, ascending by
      `key`, rows with equal keys in table order. */
  function OrderedFilter<T(!new)>(s: seq<T>, p: T -> bool, key: T -> int): (r: seq<T>)
    ensures forall x :: x in r <==> x in s && p(x)
    ensures SortedByKey(r, key)
    ensures multiset(r) <= multiset(s)
    ensures |r| == Count(s, p)
  {
    var rows := Filter(s, p);
    var r := SortByKey(rows, key);
    SameRows(r, rows);
    r
  }

  /** `ORDER BY key LIMIT limit`: the first `limit` rows that satisfy `p` in
      key order; every row left out comes after every row kept. */
  function FirstInOrder<T(!new)>(s: seq<T>, p: T -> bool, key: T -> int, limit: nat): (r: seq<T>)
    ensures |r| == Min(limit, Count(s, p))
    ensures forall x :: x in r ==> x in s && p(x)
    ensures SortedByKey(r, key)
    ensures forall x, i :: 0 <= i < |r| && x in s && p(x) && x !in r ==> key(r[i]) <= key(x)
  {
    var rows := OrderedFilter(s, p, key);
    var n := Min(limit, |rows|);
    PrefixOfSorted(rows, key, n);
    rows[..n]
  }

  /** A prefix of a sorted table is sorted, holds rows of the table, and
      every row outside it comes after every row in it. */
  lemma PrefixOfSorted<T>(rows: seq<T>, key: T -> int, n: nat)
    requires n <= |rows| && SortedByKey(rows, key)
    ensures SortedByKey(rows[..n], key)
    ensures forall x :: x in rows[..n] ==> x in rows
    ensures forall x, i :: 0 <= i < n && x in rows && x !in rows[..n] ==> key(rows[..n][i]) <= key(x)
  {
    forall x, i | 0 <= i < n && x in rows && x !in rows[..n] ensures key(rows[..n][i]) <= key(x) {
      var k :| 0 <= k < |rows| && rows[k] == x;
      assert rows[..n][i] == rows[i];
    }
  }

  /** The first row of a sorted table has the least key. */
  lemma HeadIsLeast<T>(rows: seq<T>, key: T -> int)
    requires rows != [] && SortedByKey(rows, key)
    ensures forall x :: x in rows ==> key(rows[0]) <= key(x)
  {
    forall x | x in rows ensures key(rows[0]) <= key(x) {
      var k :| 0 <= k < |rows| && rows[k] == x;
    }
  }

  /** A sorted permutation holds exactly the rows it was built from. */
  lemma SameRows<T>(r: seq<T>, s: seq<T>)
    requires multiset(r) == multiset(s)
    ensures |r| == |s|
    ensures forall x :: x in r <==> x in s
  {
    assert |multiset(r)| == |multiset(s)|;
    forall x ensures x in r <==> x in s {
      assert x in r <==> x in multiset(r);
      assert x in s <==> x in multiset(s);
    }
  }

  /** A sequence with no repeated element holds each value at most once. */
  lemma {:induction false} DistinctCountsAtMostOne<T>(s: seq<T>)
    requires forall i, j :: 0 <= i < j < |s| ==> s[i] != s[j]
    ensures forall x :: multiset(s)[x] <= 1
  {
    if s != [] {
      DistinctCountsAtMostOne(s[1..]);
      assert s == [s[0]] + s[1..];
      assert s[0] !in s[1..];
      assert multiset(s) == multiset{s[0]} + multiset(s[1..]);
    }
  }

  // ---------------------------------------------------------------------------
  // Pageable / Page
  // ---------------------------------------------------------------------------

  /** A `PageRequest`: page index and page size (Spring refuses a negative index
      or a size below one). */
  datatype Pageable = Pageable(page: nat, size: nat) {
    /** `Pageable.getOffset`: the position of the page's first row. */
    function Offset(): nat { page * size }
  }

  /** A `Page`: the content of the requested slice and the paging metadata. */
  datatype Page<T> = Page(content: seq<T>, number: nat, size: nat, totalElements: nat) {
    /** `PageImpl.getTotalPages`. */
    function TotalPages(): nat {
      if size == 0 then 1 else (totalElements + size - 1) / size
    }
    predicate HasNext() {
      number + 1 < TotalPages()
    }
    predicate HasPrevious() {
      number > 0
    }
  }

  function Min(a: int, b: int): int {
    if a <= b then a else b
  }

  /** `content` is the slice of the ordered `rows` that `p` selects, as
      `LIMIT size OFFSET page * size` cuts it: entry `k` is row `offset + k`,
      and the slice runs for the page size or to the last row, whichever
      comes first; past the last row it is empty. */
  ghost predicate IsSliceOf<T>(content: seq<T>, rows: seq<T>, p: Pageable) {
    && |content| == (if p.Offset() < |rows| then Min(p.size, |rows| - p.Offset()) else 0)
    && forall k :: 0 <= k < |content| ==> p.Offset() + k < |rows| && content[k] == rows[p.Offset() + k]
  }

  /** The page of the ordered rows `s` that `p` asks for. */
  function PageOf<T>(s: seq<T>, p: Pageable): (r: Page<T>)
    requires p.size >= 1
    ensures r.number == p.page && r.size == p.size && r.totalElements == |s|
    ensures |r.content| <= p.size
    ensures IsSliceOf(r.content, s, p)
    ensures forall k :: 0 <= k < |r.content| ==> p.Offset() + k < |s| && r.content[k] == s[p.Offset() + k]
    ensures p.Offset() < |s| ==> |r.content| == Min(p.size, |s| - p.Offset())
    ensures p.Offset() >= |s| ==> r.content == []
  {
    var lo := Min(p.Offset(), |s|);
    var hi := Min(lo + p.size, |s|);
    Page(s[lo..hi], p.page, p.size, |s|)
  }

  /** Every row lands on a page: row `i` is entry `i % size` of the slice
      for page `i / size`. */
  lemma SliceCoversRow<T>(content: seq<T>, rows: seq<T>, size: nat, i: nat)
    requires size >= 1 && i < |rows| && IsSliceOf(content, rows, Pageable(i / size, size))
    ensures i % size < |content| && content[i % size] == rows[i]
  {
    var p := Pageable(i / size, size);
    assert p.Offset() + i % size == i;
    assert p.Offset() < |rows|;
  }

  /** The same slice of the rows, after each row is mapped. */
  lemma SliceOfMapped<A, B>(content: seq<A>, rows: seq<A>, p: Pageable, f: A -> B)
    requires IsSliceOf(content, rows, p)
    ensures IsSliceOf(MapSeq(content, f), MapSeq(rows, f), p)
  {
  }

  /** A page holds no row twice when the ordered rows hold none twice. */
  lemma PageKeepsDistinct<T>(s: seq<T>, p: Pageable)
    requires p.size >= 1
    requires forall x :: multiset(s)[x] <= 1
    ensures forall x :: multiset(PageOf(s, p).content)[x] <= 1
  {
    var lo := Min(p.Offset(), |s|);
    var hi := Min(lo + p.size, |s|);
    assert s == s[..lo] + s[lo..hi] + s[hi..];
    assert multiset(s) == multiset(s[..lo]) + multiset(s[lo..hi]) + multiset(s[hi..]);
    forall x ensures multiset(s[lo..hi])[x] <= 1 {
      assert multiset(s[lo..hi])[x] <= multiset(s)[x];
    }
  }

  /** `SELECT ... WHERE p ORDER BY key` with a `Pageable`: one page of the
      ordered rows, and the number of rows on all pages together. */
  function OrderedPage<T(!new)>(s: seq<T>, p: T -> bool, key: T -> int, pageable: Pageable): (r: Page<T>)
    requires pageable.size >= 1
    ensures forall x :: x in r.content ==> x in s && p(x)
    ensures SortedByKey(r.content, key)
    ensures r.totalElements == Count(s, p)
    ensures r.number == pageable.page && r.size == pageable.size && |r.content| <= pageable.size
    ensures pageable.Offset() < Count(s, p) ==> r.content != []
    ensures IsSliceOf(r.content, OrderedFilter(s, p, key), pageable)
  {
    var rows := OrderedFilter(s, p, key);
    var r := PageOf(rows, pageable);
    PageInside(rows, pageable, key);
    r
  }

  /** Row `i` of the ordered matches is entry `i % size` of page `i / size`. */
  lemma OrderedPageCoversRow<T(!new)>(s: seq<T>, p: T -> bool, key: T -> int, size: nat, i: nat)
    requires size >= 1 && i < Count(s, p)
    ensures var page := OrderedPage(s, p, key, Pageable(i / size, size)).content;
      i % size < |page| && page[i % size] == OrderedFilter(s, p, key)[i]
  {
    SliceCoversRow(OrderedPage(s, p, key, Pageable(i / size, size)).content, OrderedFilter(s, p, key), size, i);
  }

  /** A page holds rows of what it was cut from, in the same order. */
  lemma PageInside<T>(s: seq<T>, p: Pageable, key: T -> int)
    requires p.size >= 1
    ensures forall x :: x in PageOf(s, p).content ==> x in s
    ensures SortedByKey(s, key) ==> SortedByKey(PageOf(s, p).content, key)
  {
    var c := PageOf(s, p).content;
    var o := p.Offset();
    forall x | x in c ensures x in s {
      var k :| 0 <= k < |c| && c[k] == x;
      assert s[o + k] == x;
    }
    if SortedByKey(s, key) {
      forall i, j | 0 <= i < j < |c| ensures key(c[i]) <= key(c[j]) {
        assert c[i] == s[o + i] && c[j] == s[o + j];
      }
    }
  }
}
