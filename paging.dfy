/**
 The listing arithmetic shared by the three paginated handlers: the query
 defaults, the sort direction read from `sort`, `ORDER BY … LIMIT … OFFSET …`
 and the page count `ceil(total / limit)`.
 */
module Paging {
  import opened Optional

  datatype Direction = Asc | Desc

  const DefaultLimit: nat := 10
  const DefaultPage: nat := 1
  const DefaultSort: string := "desc"

  /** The `limit`, `page` and `sort` query parameters, each possibly absent. */
  datatype PageQuery = PageQuery(limit: Option<nat>, page: Option<nat>, sort: Option<string>)
  {
    function Limit(): nat { if limit.Some? then limit.value else DefaultLimit }
    function Page(): nat { if page.Some? then page.value else DefaultPage }
    function Sort(): string { if sort.Some? then sort.value else DefaultSort }
  }

  /** `a` may come before `b` in a column sorted in direction `dir`. */
  predicate InOrder(dir: Direction, a: int, b: int) {
    if dir == Asc then a <= b else a >= b
  }

  ghost predicate Ordered<T>(s: seq<T>, key: T -> int, dir: Direction) {
    forall i, j :: 0 <= i < j < |s| ==> InOrder(dir, key(s[i]), key(s[j]))
  }

  /** Lower-cases the ASCII capitals, as `toLowerCase` does for them. */
  function LowerAscii(c: char): char {
    if 'A' <= c <= 'Z' then (c as int - 'A' as int + 'a' as int) as char else c
  }

  function Lower(s: string): (r: string)
    ensures |r| == |s| && forall i :: 0 <= i < |s| ==> r[i] == LowerAscii(s[i])
  {
    seq(|s|, i requires 0 <= i < |s| => LowerAscii(s[i]))
  }

  /** Lower-casing leaves no ASCII capital behind, so doing it twice is doing it once. */
  lemma LowerIdempotent(s: string)
    ensures forall i :: 0 <= i < |s| ==> !('A' <= Lower(s)[i] <= 'Z')
    ensures Lower(Lower(s)) == Lower(s)
  {
    var once := Lower(s);
    forall i | 0 <= i < |s| ensures Lower(once)[i] == once[i] {
      assert !('A' <= once[i] <= 'Z');
    }
  }

  /** `sort.toLowerCase() === "asc" ? "ASC" : "DESC"`: ascending exactly for "asc" in any letter case. */
  function OrderDirection(sort: string): (d: Direction)
    ensures d == Asc <==>
      |sort| == 3 && sort[0] in "aA" && sort[1] in "sS" && sort[2] in "cC"
  {
    var lower := Lower(sort);
    assert lower == "asc" <==> |lower| == 3 && lower[0] == 'a' && lower[1] == 's' && lower[2] == 'c' by {
      if |lower| == 3 && lower[0] == 'a' && lower[1] == 's' && lower[2] == 'c' {
        assert lower == "asc";
      }
    }
    if lower == "asc" then Asc else Desc
  }

  /** Places `x` into a sorted column behind every row it does not precede. */
  function Insert<T>(x: T, s: seq<T>, key: T -> int, dir: Direction): (r: seq<T>)
    requires Ordered(s, key, dir)
    ensures Ordered(r, key, dir)
    ensures multiset(r) == multiset(s) + multiset{x}
    ensures r[0] == x || (|s| > 0 && r[0] == s[0])
  {
    if s == [] || InOrder(dir, key(x), key(s[0])) then
      [x] + s
    else
      var rest := Insert(x, s[1..], key, dir);
      assert s == [s[0]] + s[1..];
      [s[0]] + rest
  }

  /** `ORDER BY key dir`: a sorted permutation of the rows (rows with equal keys keep table order). */
  function SortBy<T>(s: seq<T>, key: T -> int, dir: Direction): (r: seq<T>)
    ensures Ordered(r, key, dir)
    ensures multiset(r) == multiset(s)
    ensures |r| == |s|
  {
    if s == [] then []
    else
      assert s == [s[0]] + s[1..];
      Insert(s[0], SortBy(s[1..], key, dir), key, dir)
  }

  function Min(a: nat, b: nat): nat { if a <= b then a else b }

  /** `LIMIT limit OFFSET offset`: the rows at positions `offset`, `offset + 1`, … while fewer than `limit`. */
  function Slice<T>(s: seq<T>, offset: nat, limit: nat): (r: seq<T>)
    ensures |r| == if offset < |s| then Min(limit, |s| - offset) else 0
    ensures forall i :: 0 <= i < |r| ==> r[i] == s[offset + i]
  {
    if offset < |s| then s[offset .. offset + Min(limit, |s| - offset)] else []
  }

  /** A run of `a` rows followed by the next run of `b` rows is the run of `a + b` rows. */
  lemma SliceSplit<T>(s: seq<T>, offset: nat, a: nat, b: nat)
    ensures Slice(s, offset, a) + Slice(s, offset + a, b) == Slice(s, offset, a + b)
  {
    var left := Slice(s, offset, a);
    var right := Slice(s, offset + a, b);
    var whole := Slice(s, offset, a + b);
    assert |left + right| == |whole|;
    forall k | 0 <= k < |whole| ensures (left + right)[k] == whole[k] {
      if k >= |left| {
        assert left == Slice(s, offset, a);
        assert |left| == a;
        assert right[k - a] == s[offset + a + (k - a)];
      }
    }
  }

  /** `(page - 1) * limit`: the rows that the earlier pages hold. */
  function Offset(page: nat, limit: nat): nat
    requires page >= 1
  {
    (page - 1) * limit
  }

  /** `Math.ceil(total / limit)`: the fewest pages of `limit` rows that hold `total` rows. */
  function TotalPages(total: nat, limit: nat): (n: nat)
    requires limit > 0
    ensures n * limit >= total
    ensures n == 0 || (n - 1) * limit < total
  {
    var n := (total + limit - 1) / limit;
    assert n * limit + (total + limit - 1) % limit == total + limit - 1;
    assert n > 0 ==> (n - 1) * limit == n * limit - limit;
    n
  }

  /** The page a listing handler returns: the `page`-th run of `limit` rows of the sorted table. */
  function PageOf<T>(s: seq<T>, key: T -> int, dir: Direction, page: nat, limit: nat): seq<T>
    requires page >= 1
  {
    Slice(SortBy(s, key, dir), Offset(page, limit), limit)
  }

  lemma MulMonotone(a: nat, b: nat, k: nat)
    requires a <= b
    ensures a * k <= b * k
  {
  }

  /** A run of consecutive rows takes each of them from the table. */
  lemma SliceIsPart<T>(s: seq<T>, offset: nat, limit: nat)
    ensures multiset(Slice(s, offset, limit)) <= multiset(s)
  {
    if offset < |s| {
      var end := offset + Min(limit, |s| - offset);
      assert s == s[..offset] + s[offset..end] + s[end..];
      assert multiset(s) == multiset(s[..offset]) + multiset(s[offset..end]) + multiset(s[end..]);
    }
  }

  /** A page is ordered, holds no more than `limit` rows, and each of them comes from the table. */
  lemma PageIsOrderedPart<T>(s: seq<T>, key: T -> int, dir: Direction, page: nat, limit: nat)
    requires page >= 1
    ensures Ordered(PageOf(s, key, dir, page, limit), key, dir)
    ensures |PageOf(s, key, dir, page, limit)| <= limit
    ensures multiset(PageOf(s, key, dir, page, limit)) <= multiset(s)
  {
    var sorted := SortBy(s, key, dir);
    var off := Offset(page, limit);
    var p := PageOf(s, key, dir, page, limit);
    assert forall i :: 0 <= i < |p| ==> p[i] == sorted[off + i];
    SliceIsPart(sorted, off, limit);
  }

  /** A page has rows exactly when its number does not exceed the page count. */
  lemma PageNonEmptyIff<T>(s: seq<T>, key: T -> int, dir: Direction, page: nat, limit: nat)
    requires page >= 1 && limit > 0
    ensures PageOf(s, key, dir, page, limit) != [] <==> page <= TotalPages(|s|, limit)
  {
    var n := TotalPages(|s|, limit);
    if page <= n {
      MulMonotone(page - 1, n - 1, limit);
    } else {
      MulMonotone(n, page - 1, limit);
    }
  }

  /** Row `i` of the sorted table is row `i % limit` of page `i / limit + 1`, a page within the count. */
  lemma ElementOnPage<T>(s: seq<T>, key: T -> int, dir: Direction, limit: nat, i: nat)
    requires limit > 0 && i < |s|
    ensures var page := i / limit + 1;
      page <= TotalPages(|s|, limit) &&
      i % limit < |PageOf(s, key, dir, page, limit)| &&
      PageOf(s, key, dir, page, limit)[i % limit] == SortBy(s, key, dir)[i]
  {
    var page := i / limit + 1;
    assert Offset(page, limit) + i % limit == i;
    PageNonEmptyIff(s, key, dir, page, limit);
  }

  /** Every row on an earlier page may precede every row on a later one. */
  lemma PagesInOrder<T>(s: seq<T>, key: T -> int, dir: Direction, p: nat, q: nat, limit: nat, i: nat, j: nat)
    requires 1 <= p < q
    requires i < |PageOf(s, key, dir, p, limit)| && j < |PageOf(s, key, dir, q, limit)|
    ensures InOrder(dir, key(PageOf(s, key, dir, p, limit)[i]), key(PageOf(s, key, dir, q, limit)[j]))
  {
    MulMonotone(p, q - 1, limit);
    assert Offset(p, limit) + i < Offset(q, limit) + j;
  }
}
