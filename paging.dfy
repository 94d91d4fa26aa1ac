/** What the handler asks of the store with the built filter: the count of
    matching documents, and a page of them cut with skip and limit; plus the
    page count returned to the client. The collection is a sequence in its
    natural (insertion) order, read once for both questions. */
module Paging {
  import opened Blogs
  import opened SearchFilter

  function Min(a: int, b: int): int { if a <= b then a else b }
  function Max(a: int, b: int): int { if a >= b then a else b }

  /** `Blog.find(filter)` before skip and limit: the matching documents, in
      collection order. */
  function Find(f: Filter, coll: seq<Blog>): (r: seq<Blog>)
    ensures |r| <= |coll|
    ensures forall b :: b in r ==> b in coll
  {
    if coll == [] then []
    else (if Matches(f, coll[0]) then [coll[0]] else []) + Find(f, coll[1..])
  }

  /** `Blog.countDocuments(filter)`. */
  function CountDocuments(f: Filter, coll: seq<Blog>): (n: nat)
    ensures n <= |coll|
  {
    if coll == [] then 0
    else (if Matches(f, coll[0]) then 1 else 0) + CountDocuments(f, coll[1..])
  }

  /** The count reported as `totalBlogs` is the number of documents `find`
      returns for the same filter. */
  lemma {:induction false} CountIsFindLength(f: Filter, coll: seq<Blog>)
    ensures CountDocuments(f, coll) == |Find(f, coll)|
  {
    if coll != [] {
      CountIsFindLength(f, coll[1..]);
    }
  }

  /** `find` keeps collection order: the matches of a concatenation are the
      matches of each part, in turn. */
  lemma {:induction false} FindAppend(f: Filter, a: seq<Blog>, b: seq<Blog>)
    ensures Find(f, a + b) == Find(f, a) + Find(f, b)
  {
    if a == [] {
      assert a + b == b;
    } else {
      assert (a + b)[1..] == a[1..] + b;
      FindAppend(f, a[1..], b);
    }
  }

  /** `find` returns every matching document and nothing else. */
  lemma {:induction false} FindMembership(f: Filter, coll: seq<Blog>, b: Blog)
    ensures b in Find(f, coll) <==> b in coll && Matches(f, b)
  {
    if coll != [] {
      FindMembership(f, coll[1..], b);
      assert coll == [coll[0]] + coll[1..];
    }
  }

  /** The empty filter selects the whole collection. */
  lemma {:induction false} FindMatchAll(coll: seq<Blog>)
    ensures Find(MatchAll, coll) == coll
    ensures CountDocuments(MatchAll, coll) == |coll|
  {
    if coll != [] {
      FindMatchAll(coll[1..]);
      assert coll == [coll[0]] + coll[1..];
    }
  }

  /** `.skip(n)`: drops the first `n` results, or all of them when there are
      fewer. */
  function Skip(s: seq<Blog>, n: nat): (r: seq<Blog>)
    ensures |r| == Max(0, |s| - n)
    ensures forall i :: 0 <= i < |r| ==> r[i] == s[n + i]
  {
    if n <= |s| then s[n..] else []
  }

  /** `.limit(n)` for a positive `n`: keeps at most the first `n` results. */
  function Limit(s: seq<Blog>, n: nat): (r: seq<Blog>)
    requires n >= 1
    ensures |r| == Min(n, |s|)
    ensures forall i :: 0 <= i < |r| ==> r[i] == s[i]
  {
    if n <= |s| then s[..n] else s
  }

  /** The number of results skipped before page `page`: nothing before the
      first page, at least one whole page before any later one. */
  function Offset(page: int, limit: int): (n: nat)
    requires page >= 1 && limit >= 1
    ensures n == 0 <==> page == 1
    ensures page > 1 ==> n >= limit
  {
    (page - 1) * limit
  }

  /** The page the handler returns: skip `Offset(page, limit)` matches, then
      take at most `limit`. Its length and its items are determined by the
      position of the page. */
  function PageOf(matches: seq<Blog>, page: int, limit: int): (r: seq<Blog>)
    requires page >= 1 && limit >= 1
    ensures |r| == Min(limit, Max(0, |matches| - Offset(page, limit)))
    ensures forall i :: 0 <= i < |r| ==> r[i] == matches[Offset(page, limit) + i]
    ensures Offset(page, limit) >= |matches| ==> r == []
  {
    Limit(Skip(matches, Offset(page, limit)), limit)
  }

  /** `Math.ceil(total / limit)` on integers: the fewest pages of `limit`
      items that hold `total` items. */
  function CeilDiv(total: nat, limit: int): (pages: nat)
    requires limit >= 1
    ensures total <= pages * limit
    ensures pages == 0 || (pages - 1) * limit < total
    ensures pages == 0 <==> total == 0
  {
    (total + limit - 1) / limit
  }

  lemma MulMonotone(x: int, y: int, k: int)
    requires x <= y && k >= 0
    ensures x * k <= y * k
  {
  }

  /** A page has items exactly when its number is at most the page count. */
  lemma PageNonEmptyIff(matches: seq<Blog>, page: int, limit: int)
    requires page >= 1 && limit >= 1
    ensures PageOf(matches, page, limit) != [] <==> page <= CeilDiv(|matches|, limit)
  {
    var pages := CeilDiv(|matches|, limit);
    if page <= pages {
      MulMonotone(page - 1, pages - 1, limit);
    } else {
      MulMonotone(pages, page - 1, limit);
    }
  }

  /** Every match appears on some page: the `k`-th match is item
      `k % limit` of page `k / limit + 1`, a page within the page count. */
  lemma PageLocation(matches: seq<Blog>, limit: int, k: int)
    requires limit >= 1 && 0 <= k < |matches|
    ensures 1 <= k / limit + 1 <= CeilDiv(|matches|, limit)
    ensures k % limit < |PageOf(matches, k / limit + 1, limit)|
    ensures PageOf(matches, k / limit + 1, limit)[k % limit] == matches[k]
  {
    var p := k / limit + 1;
    assert k == (p - 1) * limit + k % limit;
    PageNonEmptyIff(matches, p, limit);
  }
}
