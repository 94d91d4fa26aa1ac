/** The `GET /api/search` handler: request defaults, the filter, the count,
    the page and the pagination fields of the JSON response. */
module SearchHandler {
  import opened Blogs
  import opened Text
  import opened SearchFilter
  import opened Paging

  /** The request parameters; an absent parameter is `None`. `page` and
      `limit` are the integers `parseInt` produced. */
  datatype Request = Request(
    query: Option<string>,
    category: Option<string>,
    page: Option<int>,
    limit: Option<int>)

  /** The success body: `{ blogs, totalBlogs, currentPage, totalPages }`. */
  datatype Response = Response(
    blogs: seq<Blog>,
    totalBlogs: nat,
    currentPage: int,
    totalPages: nat)

  const DefaultPage := 1
  const DefaultLimit := 6

  /** `query = ""` and `category = ""`: an absent text reads as empty (see
      `AbsentParameterDefaults`). */
  function QueryText(req: Request): string { req.query.GetOr("") }
  function CategoryText(req: Request): string { req.category.GetOr("") }

  /** `page = 1`: an absent page reads as the first page, a present one as
      given. */
  function PageNum(req: Request): (p: int)
    ensures req.page.None? ==> p == 1
    ensures req.page.Some? ==> p == req.page.value
  {
    req.page.GetOr(DefaultPage)
  }

  /** `limit = 6`: an absent limit reads as pages of six, a present one as
      given. */
  function LimitNum(req: Request): (l: int)
    ensures req.limit.None? ==> l == 6
    ensures req.limit.Some? ==> l == req.limit.value
  {
    req.limit.GetOr(DefaultLimit)
  }

  function RequestFilter(req: Request): Filter {
    Build(QueryText(req), CategoryText(req))
  }

  /** One search against one unchanged collection: `totalBlogs` counts the
      documents `find` returns for the request's filter, `blogs` is the
      requested page of them, and `totalPages` the page count. */
  function Search(coll: seq<Blog>, req: Request): (resp: Response)
    requires PageNum(req) >= 1 && LimitNum(req) >= 1
    ensures resp.currentPage == PageNum(req)
    ensures resp.totalBlogs == |Find(RequestFilter(req), coll)|
    ensures resp.blogs == PageOf(Find(RequestFilter(req), coll), PageNum(req), LimitNum(req))
    ensures resp.totalPages == CeilDiv(resp.totalBlogs, LimitNum(req))
  {
    var f := RequestFilter(req);
    var limit := LimitNum(req);
    var totalBlogs := CountDocuments(f, coll);
    CountIsFindLength(f, coll);
    var blogs := PageOf(Find(f, coll), PageNum(req), limit);
    Response(blogs, totalBlogs, PageNum(req), CeilDiv(totalBlogs, limit))
  }

  /** The page returned: `Offset(page, limit)` matches are skipped, and the
      next `min(limit, max(0, totalBlogs - Offset(page, limit)))` matches are
      returned in collection order. */
  lemma SearchPageItems(coll: seq<Blog>, req: Request)
    requires PageNum(req) >= 1 && LimitNum(req) >= 1
    ensures var resp := Search(coll, req);
            var offset := Offset(PageNum(req), LimitNum(req));
            |resp.blogs| == Min(LimitNum(req), Max(0, resp.totalBlogs - offset))
            && (offset >= resp.totalBlogs ==> resp.blogs == [])
            && forall i :: 0 <= i < |resp.blogs| ==>
                 offset + i < resp.totalBlogs
                 && resp.blogs[i] == Find(RequestFilter(req), coll)[offset + i]
  {
    var resp := Search(coll, req);
    var matches := Find(RequestFilter(req), coll);
    var page, limit := PageNum(req), LimitNum(req);
    var offset := Offset(page, limit);
    var items := PageOf(matches, page, limit);
    assert resp.blogs == items && resp.totalBlogs == |matches|;
    assert |items| == Min(limit, Max(0, |matches| - offset));
    forall i | 0 <= i < |items|
      ensures offset + i < |matches| && items[i] == matches[offset + i]
    {
    }
  }

  /** `totalPages` is the ceiling of `totalBlogs / limit`: the fewest pages
      of `limit` items that hold every match, zero exactly when nothing
      matches. */
  lemma SearchPageCount(coll: seq<Blog>, req: Request)
    requires PageNum(req) >= 1 && LimitNum(req) >= 1
    ensures var resp := Search(coll, req);
            resp.totalBlogs <= resp.totalPages * LimitNum(req)
            && (resp.totalPages == 0 || (resp.totalPages - 1) * LimitNum(req) < resp.totalBlogs)
            && (resp.totalPages == 0 <==> resp.totalBlogs == 0)
  {
    var resp := Search(coll, req);
    assert resp.totalPages == CeilDiv(resp.totalBlogs, LimitNum(req));
  }

  /** The requested page has items exactly when its number is at most
      `totalPages`. */
  lemma SearchPageNonEmpty(coll: seq<Blog>, req: Request)
    requires PageNum(req) >= 1 && LimitNum(req) >= 1
    ensures var resp := Search(coll, req);
            resp.blogs != [] <==> resp.currentPage <= resp.totalPages
  {
    var resp := Search(coll, req);
    var matches := Find(RequestFilter(req), coll);
    PageNonEmptyIff(matches, PageNum(req), LimitNum(req));
    assert resp.blogs == PageOf(matches, PageNum(req), LimitNum(req));
    assert resp.totalPages == CeilDiv(|matches|, LimitNum(req));
  }

  /** Every returned document is in the collection and matches the filter
      built from the request. */
  lemma SearchReturnsMatches(coll: seq<Blog>, req: Request, b: Blog)
    requires PageNum(req) >= 1 && LimitNum(req) >= 1
    requires b in Search(coll, req).blogs
    ensures b in coll && Matches(RequestFilter(req), b)
  {
    var blogs := Search(coll, req).blogs;
    var i :| 0 <= i < |blogs| && blogs[i] == b;
    var matches := Find(RequestFilter(req), coll);
    assert b in matches;
    FindMembership(RequestFilter(req), coll, b);
  }

  /** Absent parameters take their defaults: no text, no category, page 1
      and pages of six. */
  lemma AbsentParameterDefaults(coll: seq<Blog>, req: Request)
    requires PageNum(req) >= 1 && LimitNum(req) >= 1
    ensures req.query.None? ==> QueryText(req) == ""
    ensures req.query.Some? ==> QueryText(req) == req.query.value
    ensures req.category.None? ==> CategoryText(req) == ""
    ensures req.category.Some? ==> CategoryText(req) == req.category.value
    ensures req.page.None? ==> PageNum(req) == 1
    ensures req.page.Some? ==> PageNum(req) == req.page.value
    ensures req.limit.None? ==> LimitNum(req) == 6
    ensures req.limit.Some? ==> LimitNum(req) == req.limit.value
    ensures var explicit := Request(Some(QueryText(req)), Some(CategoryText(req)),
                                    Some(PageNum(req)), Some(LimitNum(req)));
            Search(coll, req) == Search(coll, explicit)
  {
  }

  /** A request whose query and category are absent or blank, with page and
      limit at their defaults, returns the first six documents of the whole
      collection, the collection size, page 1 and the page count for pages
      of six. */
  lemma DefaultRequest(coll: seq<Blog>, req: Request)
    requires AllWhitespace(QueryText(req)) && AllWhitespace(CategoryText(req))
    requires PageNum(req) == 1 && LimitNum(req) == 6
    ensures Search(coll, req) == Response(coll[..Min(6, |coll|)], |coll|, 1, CeilDiv(|coll|, 6))
  {
    BlankInputsMatchAll(QueryText(req), CategoryText(req));
    assert RequestFilter(req) == MatchAll;
    FindMatchAll(coll);
    var page := PageOf(coll, 1, 6);
    assert page == coll[..Min(6, |coll|)];
    assert Search(coll, req).blogs == page;
  }

  /** Fourteen matches in pages of six: pages 1 and 3 hold six and two items,
      page 4 is empty, and there are three pages. */
  lemma FourteenMatches(coll: seq<Blog>, query: string, category: string)
    requires |Find(Build(query, category), coll)| == 14
    ensures var r1 := Search(coll, Request(Some(query), Some(category), Some(1), Some(6)));
            |r1.blogs| == 6 && r1.totalBlogs == 14 && r1.totalPages == 3
    ensures |Search(coll, Request(Some(query), Some(category), Some(3), Some(6))).blogs| == 2
    ensures var r4 := Search(coll, Request(Some(query), Some(category), Some(4), Some(6)));
            r4.blogs == [] && r4.totalPages == 3
  {
  }

  /** The query "Tech" with no category becomes the text clause "Tech"
      alone. */
  lemma TechFilter()
    ensures Build("Tech", "") == Filter(Some("Tech"), None)
  {
    assert TrimStart("Tech") == "Tech";
    assert TrimEnd("Tech") == "Tech";
  }

  /** Case-insensitivity: that filter finds a title "tech trends". */
  lemma QueryIgnoresCase()
    ensures Matches(Filter(Some("Tech"), None), Blog(None, Some("tech trends"), Some(""), None, 0))
  {
    var title := "tech trends";
    assert title[0..4] == "tech";
    assert Lower('T') == 't';
    LowerStrEqual("tech", "Tech");
    assert OccursIgnoreCaseAt(title, "Tech", 0);
    ContainsIgnoreCaseIff(title, "Tech");
  }

  /** The query "react" with no category becomes the text clause "react"
      alone. */
  lemma ReactFilter()
    ensures Build("react", "") == Filter(Some("react"), None)
  {
    assert TrimStart("react") == "react";
    assert TrimEnd("react") == "react";
  }

  /** That filter finds any post whose title contains "React", such as
      "Learning React Hooks", whatever its content. */
  lemma QueryReactInTitle(before: string, after: string, content: Option<string>)
    ensures Matches(Filter(Some("react"), None), Blog(None, Some(before + "React" + after), content, None, 0))
  {
    var h := before + "React" + after;
    assert h[|before|..|before| + 5] == "React";
    assert Lower('R') == 'r';
    LowerStrEqual("React", "react");
    assert OccursIgnoreCaseAt(h, "react", |before|);
    ContainsIgnoreCaseIff(h, "react");
  }

  /** That filter finds any post whose content contains "React", such as
      "I love React", whatever its title. */
  lemma QueryReactInContent(before: string, after: string, title: Option<string>)
    ensures Matches(Filter(Some("react"), None), Blog(None, title, Some(before + "React" + after), None, 0))
  {
    var h := before + "React" + after;
    assert h[|before|..|before| + 5] == "React";
    assert Lower('R') == 'r';
    LowerStrEqual("React", "react");
    assert OccursIgnoreCaseAt(h, "react", |before|);
    ContainsIgnoreCaseIff(h, "react");
  }

  /** That filter does not find a post titled "Paris" about "Food". */
  lemma QueryReactNotFound()
    ensures !Matches(Filter(Some("react"), None), Blog(None, Some("Paris"), Some("Food"), None, 0))
  {
    var t := "react";
    forall i ensures !OccursIgnoreCaseAt("Paris", t, i) {
      if i == 0 {
        var w := "Paris"[0..5];
        assert LowerStr(w)[0] == 'p';
        assert LowerStr(t)[0] == 'r';
      }
    }
    ContainsIgnoreCaseIff("Paris", t);
    ContainsIgnoreCaseIff("Food", t);
  }
}
