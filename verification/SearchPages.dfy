/** Search pages: the capped total, the links, and what a client gets by following `next`. */
module SearchPages {
  import opened Wrappers
  import opened Restrictions
  import opened SearchHits
  import opened Catalogs
  import opened Lifecycle
  import SearchQuery

  /** The parameters of a page link, as they are given to `urlencode`. */
  datatype PageParams = PageParams(query: string, restrict: Option<string>, page: Option<nat>)

  datatype LinkRel = SelfRel | SearchRel | FirstRel | PreviousRel | NextRel

  datatype PageLink = PageLink(rel: LinkRel, target: Option<PageParams>, restrict: Option<string>)

  datatype SearchPage<T> = SearchPage(total: nat, catalogs: seq<T>)

  datatype Results<T> = Results(
    numberOfItems: nat, itemsPerPage: nat, currentPage: nat, links: seq<PageLink>, catalogs: seq<T>)

  /** The constants of paging, at any values. */
  datatype Limits = Limits(pageSize: nat, maxResults: nat)
  {
    function MaxPage(): nat
      requires pageSize > 0
    {
      (maxResults + pageSize - 1) / pageSize
    }
  }

  const SERVED_LIMITS := Limits(SearchQuery.PAGE_SIZE, SearchQuery.MAX_RESULTS)

  function Min(a: nat, b: nat): nat {
    if a <= b then a else b
  }

  // ---- One page --------------------------------------------------------------------------------------

  /** `LIMIT limit OFFSET offset` on the ranked hits. */
  function Slice<T>(ranked: seq<T>, offset: nat, limit: nat): seq<T> {
    ranked[Min(offset, |ranked|)..Min(offset + limit, |ranked|)]
  }

  /** The page number is left out for page 1. */
  function ParamsOf(query: string, page: nat, r: Restrictions): PageParams {
    PageParams(query, QueryValue(r), if page > 1 then Some(page) else None)
  }

  /** How the route reads the parameters of a link: page 1 when there is none. */
  function ReadParams(p: PageParams): (string, nat, Restrictions) {
    (p.query, if p.page.Some? then p.page.value else 1, ParseRestrictions(p.restrict))
  }

  /** What the route accepts; it refuses any other page or restriction. */
  predicate IsServed(limits: Limits, p: PageParams)
    requires limits.pageSize > 0
  {
    && 1 <= ReadParams(p).1 <= limits.MaxPage()
    && (p.restrict.Some? ==> IsAccepted(p.restrict.value))
  }

  /** How many hits the first `pages` pages hold when they are full. */
  function Edge(limits: Limits, pages: nat): nat {
    pages * limits.pageSize
  }

  function NextOf(limits: Limits, total: nat, query: string, page: nat, r: Restrictions): Option<PageParams>
    requires limits.pageSize > 0
  {
    if page < limits.MaxPage() && Edge(limits, page) < total then Some(ParamsOf(query, page + 1, r)) else None
  }

  function TargetOf(links: seq<PageLink>, rel: LinkRel): Option<PageParams> {
    if links == [] then None
    else if links[0].rel == rel then links[0].target
    else TargetOf(links[1..], rel)
  }

  predicate HasRel(links: seq<PageLink>, rel: LinkRel) {
    links != [] && (links[0].rel == rel || HasRel(links[1..], rel))
  }

  lemma {:induction false} TargetAfterAppend(links: seq<PageLink>, l: PageLink, rel: LinkRel)
    ensures TargetOf(links + [l], rel) ==
            if HasRel(links, rel) then TargetOf(links, rel) else if l.rel == rel then l.target else None
    ensures HasRel(links + [l], rel) <==> HasRel(links, rel) || l.rel == rel
  {
    if links == [] {
      assert links + [l] == [l] && [l][1..] == links;
    } else {
      assert (links + [l])[1..] == links[1..] + [l];
      TargetAfterAppend(links[1..], l, rel);
    }
  }

  /** The links every page has, in order. */
  lemma StandingLinks(links: seq<PageLink>, rel: LinkRel)
    requires |links| == 3 && links[0].rel == SelfRel && links[1].rel == SearchRel && links[2].rel == FirstRel
    ensures HasRel(links, rel) <==> rel == SelfRel || rel == SearchRel || rel == FirstRel
    ensures TargetOf(links, SelfRel) == links[0].target && TargetOf(links, FirstRel) == links[2].target
    ensures !HasRel(links, rel) ==> TargetOf(links, rel) == None
  {
    var tail := links[1..];
    var last := tail[1..];
    assert last[0] == links[2] && tail[0] == links[1];
    assert HasRel(last, rel) <==> rel == FirstRel by { assert !HasRel(last[1..], rel); }
    assert TargetOf(last, rel) == if rel ==
            FirstRel then links[2].target else None by { assert TargetOf(last[1..], rel) == None; }
    assert TargetOf(last, FirstRel) == links[2].target;
  }

  method RenderSearchResults<T>(
    limits: Limits, result: SearchPage<T>, query: string, page: nat, r: Restrictions) returns (body: Results<T>)
    requires limits.pageSize > 0 && page >= 1
    ensures body.numberOfItems == result.total && body.itemsPerPage == limits.pageSize && body.currentPage == page
    ensures body.catalogs == result.catalogs
    ensures TargetOf(body.links, SelfRel) == Some(ParamsOf(query, page, r))
    ensures TargetOf(body.links, FirstRel) == Some(ParamsOf(query, 1, r))
    ensures TargetOf(body.links, PreviousRel) == if page > 1 then Some(ParamsOf(query, page - 1, r)) else None
    ensures TargetOf(body.links, NextRel) == NextOf(limits, result.total, query, page, r)
    ensures PageLink(SearchRel, None, QueryValue(r)) in body.links
    ensures |body.links| == 3 + (if page > 1 then 1 else 0) +
                            if NextOf(limits, result.total, query, page, r).Some? then 1 else 0
    ensures body.links[0].rel == SelfRel && body.links[1].rel == SearchRel && body.links[2].rel == FirstRel
  {
    var links := [
      PageLink(SelfRel, Some(ParamsOf(query, page, r)), None),
      PageLink(SearchRel, None, QueryValue(r)),
      PageLink(FirstRel, Some(ParamsOf(query, 1, r)), None)];
    assert links[1] in links;
    forall rel { StandingLinks(links, rel); }
    hide TargetOf, HasRel, ParamsOf, QueryValue;
    if page > 1 {
      var previous := PageLink(PreviousRel, Some(ParamsOf(query, page - 1, r)), None);
      forall rel { TargetAfterAppend(links, previous, rel); }
      links := links + [previous];
    }
    if page < limits.MaxPage() && page * limits.pageSize < result.total {
      var next := PageLink(NextRel, Some(ParamsOf(query, page + 1, r)), None);
      forall rel { TargetAfterAppend(links, next, rel); }
      links := links + [next];
    }
    body := Results(result.total, limits.pageSize, page, links, result.catalogs);
  }

  /** The hits of a query text in rank order; a query without a positive chunk finds nothing. */
  function Ranking(e: Engine, store: Store, index: Index, scan: seq<CatalogId>): (string, Restrictions) -> seq<Hit> {
    (query, r) =>
      var parsed := SearchQuery.Parsed(Some(query));
      if parsed.positives == [] then [] else Ranked(SearchRequest(e, parsed, store, index), r, scan)
  }

  /** What one page answers: the capped total, its slice of the hits, and where `next` leads. */
  datatype Served<T> = Served(page: nat, numberOfItems: nat, items: seq<T>, next: Option<PageParams>)

  function Serve<T>(limits: Limits, search: (string, Restrictions) -> seq<T>, p: PageParams): Served<T>
    requires limits.pageSize > 0 && IsServed(limits, p)
  {
    var (query, page, r) := ReadParams(p);
    var ranked := search(query, r);
    var total := Min(|ranked|, limits.maxResults);
    Served(page, total, Slice(ranked, Edge(limits, page - 1), limits.pageSize), NextOf(limits, total, query, page, r))
  }

  method ResolveSearch(
    e: Engine, store: Store, index: Index, scan: seq<CatalogId>, query: Option<string>, page: nat, r: Restrictions)
    returns (body: Results<Hit>)
    requires 1 <= page <= SERVED_LIMITS.MaxPage()
    ensures var params := ParamsOf(if query.Some? then query.value else "", page, r);
            && IsServed(SERVED_LIMITS, params)
            && var served := Serve(SERVED_LIMITS, Ranking(e, store, index, scan), params);
               && body.numberOfItems == served.numberOfItems && body.catalogs == served.items
               && TargetOf(body.links, NextRel) == served.next
    ensures body.itemsPerPage == 50 && body.currentPage == page
  {
    var text := if query.Some? then query.value else "";
    LinkIsReadBack(SERVED_LIMITS, text, page, r);
    hide Ranked, SearchQuery.Parsed, QueryValue, ParseRestrictions, IsAccepted;
    SameQueryText(query);
    var parsed := SearchQuery.ParseSearchQuery(query);
    var result: SearchPage<Hit>;
    if parsed.positives == [] {
      result := SearchPage(0, []);
    } else {
      var ranked := Ranked(SearchRequest(e, parsed, store, index), r, scan);
      var found := SearchPage(|ranked|, Slice(ranked, (page - 1) * SearchQuery.PAGE_SIZE, SearchQuery.PAGE_SIZE));
      result := SearchPage(Min(found.total, SearchQuery.MAX_RESULTS), found.catalogs);
    }
    body := RenderSearchResults(SERVED_LIMITS, result, text, page, r);
  }

  lemma SameQueryText(query: Option<string>)
    ensures SearchQuery.Parsed(query) == SearchQuery.Parsed(Some(if query.Some? then query.value else ""))
  {
  }

  /** A query without a positive chunk finds nothing, negated chunks or not; any other is searched. */
  lemma RankingMeans(e: Engine, store: Store, index: Index, scan: seq<CatalogId>, query: string, r: Restrictions)
    ensures var parsed := SearchQuery.Parsed(Some(query));
            && (parsed.positives == [] ==> Ranking(e, store, index, scan)(query, r) == [])
            && (parsed.positives != [] ==>
                  Ranking(e, store, index, scan)(query, r) == Ranked(SearchRequest(e, parsed, store, index), r, scan))
  {
  }

  // ---- Following `next` ------------------------------------------------------------------------------

  /** A link leads to the page it names, with the same query and restriction, and the route accepts it. */
  lemma LinkIsReadBack(limits: Limits, query: string, page: nat, r: Restrictions)
    requires limits.pageSize > 0 && page >= 1
    ensures ReadParams(ParamsOf(query, page, r)) == (query, page, r)
    ensures IsServed(limits, ParamsOf(query, page, r)) <==> page <= limits.MaxPage()
    ensures ParamsOf(query, page, r).page == if page == 1 then None else Some(page)
    ensures ParamsOf(query, page, r).restrict.None? <==> r == NO_RESTRICTIONS
  {
    hide QueryValue, ParseRestrictions, IsAccepted;
    LinksKeepTheRestriction(r);
  }

  lemma Multiples(a: nat, b: nat, size: nat)
    requires a <= b
    ensures a * size <= b * size
  {
  }

  lemma Quotient(q: nat, r: nat, p: nat, t: nat, size: nat)
    requires q * size + r == p * size + t && r < size && t < size
    ensures q == p && r == t
  {
    assert (q + 1) * size == q * size + size && (p + 1) * size == p * size + size;
    if q < p { Multiples(q + 1, p, size); }
    if p < q { Multiples(p + 1, q, size); }
  }

  /** The last page is the first one that reaches the cap. */
  lemma LastPage(limits: Limits)
    requires limits.pageSize > 0
    ensures limits.maxResults <= Edge(limits, limits.MaxPage()) < limits.maxResults + limits.pageSize
    ensures limits.maxResults > 0 ==> limits.MaxPage() >= 1
  {
  }

  lemma PagesBeforeTheLast(limits: Limits, page: nat)
    requires limits.pageSize > 0
    ensures page < limits.MaxPage() ==> Edge(limits, page) < limits.maxResults
    ensures page <= limits.MaxPage() ==> Edge(limits, page) <= Edge(limits, limits.MaxPage())
    ensures page >= 1 ==> Edge(limits, page - 1) + limits.pageSize == Edge(limits, page)
  {
    LastPage(limits);
    var last := limits.MaxPage();
    if page < last {
      Multiples(page, last - 1, limits.pageSize);
      assert (last - 1) * limits.pageSize == last * limits.pageSize - limits.pageSize;
    }
    if page <= last { Multiples(page, last, limits.pageSize); }
    assert page >= 1 ==> (page - 1) * limits.pageSize + limits.pageSize == page * limits.pageSize;
  }

  lemma LastPageIsFull(limits: Limits)
    requires limits.pageSize > 0
    ensures Edge(limits, limits.MaxPage()) == limits.maxResults <==> limits.maxResults % limits.pageSize == 0
  {
    var last, size, cap := limits.MaxPage(), limits.pageSize, limits.maxResults;
    LastPage(limits);
    assert cap == cap / size * size + cap % size;
    if cap % size == 0 { Quotient(last, 0, cap / size, last * size - cap, size); }
    if last * size == cap { Quotient(last, 0, cap / size, cap % size, size); }
  }

  /** `next` is offered exactly when the route accepts the following page and that page is not empty. */
  lemma NextExactlyWhenAPageFollows<T>(
    limits: Limits, search: (string, Restrictions) -> seq<T>, query: string, page: nat, r: Restrictions)
    requires limits.pageSize > 0 && 1 <= page <= limits.MaxPage()
    ensures IsServed(limits, ParamsOf(query, page, r))
    ensures Serve(limits, search, ParamsOf(query, page, r)).next.Some? <==>
            && IsServed(limits, ParamsOf(query, page + 1, r))
            && Serve(limits, search, ParamsOf(query, page + 1, r)).items != []
    ensures Serve(limits, search, ParamsOf(query, page, r)).next.Some? ==>
              Serve(limits, search, ParamsOf(query, page, r)).next.value == ParamsOf(query, page + 1, r)
  {
    LinkIsReadBack(limits, query, page, r);
    LinkIsReadBack(limits, query, page + 1, r);
    hide ParamsOf, ReadParams, IsServed, Edge, Slice;
    var ranked := search(query, r);
    PagesBeforeTheLast(limits, page);
    SliceIsEmpty(ranked, Edge(limits, page), limits.pageSize);
  }

  lemma SliceIsEmpty<T>(ranked: seq<T>, offset: nat, limit: nat)
    requires limit > 0
    ensures Slice(ranked, offset, limit) == [] <==> |ranked| <= offset
  {
  }

  /** The pages a client gets from `p` on by following `next`. */
  function Crawl<T>(limits: Limits, search: (string, Restrictions) -> seq<T>, p: PageParams): seq<Served<T>>
    requires limits.pageSize > 0 && IsServed(limits, p)
    decreases limits.MaxPage() - ReadParams(p).1
  {
    var (query, page, r) := ReadParams(p);
    LinkIsReadBack(limits, query, page + 1, r);
    var served := Serve(limits, search, p);
    if served.next.None? then [served] else [served] + Crawl(limits, search, served.next.value)
  }

  function Items<T>(pages: seq<Served<T>>): seq<T> {
    if pages == [] then [] else pages[0].items + Items(pages[1..])
  }

  function Between<T>(ranked: seq<T>, from: nat, to: nat): seq<T> {
    if from <= to then ranked[Min(from, |ranked|)..Min(to, |ranked|)] else []
  }

  /** `pages` are consecutive pages from `page` on, all with the count of the capped hits, and together they
      hold the hits up to the end of the last page. */
  ghost predicate IsCrawl<T>(limits: Limits, ranked: seq<T>, page: nat, pages: seq<Served<T>>)
    requires limits.pageSize > 0 && page >= 1
  {
    && Items(pages) == Between(ranked, Edge(limits, page - 1), Edge(limits, limits.MaxPage()))
    && forall i :: 0 <= i < |pages| ==>
                     pages[i].page == page + i && pages[i].numberOfItems == Min(|ranked|, limits.maxResults)
  }

  lemma JoinSlices<T>(ranked: seq<T>, from: nat, mid: nat, to: nat)
    requires from <= mid <= to
    ensures Slice(ranked, from, mid - from) == Between(ranked, from, mid)
    ensures Between(ranked, from, to) == Between(ranked, from, mid) + Between(ranked, mid, to)
    ensures mid >= |ranked| || mid == to ==> Between(ranked, from, to) == Between(ranked, from, mid)
  {
  }

  lemma CrawlStep<T>(limits: Limits, ranked: seq<T>, page: nat, served: Served<T>, rest: seq<Served<T>>)
    requires limits.pageSize > 0 && 1 <= page <= limits.MaxPage()
    requires served.page == page && served.numberOfItems == Min(|ranked|, limits.maxResults)
    requires served.items == Slice(ranked, Edge(limits, page - 1), limits.pageSize)
    requires if page < limits.MaxPage() && Edge(limits, page) < served.numberOfItems
             then IsCrawl(limits, ranked, page + 1, rest) else rest == []
    ensures IsCrawl(limits, ranked, page, [served] + rest)
  {
    hide Edge, Slice, Between;
    PagesBeforeTheLast(limits, page);
    JoinSlices(ranked, Edge(limits, page - 1), Edge(limits, page), Edge(limits, limits.MaxPage()));
    ItemsOfPages(served, rest);
  }

  lemma ItemsOfPages<T>(served: Served<T>, rest: seq<Served<T>>)
    ensures Items([served] + rest) == served.items + Items(rest)
    ensures rest == [] ==> Items([served] + rest) == served.items
  {
  }

  lemma CrawlUnfolds<T>(
    limits: Limits, search: (string, Restrictions) -> seq<T>, query: string, page: nat, r: Restrictions)
    requires limits.pageSize > 0 && 1 <= page <= limits.MaxPage()
    ensures IsServed(limits, ParamsOf(query, page, r))
    ensures var served := Serve(limits, search, ParamsOf(query, page, r));
            && served.page == page && served.numberOfItems == Min(|search(query, r)|, limits.maxResults)
            && served.items == Slice(search(query, r), Edge(limits, page - 1), limits.pageSize)
            && if page < limits.MaxPage() && Edge(limits, page) < served.numberOfItems
               then IsServed(limits, ParamsOf(query, page + 1, r))
                    && Crawl(limits, search, ParamsOf(query, page, r)) ==
                            [served] + Crawl(limits, search, ParamsOf(query, page + 1, r))
               else Crawl(limits, search, ParamsOf(query, page, r)) == [served]
  {
    LinkIsReadBack(limits, query, page, r);
    LinkIsReadBack(limits, query, page + 1, r);
    hide ParamsOf, ReadParams, IsServed;
  }

  lemma {:induction false} CrawlFrom<T>(
    limits: Limits, search: (string, Restrictions) -> seq<T>, query: string, page: nat, r: Restrictions)
    requires limits.pageSize > 0 && 1 <= page <= limits.MaxPage()
    ensures IsServed(limits, ParamsOf(query, page, r))
    ensures IsCrawl(limits, search(query, r), page, Crawl(limits, search, ParamsOf(query, page, r)))
    decreases limits.MaxPage() - page
  {
    hide IsCrawl, Crawl, Serve, ParamsOf, ReadParams, IsServed, Slice;
    CrawlUnfolds(limits, search, query, page, r);
    var served := Serve(limits, search, ParamsOf(query, page, r));
    var rest: seq<Served<T>> := [];
    if page < limits.MaxPage() && Edge(limits, page) < served.numberOfItems {
      CrawlFrom(limits, search, query, page + 1, r);
      rest := Crawl(limits, search, ParamsOf(query, page + 1, r));
    }
    CrawlStep(limits, search(query, r), page, served, rest);
    assert [served] + [] == [served];
  }

  /** Following `next` from the first page gives the first hits, each once and in rank order, under one constant
      item count. They are exactly the counted ones, unless the page size does not divide the cap and more
      hits than the cap exist; then the last page runs over. */
  lemma CrawlGivesTheFirstHits<T>(
    limits: Limits, search: (string, Restrictions) -> seq<T>, query: string, r: Restrictions)
    requires limits.pageSize > 0 && limits.maxResults > 0
    ensures 1 <= limits.MaxPage() && IsServed(limits, ParamsOf(query, 1, r))
    ensures var ranked, pages := search(query, r), Crawl(limits, search, ParamsOf(query, 1, r));
            var count := Min(|ranked|, limits.maxResults);
            && (forall i :: 0 <= i < |pages| ==> pages[i].page == 1 + i && pages[i].numberOfItems == count)
            && Items(pages) == ranked[..Min(Edge(limits, limits.MaxPage()), |ranked|)]
            && (Items(pages) == ranked[..count] <==>
                    |ranked| <= limits.maxResults || limits.maxResults % limits.pageSize == 0)
  {
    LastPage(limits);
    LastPageIsFull(limits);
    CrawlFrom(limits, search, query, 1, r);
    hide IsServed, ParamsOf, Crawl, Items;
    var ranked, all := search(query, r), Edge(limits, limits.MaxPage());
    assert Edge(limits, 1 - 1) == 0;
    var count := Min(|ranked|, limits.maxResults);
    assert |ranked[..Min(all, |ranked|)]| == Min(all, |ranked|) && |ranked[..count]| == count;
  }

  /** The registry's own limits: fifty to a page, two pages, the first hundred hits. */
  lemma ServedCrawl(e: Engine, store: Store, index: Index, scan: seq<CatalogId>, query: string, r: Restrictions)
    ensures IsServed(SERVED_LIMITS, ParamsOf(query, 1, r))
    ensures var ranked := Ranking(e, store, index, scan)(query, r);
            Items(Crawl(SERVED_LIMITS, Ranking(e, store, index, scan), ParamsOf(query, 1, r))) ==
                    ranked[..Min(|ranked|, 100)]
  {
    CrawlGivesTheFirstHits(SERVED_LIMITS, Ranking(e, store, index, scan), query, r);
  }
}
