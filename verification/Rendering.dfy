/** A catalog as a document, and that document imported again. */
module Rendering {
  import opened Wrappers
  import opened Lifecycle
  import opened Catalogs
  import opened Importer
  import opened Sorting
  import Language
  import Text

  const OPDS_CATALOG_MEDIA_TYPE := "application/opds-catalog+json"

  /** Where the registry is served, and how it writes a UUID. */
  datatype Site = Site(baseUrl: string, written: CatalogId -> string)

  // ---- Names and orders ------------------------------------------------------------------------------

  function KindName(k: Kind): string {
    match k
    case Open => "open"
    case Public => "public"
    case Academic => "academic"
    case School => "school"
    case Specialized => "specialized"
  }

  function TypeName(t: PublicationType): string {
    match t
    case Ebook => "ebook"
    case Audiobook => "audiobook"
    case Comic => "comic"
    case Newspaper => "newspaper"
    case Magazine => "magazine"
    case Journal => "journal"
    case Article => "article"
  }

  function Priority(r: Rel): nat {
    match r
    case Self => 0
    case Catalog => 1
    case Shelf => 2
    case Search => 3
    case Authenticate => 4
    case Profile => 5
    case Alternate => 6
    case Icon => 7
  }

  function ByName<T>(name: T -> string): (T, T) -> bool {
    (a, b) => Text.AtMost(name(a), name(b))
  }

  function Itself(s: string): string { s }

  /** Priority first, then the href. */
  predicate LinkFirst(a: Link, b: Link) {
    Priority(a.rel) < Priority(b.rel) || (Priority(a.rel) == Priority(b.rel) && Text.AtMost(a.href, b.href))
  }

  function OrderLinks(links: seq<Link>): seq<Link> {
    Sort(LinkFirst, links)
  }

  // ---- Rendering -------------------------------------------------------------------------------------

  /** An empty text counts as missing. */
  function Truthy(s: Option<string>): (r: Option<string>)
    ensures r.Some? ==> s.Some? && r.value == s.value != ""
  {
    if s == Some("") then None else s
  }

  function UpperChar(c: char): char {
    if 'a' <= c <= 'z' then c - 'a' + 'A' else c
  }

  /** Capitals are what folds back to the letter; every other character stays. */
  lemma CapitalsAre(c: char)
    ensures 'a' <= c <= 'z' ==> Text.LowerChar(UpperChar(c)) == c && 'A' <= UpperChar(c) <= 'Z'
    ensures !('a' <= c <= 'z') ==> UpperChar(c) == c
  {
  }

  function Upper(s: string): (r: string)
    ensures |r| == |s| && forall i :: 0 <= i < |s| ==> r[i] == UpperChar(s[i])
  {
    seq(|s|, i requires 0 <= i < |s| => UpperChar(s[i]))
  }

  function RenderedLink(l: Link): DocumentLink {
    DocumentLink(l.href, Truthy(l.mediaType), [RelName(l.rel)], l.templated, Truthy(l.title))
  }

  function RenderedLinks(links: seq<Link>): (r: seq<DocumentLink>)
    ensures |r| == |links| && forall i :: 0 <= i < |r| ==> r[i] == RenderedLink(links[i])
  {
    seq(|links|, i requires 0 <= i < |links| => RenderedLink(links[i]))
  }

  predicate IsSlash(c: char) { c == '/' }

  /** The link to this registry, which is not stored. */
  function SelfLink(site: Site, id: CatalogId): Link {
    Link(Text.StripRight(site.baseUrl, IsSlash) + "/catalogs/" + site.written(id), Some(OPDS_CATALOG_MEDIA_TYPE), Self,
         false, None)
  }

  function Rendered(site: Site, id: CatalogId, c: Content): Document {
    Document(
      c.title, Some("urn:uuid:" + site.written(id)), Truthy(c.description), Some(c.color),
      if Truthy(c.country).Some? then Some(Upper(c.country.value)) else None, Truthy(c.city), c.coverage,
      Sort(ByName(KindName), c.kinds), Sort(ByName(TypeName), c.publicationTypes), Sort(ByName(Itself), c.languages),
      Sort(ByName(Itself), c.subdivisions), [RenderedLink(SelfLink(site, id))] + RenderedLinks(OrderLinks(c.links)))
  }

  method RenderLink(l: Link) returns (document: DocumentLink)
    ensures document == RenderedLink(l)
  {
    document := DocumentLink(l.href, None, [], false, None);
    if l.mediaType.Some? && l.mediaType.value != "" { document := document.(mediaType := l.mediaType); }
    document := document.(rels := [RelName(l.rel)]);
    if l.templated { document := document.(templated := true); }
    if l.title.Some? && l.title.value != "" { document := document.(title := l.title); }
  }

  method RenderLinks(links: seq<Link>) returns (stored: seq<DocumentLink>)
    ensures stored == RenderedLinks(OrderLinks(links))
  {
    hide RenderedLink, OrderLinks;
    var ordered := OrderLinks(links);
    stored := [];
    for i := 0 to |ordered|
      invariant |stored| == i && forall k :: 0 <= k < i ==> stored[k] == RenderedLink(ordered[k])
    {
      var link := RenderLink(ordered[i]);
      stored := stored + [link];
    }
  }

  lemma NothingSortsToNothing(c: Content)
    ensures c.languages == [] ==> Sort(ByName(Itself), c.languages) == []
    ensures c.publicationTypes == [] ==> Sort(ByName(TypeName), c.publicationTypes) == []
    ensures c.subdivisions == [] ==> Sort(ByName(Itself), c.subdivisions) == []
  {
  }

  method TextOrNothing(s: Option<string>) returns (r: Option<string>)
    ensures r == Truthy(s)
  {
    if s.Some? && s.value != "" { return s; }
    return None;
  }

  method RenderCatalog(site: Site, id: CatalogId, c: Content) returns (document: Document)
    ensures document == Rendered(site, id, c)
  {
    NothingSortsToNothing(c);
    hide RenderedLink, Sort, OrderLinks, SelfLink, Upper, RenderedLinks, ByName, Truthy;
    var languages: seq<string>, types: seq<PublicationType>, subdivisions: seq<string> := [], [], [];
    var description := TextOrNothing(c.description);
    if c.languages != [] { languages := Sort(ByName(Itself), c.languages); }
    if c.publicationTypes != [] { types := Sort(ByName(TypeName), c.publicationTypes); }
    var country := TextOrNothing(c.country);
    if country.Some? { country := Some(Upper(c.country.value)); }
    if c.subdivisions != [] { subdivisions := Sort(ByName(Itself), c.subdivisions); }
    var city := TextOrNothing(c.city);
    var stored := RenderLinks(c.links);
    document := Document(
      c.title, Some("urn:uuid:" + site.written(id)), description, Some(c.color), country, city, c.coverage,
      Sort(ByName(KindName), c.kinds), types, languages, subdivisions, [RenderedLink(SelfLink(site, id))] + stored);
  }

  // ---- What the document says ------------------------------------------------------------------------

  /** A client finds the links by use: the catalog itself, where to browse, the reader's shelf, search, sign-in, the
      profile, other representations, and the icon. */
  const LINK_ORDER := [Self, Catalog, Shelf, Search, Authenticate, Profile, Alternate, Icon]

  /** `a` may stand before `b`: an earlier rel, or the same rel and an href that does not sort later. */
  ghost predicate IsInLinkOrder(a: Link, b: Link) {
    exists i, j :: 0 <= i <= j < |LINK_ORDER| && LINK_ORDER[i] == a.rel && LINK_ORDER[j] == b.rel
                   && (i == j ==> Text.AtMost(a.href, b.href))
  }

  lemma LinkFirstMeans(a: Link, b: Link)
    ensures LinkFirst(a, b) ==> IsInLinkOrder(a, b)
  {
    var i, j := Priority(a.rel), Priority(b.rel);
    assert LINK_ORDER[0] == Self && LINK_ORDER[1] == Catalog && LINK_ORDER[2] == Shelf && LINK_ORDER[3] == Search;
    assert LINK_ORDER[4] == Authenticate && LINK_ORDER[5] == Profile && LINK_ORDER[6] == Alternate;
    assert LINK_ORDER[7] == Icon;
    assert LINK_ORDER[i] == a.rel && LINK_ORDER[j] == b.rel;
  }

  /** The stored links come in that order, each as often as it is stored. */
  lemma LinksStandInOrder(links: seq<Link>)
    ensures multiset(OrderLinks(links)) == multiset(links)
    ensures forall i, j :: 0 <= i < j < |OrderLinks(links)| ==>
                             IsInLinkOrder(OrderLinks(links)[i], OrderLinks(links)[j])
  {
    LinkFirstIsTotal();
    SortIsSorted(LinkFirst, links);
    SortMultiset(LinkFirst, links);
    var ordered := OrderLinks(links);
    hide OrderLinks, IsInLinkOrder, LinkFirst;
    forall i, j | 0 <= i < j < |ordered| ensures IsInLinkOrder(ordered[i], ordered[j]) {
      assert LinkFirst(ordered[i], ordered[j]);
      LinkFirstMeans(ordered[i], ordered[j]);
    }
  }

  /** A text is rendered as it is, unless it is missing or empty. */
  predicate IsRenderedText(stored: Option<string>, rendered: Option<string>) {
    if stored.None? || stored.value == "" then rendered.None? else rendered == stored
  }

  predicate IsInNameOrder<T>(name: T -> string, s: seq<T>) {
    forall i, j :: 0 <= i < j < |s| ==> Text.AtMost(name(s[i]), name(s[j]))
  }

  lemma SortedByName<T(!new)>(name: T -> string, s: seq<T>)
    ensures IsInNameOrder(name, Sort(ByName(name), s)) && multiset(Sort(ByName(name), s)) == multiset(s)
  {
    ByNameIsTotal(name);
    SortIsSorted(ByName(name), s);
    SortMultiset(ByName(name), s);
    var sorted := Sort(ByName(name), s);
    forall i, j | 0 <= i < j < |sorted| ensures Text.AtMost(name(sorted[i]), name(sorted[j])) {
      assert ByName(name)(sorted[i], sorted[j]);
    }
  }

  /** The metadata of a rendered catalog: its UUID as a URN, empty texts left out, the country in capitals, and every
      collection in the order of its names. */
  lemma MetadataSays(site: Site, id: CatalogId, c: Content)
    ensures var d := Rendered(site, id, c);
            && d.title == c.title && d.identifier == Some("urn:uuid:" + site.written(id)) && d.color == Some(c.color)
            && d.coverage == c.coverage
            && IsRenderedText(c.description, d.description) && IsRenderedText(c.city, d.city)
            && (d.country.None? <==> c.country.None? || c.country.value == "")
            && (d.country.Some? ==> |d.country.value| == |c.country.value| && forall i :: 0 <= i < |d.country.value| ==>
                  d.country.value[i] == UpperChar(c.country.value[i]))
    ensures var d := Rendered(site, id, c);
            && IsInNameOrder(KindName, d.kinds) && multiset(d.kinds) == multiset(c.kinds)
            && IsInNameOrder(TypeName, d.publicationTypes)
            && multiset(d.publicationTypes) == multiset(c.publicationTypes)
            && IsInNameOrder(Itself, d.languages) && multiset(d.languages) == multiset(c.languages)
            && IsInNameOrder(Itself, d.subdivisions) && multiset(d.subdivisions) == multiset(c.subdivisions)
  {
    SortedByName(KindName, c.kinds);
    SortedByName(TypeName, c.publicationTypes);
    SortedByName(Itself, c.languages);
    SortedByName(Itself, c.subdivisions);
    hide Sort, ByName, IsInNameOrder, OrderLinks, RenderedLink, SelfLink;
  }

  /** Its links: its own address first, with the slashes at the end of the base cut off, then the stored links in link
      order, each under its one rel with empty texts left out. */
  lemma LinksSay(site: Site, id: CatalogId, c: Content, base: string, slashes: string)
    requires site.baseUrl == base + slashes && (forall x :: x in slashes ==> x == '/')
    requires base == "" || base[|base| - 1] != '/'
    ensures var d, ordered := Rendered(site, id, c), OrderLinks(c.links);
            && |d.links| == |ordered| + 1
            && d.links[0] == DocumentLink(base + "/catalogs/" + site.written(id), Some("application/opds-catalog+json"),
                                          ["self"], false, None)
            && forall i :: 0 <= i < |ordered| ==>
                             && d.links[i + 1].href == ordered[i].href
                             && d.links[i + 1].rels == [RelName(ordered[i].rel)]
                             && d.links[i + 1].templated == ordered[i].templated
                             && IsRenderedText(ordered[i].mediaType, d.links[i + 1].mediaType)
                             && IsRenderedText(ordered[i].title, d.links[i + 1].title)
  {
    OwnLinkSays(site, id, base, slashes);
    hide Sort, ByName, OrderLinks, SelfLink, RelName;
    var d, ordered := Rendered(site, id, c), OrderLinks(c.links);
    assert d.links[0] == RenderedLink(SelfLink(site, id));
    forall i | 0 <= i < |ordered| ensures d.links[i + 1] == RenderedLink(ordered[i]) {}
  }

  lemma OwnLinkSays(site: Site, id: CatalogId, base: string, slashes: string)
    requires site.baseUrl == base + slashes && (forall x :: x in slashes ==> x == '/')
    requires base == "" || base[|base| - 1] != '/'
    ensures RenderedLink(SelfLink(site, id)) == DocumentLink(
              base + "/catalogs/" + site.written(id), Some("application/opds-catalog+json"), ["self"], false, None)
  {
    BaseIsStripped(base, slashes);
    hide Text.StripRight;
    assert |OPDS_CATALOG_MEDIA_TYPE| == 29;
  }

  lemma {:induction false} BaseIsStripped(base: string, slashes: string)
    requires (forall x :: x in slashes ==> x == '/') && (base == "" || base[|base| - 1] != '/')
    ensures Text.StripRight(base + slashes, IsSlash) == base
  {
    if slashes == [] {
      assert base + slashes == base;
    } else {
      var n := |slashes| - 1;
      assert slashes[n] in slashes && forall x :: x in slashes[..n] ==> x in slashes;
      assert (base + slashes)[..|base| + n] == base + slashes[..n];
      BaseIsStripped(base, slashes[..n]);
    }
  }

  // ---- The same document whatever order the rows come in ---------------------------------------------

  /** The same row read with its collections in another order. */
  ghost predicate SameUpToOrder(c: Content, e: Content) {
    && e == c.(kinds := e.kinds, publicationTypes := e.publicationTypes, languages := e.languages,
               subdivisions := e.subdivisions, links := e.links)
    && multiset(e.kinds) == multiset(c.kinds) && multiset(e.publicationTypes) == multiset(c.publicationTypes)
    && multiset(e.languages) == multiset(c.languages) && multiset(e.subdivisions) == multiset(c.subdivisions)
    && multiset(e.links) == multiset(c.links)
  }

  /** `uq_links_catalog_rel_href`, as a property of the links a catalog has. */
  ghost predicate LinksAreUnique(links: seq<Link>) {
    forall i, j :: 0 <= i < j < |links| ==> !(links[i].rel == links[j].rel && links[i].href == links[j].href)
  }

  lemma ByNameIsTotal<T(!new)>(name: T -> string)
    ensures TotalPreorder(ByName(name))
  {
    var before := ByName(name);
    forall x, y ensures before(x, y) || before(y, x) { Text.AtMostIsTotal(name(x), name(y)); }
    forall x, y, z | before(x, y) && before(y, z) ensures before(x, z) {
      Text.AtMostIsTransitive(name(x), name(y), name(z));
    }
  }

  lemma SortByNameIgnoresOrder<T(!new)>(name: T -> string, s: seq<T>, t: seq<T>)
    requires multiset(s) == multiset(t)
    requires forall x, y :: name(x) == name(y) ==> x == y
    ensures Sort(ByName(name), s) == Sort(ByName(name), t)
  {
    ByNameIsTotal(name);
    forall x, y | x in s && y in s && ByName(name)(x, y) && ByName(name)(y, x) ensures x == y {
      Text.AtMostIsTotal(name(x), name(y));
    }
    SortIgnoresInputOrder(ByName(name), s, t);
  }

  lemma LinkFirstIsTotal()
    ensures TotalPreorder(LinkFirst)
  {
    forall x, y ensures LinkFirst(x, y) || LinkFirst(y, x) { Text.AtMostIsTotal(x.href, y.href); }
    forall x, y, z | LinkFirst(x, y) && LinkFirst(y, z) ensures LinkFirst(x, z) {
      if Priority(x.rel) == Priority(y.rel) == Priority(z.rel) { Text.AtMostIsTransitive(x.href, y.href, z.href); }
    }
  }

  lemma OrderLinksIgnoresOrder(s: seq<Link>, t: seq<Link>)
    requires multiset(s) == multiset(t) && LinksAreUnique(s)
    ensures OrderLinks(s) == OrderLinks(t)
  {
    LinkFirstIsTotal();
    forall x, y | x in s && y in s && LinkFirst(x, y) && LinkFirst(y, x) ensures x == y {
      Text.AtMostIsTotal(x.href, y.href);
      var i :| 0 <= i < |s| && s[i] == x;
      var j :| 0 <= j < |s| && s[j] == y;
    }
    SortIgnoresInputOrder(LinkFirst, s, t);
  }

  lemma KindNamesDiffer(x: Kind, y: Kind)
    ensures KindName(x) == KindName(y) ==> x == y
  {
  }

  lemma TypeNamesDiffer(x: PublicationType, y: PublicationType)
    ensures TypeName(x) == TypeName(y) ==> x == y
  {
  }

  /** The document does not depend on the order in which any collection was read. */
  lemma RenderingIgnoresOrder(site: Site, id: CatalogId, c: Content, e: Content)
    requires SameUpToOrder(c, e) && LinksAreUnique(c.links)
    ensures Rendered(site, id, c) == Rendered(site, id, e)
  {
    hide KindName, TypeName, LinksAreUnique, RenderedLink, Truthy;
    forall x, y ensures KindName(x) == KindName(y) ==> x == y { KindNamesDiffer(x, y); }
    forall x, y ensures TypeName(x) == TypeName(y) ==> x == y { TypeNamesDiffer(x, y); }
    SortByNameIgnoresOrder(KindName, c.kinds, e.kinds);
    SortByNameIgnoresOrder(TypeName, c.publicationTypes, e.publicationTypes);
    SortByNameIgnoresOrder(Itself, c.languages, e.languages);
    SortByNameIgnoresOrder(Itself, c.subdivisions, e.subdivisions);
    OrderLinksIgnoresOrder(c.links, e.links);
  }

  // ---- Importing a rendered document -----------------------------------------------------------------

  /** What is true of the columns of every row the importer wrote: normalised tags and uppercase codes. */
  ghost predicate IsStored(c: Content) {
    && (forall t :: t in c.languages ==> Language.NormaliseLanguageTag(t) == t)
    && (c.country.Some? ==> IsCountryCode(c.country.value))
    && forall code :: code in c.subdivisions ==> IsSubdivisionCode(code)
  }

  function NormalLink(l: Link): Link {
    l.(mediaType := Truthy(l.mediaType), title := Truthy(l.title))
  }

  function NormalLinks(links: seq<Link>): (r: seq<Link>)
    ensures |r| == |links| && forall i :: 0 <= i < |r| ==> r[i] == NormalLink(links[i])
  {
    seq(|links|, i requires 0 <= i < |links| => NormalLink(links[i]))
  }

  lemma {:induction false} LinksSurvive(links: seq<Link>)
    ensures BuildLinks(RenderedLinks(links)) == NormalLinks(links)
  {
    if links != [] {
      LinksSurvive(links[1..]);
      assert RenderedLinks(links)[1..] == RenderedLinks(links[1..]);
      OneLinkSurvives(links[0]);
      assert NormalLinks(links) == [NormalLink(links[0])] + NormalLinks(links[1..]);
    }
  }

  lemma OneLinkSurvives(l: Link)
    ensures StoredLinks(RenderedLink(l), LinkRels(RenderedLink(l).rels)) == [NormalLink(l)]
  {
  }

  lemma LinksSurviveRendering(site: Site, id: CatalogId, c: Content)
    ensures BuildLinks(Rendered(site, id, c).links) == [SelfLink(site, id)] + NormalLinks(OrderLinks(c.links))
  {
    var ordered := [SelfLink(site, id)] + OrderLinks(c.links);
    assert Rendered(site, id, c).links == RenderedLinks(ordered);
    LinksSurvive(ordered);
    assert NormalLink(SelfLink(site, id)) == SelfLink(site, id);
    assert NormalLinks(ordered) == [SelfLink(site, id)] + NormalLinks(OrderLinks(c.links));
  }

  lemma NormalKeepsOrder(a: Link, b: Link)
    ensures LinkFirst(NormalLink(a), NormalLink(b)) == LinkFirst(a, b)
  {
  }

  lemma NormalCons(l: Link, links: seq<Link>)
    ensures NormalLinks([l] + links) == [NormalLink(l)] + NormalLinks(links)
  {
    hide NormalLink;
  }

  lemma InsertCons(l: Link, x: Link, rest: seq<Link>)
    ensures Insert(LinkFirst, l, [x] + rest) ==
            if LinkFirst(l, x) then [l] + ([x] + rest) else [x] + Insert(LinkFirst, l, rest)
  {
    hide LinkFirst;
    assert ([x] + rest)[1..] == rest;
  }

  lemma {:induction false} NormalInsert(l: Link, links: seq<Link>)
    ensures NormalLinks(Insert(LinkFirst, l, links)) == Insert(LinkFirst, NormalLink(l), NormalLinks(links))
  {
    if links == [] {
      NormalCons(l, links);
      assert [l] + links == [l] && [NormalLink(l)] + NormalLinks(links) == [NormalLink(l)];
    } else {
      var x, rest := links[0], links[1..];
      assert links == [x] + rest;
      NormalInsert(l, rest);
      hide *;
      NormalKeepsOrder(l, x);
      NormalCons(x, rest);
      NormalCons(l, [x] + rest);
      NormalCons(x, Insert(LinkFirst, l, rest));
      InsertCons(l, x, rest);
      InsertCons(NormalLink(l), NormalLink(x), NormalLinks(rest));
    }
  }

  lemma {:induction false} NormalOrder(links: seq<Link>)
    ensures NormalLinks(OrderLinks(links)) == OrderLinks(NormalLinks(links))
  {
    if links != [] {
      NormalOrder(links[1..]);
      assert NormalLinks(links)[1..] == NormalLinks(links[1..]);
      NormalInsert(links[0], OrderLinks(links[1..]));
    }
  }

  /** What importing a rendered catalog stores: the same row but for empty texts, which go missing, the order of
      the collections, and one more link. */
  function Reread(site: Site, id: CatalogId, c: Content): Content {
    c.(description := Truthy(c.description), city := Truthy(c.city), kinds := Sort(ByName(KindName), c.kinds),
    publicationTypes := Sort(ByName(TypeName), c.publicationTypes), languages := Sort(ByName(Itself), c.languages),
    subdivisions := Sort(ByName(Itself), c.subdivisions),
    links := [SelfLink(site, id)] + NormalLinks(OrderLinks(c.links)))
  }

  lemma ImportingARenderedCatalog(reg: Registry, site: Site, id: CatalogId, c: Content)
    requires IsStored(c) && reg.parse(site.written(id)) == Some(id)
    ensures BuildContent(Rendered(site, id, c)) == Reread(site, id, c)
    ensures forall href :: ResolveCatalogId(reg, Rendered(site, id, c), href) == Some(id)
  {
    LinksSurviveRendering(site, id, c);
    LanguagesSurvive(c);
    if c.country.Some? { CountrySurvives(c); }
    UrnIsStripped(site.written(id));
    hide RenderedLink, SelfLink, Sort, ByName, OrderLinks, Truthy, Upper;
    hide Language.NormaliseLanguageTag, WithoutUrnPrefix;
  }

  lemma LanguagesSurvive(c: Content)
    requires IsStored(c)
    ensures forall i :: 0 <= i < |Sort(ByName(Itself), c.languages)| ==>
                          Language.NormaliseLanguageTag(Sort(ByName(Itself), c.languages)[i]) ==
                                  Sort(ByName(Itself), c.languages)[i]
  {
    SortMembers(ByName(Itself), c.languages);
    var sorted := Sort(ByName(Itself), c.languages);
    forall i | 0 <= i < |sorted| ensures Language.NormaliseLanguageTag(sorted[i]) == sorted[i] {
      assert sorted[i] in sorted;
    }
  }

  lemma CountrySurvives(c: Content)
    requires IsStored(c) && c.country.Some?
    ensures Truthy(c.country).Some? && Upper(c.country.value) == c.country.value
  {
  }

  predicate IsForeign(l: Link) {
    l.rel != Self
  }

  /** The links to anything but the registry are the same ones, each as often. */
  lemma ForeignLinksSurvive(site: Site, id: CatalogId, c: Content)
    ensures multiset(Filter(IsForeign, Reread(site, id, c).links)) == multiset(Filter(IsForeign, NormalLinks(c.links)))
  {
    NormalOrder(c.links);
    var ordered := OrderLinks(NormalLinks(c.links));
    FilterCons(IsForeign, SelfLink(site, id), ordered);
    SortMultiset(LinkFirst, NormalLinks(c.links));
    forall l ensures multiset(Filter(IsForeign, ordered))[l] == multiset(Filter(IsForeign, NormalLinks(c.links)))[l] {
      FilterMultiset(IsForeign, ordered, l);
      FilterMultiset(IsForeign, NormalLinks(c.links), l);
    }
  }
}
