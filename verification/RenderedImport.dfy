/**
 When the import of a rendered catalog goes through. The `self` link is one of the stored relations, so it
 goes through once for a row that does not carry that link yet, and never again on the row it leaves.
 */
module RenderedImport {
  import opened Wrappers
  import opened Lifecycle
  import opened Catalogs
  import opened Importer
  import opened ImportTheorems
  import opened Rendering
  import opened Sorting

  /** A caller can read this off the row: it does not store the link that rendering adds. */
  predicate LacksOwnLink(site: Site, id: CatalogId, c: Content) {
    forall l :: l in c.links && l.rel == Self ==> l.href != SelfLink(site, id).href
  }

  predicate HasLink(links: seq<Link>, rel: Rel) {
    exists l :: l in links && l.rel == rel
  }

  predicate HasIdentity(c: Content) {
    HasLink(c.links, Catalog) || HasLink(c.links, Shelf)
  }

  // ---- The constraints of the row --------------------------------------------------------------------

  lemma OrderedLinksAre(links: seq<Link>)
    ensures multiset(OrderLinks(links)) == multiset(links) && forall l :: l in OrderLinks(links) <==> l in links
  {
    SortMultiset(LinkFirst, links);
    SortMembers(LinkFirst, links);
  }

  /** Whether links fit together does not depend on their order. */
  lemma PermutedLinksFit(s: seq<Link>, t: seq<Link>)
    requires multiset(s) == multiset(t) && LinksFit(s)
    ensures LinksFit(t)
  {
    PermutationHasNoRepeats(t, s);
    forall i, j | 0 <= i < j < |t| ensures !LinksClash(t[i], t[j]) {
      assert t[i] in multiset(s) && t[j] in multiset(s);
      var a :| 0 <= a < |s| && s[a] == t[i];
      var b :| 0 <= b < |s| && s[b] == t[j];
      assert !LinksClash(s[if a < b then a else b], s[if a < b then b else a]);
    }
  }

  lemma NormalLinksFit(links: seq<Link>)
    ensures LinksFit(NormalLinks(links)) <==> LinksFit(links)
  {
    forall i, j | 0 <= i < j < |links|
      ensures LinksClash(NormalLinks(links)[i], NormalLinks(links)[j]) == LinksClash(links[i], links[j])
    {
    }
  }

  predicate FitsBeside(l: Link, links: seq<Link>) {
    forall k :: k in links ==> !LinksClash(l, k)
  }

  lemma OneMoreLinkFits(l: Link, links: seq<Link>)
    requires LinksFit(links)
    ensures LinksFit([l] + links) <==> FitsBeside(l, links)
  {
    hide LinksClash;
    var all := [l] + links;
    if FitsBeside(l, links) {
      forall i, j | 0 <= i < j < |all| ensures !LinksClash(all[i], all[j]) {
        assert all[j] == links[j - 1] && links[j - 1] in links;
      }
    }
    if LinksFit(all) {
      forall k | k in links ensures !LinksClash(l, k) {
        var m :| 0 <= m < |links| && links[m] == k;
        assert all[0] == l && all[m + 1] == k;
      }
    }
  }

  /** The links read back fit exactly when the row lacks its own link. */
  lemma RereadLinksFit(site: Site, id: CatalogId, c: Content)
    requires LinksFit(c.links)
    ensures LinksFit(Reread(site, id, c).links) <==> LacksOwnLink(site, id, c)
  {
    hide *;
    var ordered := OrderLinks(c.links);
    OrderedLinksAre(c.links);
    PermutedLinksFit(c.links, ordered);
    NormalLinksFit(ordered);
    OneMoreLinkFits(SelfLink(site, id), NormalLinks(ordered));
    SelfLinkClashes(site, id, ordered);
    SameOwnLink(site, id, c, ordered);
  }

  lemma SameOwnLink(site: Site, id: CatalogId, c: Content, ordered: seq<Link>)
    requires ordered == OrderLinks(c.links) && forall l :: l in ordered <==> l in c.links
    ensures LacksOwnLink(site, id, c) <==> LacksLink(SelfLink(site, id), ordered)
    ensures Reread(site, id, c).links == [SelfLink(site, id)] + NormalLinks(ordered)
  {
    hide OrderLinks, NormalLinks;
  }

  predicate LacksLink(self: Link, links: seq<Link>) {
    forall l :: l in links && l.rel == self.rel ==> l.href != self.href
  }

  lemma SelfLinkClashes(site: Site, id: CatalogId, links: seq<Link>)
    ensures FitsBeside(SelfLink(site, id), NormalLinks(links)) <==> LacksLink(SelfLink(site, id), links)
  {
    var self, normal := SelfLink(site, id), NormalLinks(links);
    forall i | 0 <= i < |links|
      ensures LinksClash(self, normal[i]) <==> links[i].rel == Self && links[i].href == self.href
    {
    }
    hide SelfLink, LinksClash, NormalLinks, NormalLink;
    assert forall i :: 0 <= i < |links| ==> links[i] in links && normal[i] in normal;
  }

  lemma SortedNoRepeats<T(!new)>(name: T -> string, s: seq<T>)
    requires NoRepeats(s)
    ensures NoRepeats(Sort(ByName(name), s))
  {
    SortMultiset(ByName(name), s);
    PermutationHasNoRepeats(Sort(ByName(name), s), s);
  }

  /** What the import would store fits the tables exactly when the row lacks its own link. */
  lemma RereadFitsExactly(reg: Registry, site: Site, id: CatalogId, c: Content)
    requires RowFits(reg, c) && reg.checks(Reread(site, id, c))
    ensures RowFits(reg, Reread(site, id, c)) <==> LacksOwnLink(site, id, c)
  {
    RereadLinksFit(site, id, c);
    hide LinksFit, NoRepeats, LacksOwnLink;
    SortedNoRepeats(KindName, c.kinds);
    SortedNoRepeats(TypeName, c.publicationTypes);
    SortedNoRepeats(Itself, c.languages);
    SortedNoRepeats(Itself, c.subdivisions);
  }

  // ---- The import ------------------------------------------------------------------------------------

  lemma RenderedLinksAre(site: Site, id: CatalogId, c: Content)
    ensures Rendered(site, id, c).links == [RenderedLink(SelfLink(site, id))] + RenderedLinks(OrderLinks(c.links))
    ensures BuildContent(Rendered(site, id, c)).links == [SelfLink(site, id)] + NormalLinks(OrderLinks(c.links))
  {
    LinksSurviveRendering(site, id, c);
  }

  lemma RenderedRels(l: Link, rel: Rel)
    ensures HasRel(RenderedLink(l), rel) <==> l.rel == rel
  {
    var rels := RenderedLink(l).rels;
    assert rels == [RelName(l.rel)] && rels[1..] == [];
    assert ParseRel(rels[0]) == Some(l.rel);
    assert LinkRels(rels) == [l.rel] + LinkRels(rels[1..]);
    hide ParseRel, RelName;
  }

  /** The rendered document can be recognised exactly when the row has an identity link. */
  lemma RenderedResolves(reg: Registry, site: Site, id: CatalogId, c: Content)
    requires reg.parse(site.written(id)) == Some(id)
    ensures IsNamed(Rendered(site, id, c))
    ensures Resolves(reg, Rendered(site, id, c)) <==> HasIdentity(c)
    ensures Resolves(reg, Rendered(site, id, c)) ==> IdOf(reg, Rendered(site, id, c)) == id
  {
    RenderedIsNamed(reg, site, id, c);
    RenderedFirst(site, id, c, Catalog);
    RenderedFirst(site, id, c, Shelf);
    hide Rendered, FirstHref, ResolveCatalogId, IsNamed, HasLink;
  }

  lemma RenderedIsNamed(reg: Registry, site: Site, id: CatalogId, c: Content)
    requires reg.parse(site.written(id)) == Some(id)
    ensures IsNamed(Rendered(site, id, c))
    ensures forall href :: ResolveCatalogId(reg, Rendered(site, id, c), href) == Some(id)
  {
    UrnIsStripped(site.written(id));
    hide WithoutUrnPrefix, RenderedLink, SelfLink, OrderLinks;
  }

  lemma {:induction false} FirstRendered(links: seq<Link>, rel: Rel)
    ensures FirstHref(RenderedLinks(links), rel).Some? <==> HasLink(links, rel)
  {
    if links != [] {
      RenderedRels(links[0], rel);
      hide RenderedLink, HasRel;
      FirstRendered(links[1..], rel);
      assert RenderedLinks(links)[1..] == RenderedLinks(links[1..]);
      assert links[0] in links;
      assert forall l :: l in links <==> l == links[0] || l in links[1..];
    }
  }

  lemma SameRelsBeside(self: Link, s: seq<Link>, t: seq<Link>, rel: Rel)
    requires self.rel != rel && forall l :: l in s <==> l in t
    ensures HasLink([self] + s, rel) <==> HasLink(t, rel)
  {
    assert forall l :: l in [self] + s <==> l == self || l in s;
  }

  lemma RenderedFirst(site: Site, id: CatalogId, c: Content, rel: Rel)
    requires rel != Self
    ensures FirstHref(Rendered(site, id, c).links, rel).Some? <==> HasLink(c.links, rel)
  {
    var self, ordered := SelfLink(site, id), OrderLinks(c.links);
    var all := [self] + ordered;
    OrderedLinksAre(c.links);
    FirstRendered(all, rel);
    assert Rendered(site, id, c).links == RenderedLinks(all) by {
      hide RenderedLink;
    }
    hide *;
    SameRelsBeside(self, ordered, c.links, rel);
  }

  predicate Identifies(links: seq<Link>, href: string) {
    exists i :: 0 <= i < |links| && IsIdentityRel(links[i].rel) && links[i].href == href
  }

  lemma IdentityHrefsAre(c: Content, href: string)
    ensures href in IdentityHrefs(c) <==> Identifies(c.links, href)
  {
    if Identifies(c.links, href) {
      var i :| 0 <= i < |c.links| && IsIdentityRel(c.links[i].rel) && c.links[i].href == href;
      assert c.links[i] in c.links;
    }
  }

  lemma SameLinksIdentify(s: seq<Link>, t: seq<Link>, href: string)
    requires forall l :: l in s <==> l in t
    ensures Identifies(s, href) ==> Identifies(t, href)
  {
    if i :| 0 <= i < |s| && IsIdentityRel(s[i].rel) && s[i].href == href {
      assert s[i] in t;
    }
  }

  lemma NormalLinksIdentify(links: seq<Link>, href: string)
    ensures Identifies(NormalLinks(links), href) <==> Identifies(links, href)
  {
    var normal := NormalLinks(links);
    forall i | 0 <= i < |links| ensures normal[i].rel == links[i].rel && normal[i].href == links[i].href {
      assert normal[i] == NormalLink(links[i]);
    }
    hide NormalLinks, NormalLink;
    assert |normal| == |links|;
  }

  lemma OtherLinkIdentifies(self: Link, links: seq<Link>, href: string)
    requires !IsIdentityRel(self.rel)
    ensures Identifies([self] + links, href) <==> Identifies(links, href)
  {
    var all := [self] + links;
    if i :| 0 <= i < |links| && IsIdentityRel(links[i].rel) && links[i].href == href {
      assert all[i + 1] == links[i];
    }
  }

  lemma RereadKeepsIdentity(site: Site, id: CatalogId, c: Content)
    ensures IdentityHrefs(Reread(site, id, c)) == IdentityHrefs(c)
  {
    OrderedLinksAre(c.links);
    var ordered := OrderLinks(c.links);
    forall h ensures h in IdentityHrefs(Reread(site, id, c)) <==> h in IdentityHrefs(c) {
      IdentityHrefsAre(Reread(site, id, c), h);
      IdentityHrefsAre(c, h);
      SameLinksIdentify(c.links, ordered, h);
      SameLinksIdentify(ordered, c.links, h);
      NormalLinksIdentify(ordered, h);
      OtherLinkIdentifies(SelfLink(site, id), NormalLinks(ordered), h);
      hide Identifies, IdentityHrefs, OrderLinks, NormalLinks;
    }
  }

  lemma RenderedCodes(site: Site, id: CatalogId, c: Content)
    requires IsStored(c)
    ensures IsoCodesAreUppercase(Rendered(site, id, c))
  {
    if c.country.Some? { CountrySurvives(c); }
    SortMembers(ByName(Itself), c.subdivisions);
  }

  /** The row of an entry that names a stored id is the row of that id. */
  lemma NamedImport(
    reg: Registry, s: Store, d: Document, st: Stamp, at: int, id: CatalogId, r: CatalogId, t: Store)
    requires id in s && IsNamed(d) && (Resolves(reg, d) ==> IdOf(reg, d) == id)
    ensures Imports(reg, s, d, st, at, r, t) <==>
            && IsoCodesAreUppercase(d) && Resolves(reg, d) && RowFits(reg, BuildContent(d)) && HrefsApart(t)
            && r == id && t == s[id := ReplacedRow(s[id], d, st.recommended, at, st.now)]
  {
    hide IsoCodesAreUppercase, Resolves, RowFits, HrefsApart, ReplacedRow;
    if Resolves(reg, d) {
      hide IdOf;
      assert Claims(reg, s, d, id);
    }
  }

  /** The store with the rendered row read back: the lifecycle of an import, the new stamp, the content reread. */
  function RereadStore(site: Site, s: Store, id: CatalogId, st: Stamp, at: int): Store
    requires id in s
  {
    s[id := CatalogRow(ImportOver(s[id].life, st.recommended, st.now), at, Reread(site, id, s[id].content))]
  }

  lemma RereadStoreStaysApart(site: Site, s: Store, id: CatalogId, st: Stamp, at: int)
    requires HrefsApart(s) && id in s
    ensures HrefsApart(RereadStore(site, s, id, st, at))
  {
    RereadKeepsIdentity(site, id, s[id].content);
    hide Reread, IdentityHrefs;
    var t := RereadStore(site, s, id, st, at);
    assert forall q :: q in s ==> IdentityHrefs(t[q].content) == IdentityHrefs(s[q].content);
  }

  /** Importing the rendering of a stored catalog goes through exactly when the row has an identity link and does
      not store its own link; it then lands on the row itself and leaves one store. */
  lemma RenderedImportExactlyWhen(
    reg: Registry, site: Site, s: Store, id: CatalogId, st: Stamp, at: int, r: CatalogId, t: Store)
    requires HrefsApart(s) && id in s && IsStored(s[id].content) && RowFits(reg, s[id].content)
    requires reg.parse(site.written(id)) == Some(id) && reg.checks(Reread(site, id, s[id].content))
    ensures Imports(reg, s, Rendered(site, id, s[id].content), st, at, r, t) <==>
            && HasIdentity(s[id].content) && LacksOwnLink(site, id, s[id].content)
            && r == id && t == RereadStore(site, s, id, st, at)
  {
    var c := s[id].content;
    var d := Rendered(site, id, c);
    RenderedResolves(reg, site, id, c);
    RenderedCodes(site, id, c);
    ImportingARenderedCatalog(reg, site, id, c);
    RereadFitsExactly(reg, site, id, c);
    RereadStoreStaysApart(site, s, id, st, at);
    hide *;
    NamedImport(reg, s, d, st, at, id, r, t);
    RereadStoreIs(site, s, id, st, at, d);
  }

  lemma RereadStoreIs(site: Site, s: Store, id: CatalogId, st: Stamp, at: int, d: Document)
    requires id in s && BuildContent(d) == Reread(site, id, s[id].content)
    ensures RereadStore(site, s, id, st, at) == s[id := ReplacedRow(s[id], d, st.recommended, at, st.now)]
  {
    hide BuildContent, Reread;
  }

  /** It changes that row only, keeps its version, and keeps its status unless it was a draft. */
  lemma RenderedImportKeepsTheRest(site: Site, s: Store, id: CatalogId, st: Stamp, at: int)
    requires id in s
    ensures var t := RereadStore(site, s, id, st, at);
            && t.Keys == s.Keys && (forall q :: q in s && q != id ==> t[q] == s[q])
            && t[id].content == Reread(site, id, s[id].content) && t[id].life.version == s[id].life.version
            && t[id].life.status == (if s[id].life.status == Draft then Published else s[id].life.status)
            && SelfLink(site, id) in t[id].content.links
  {
    assert Reread(site, id, s[id].content).links[0] == SelfLink(site, id);
  }

  // ---- The second round ------------------------------------------------------------------------------

  /** Rendering a row that stores its own link writes that link twice, with one rel and href. */
  lemma SelfLinkIsWrittenTwice(site: Site, id: CatalogId, stored: Content) returns (k: nat)
    requires SelfLink(site, id) in stored.links
    ensures var again := Rendered(site, id, stored);
            && 0 < k < |again.links| && again.links[0] == again.links[k]
            && k < |BuildContent(again).links| && BuildContent(again).links[0].rel == BuildContent(again).links[k].rel
            && BuildContent(again).links[0].href == BuildContent(again).links[k].href
  {
    hide *;
    RenderedLinksAre(site, id, stored);
    NormalKeepsKey(SelfLink(site, id));
    k := SelfLinkPlace(site, id, stored);
  }

  lemma NormalKeepsKey(l: Link)
    ensures NormalLink(l).rel == l.rel && NormalLink(l).href == l.href
  {
  }

  lemma SelfLinkPlace(site: Site, id: CatalogId, stored: Content) returns (k: nat)
    requires SelfLink(site, id) in stored.links
    ensures 0 < k <= |OrderLinks(stored.links)| && OrderLinks(stored.links)[k - 1] == SelfLink(site, id)
  {
    SortMembers(LinkFirst, stored.links);
    hide SelfLink, Sort;
    var i :| 0 <= i < |OrderLinks(stored.links)| && OrderLinks(stored.links)[i] == SelfLink(site, id);
    k := i + 1;
  }

  /** A row that stores its own link cannot be imported from its rendering, whatever the other rows are. */
  lemma OwnLinkIsRefused(
    reg: Registry, site: Site, id: CatalogId, c: Content, s: Store, st: Stamp, at: int, r: CatalogId, t: Store)
    requires SelfLink(site, id) in c.links
    ensures !Imports(reg, s, Rendered(site, id, c), st, at, r, t)
  {
    var k := SelfLinkIsWrittenTwice(site, id, c);
    hide SelfLink, Rendered, Claims, Resolves, IsoCodesAreUppercase, HrefsApart, BuildContent;
    assert LinksClash(BuildContent(Rendered(site, id, c)).links[0], BuildContent(Rendered(site, id, c)).links[k]);
  }

  /** So a catalog that was imported from its rendering is refused the second time. */
  lemma SecondRoundIsRefused(
    reg: Registry, site: Site, s: Store, id: CatalogId, st: Stamp, at: int, again: Stamp, later: int, r: CatalogId,
    t: Store)
    requires id in s
    ensures !Imports(reg, RereadStore(site, s, id, st, at),
                     Rendered(site, id, RereadStore(site, s, id, st, at)[id].content), again, later, r, t)
  {
    RenderedImportKeepsTheRest(site, s, id, st, at);
    hide *;
    OwnLinkIsRefused(reg, site, id, RereadStore(site, s, id, st, at)[id].content,
                     RereadStore(site, s, id, st, at), again, later, r, t);
  }
}
