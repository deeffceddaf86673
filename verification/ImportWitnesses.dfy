/**
 Two documents that pass the uniqueness check and still overwrite one of their own entries, at every registry
 that takes their rows.
 */
module ImportWitnesses {
  import opened Wrappers
  import opened Lifecycle
  import opened Catalogs
  import opened Importer
  import opened ImportTheorems
  import opened Sorting

  function Entry(title: string, identifier: Option<string>, links: seq<DocumentLink>): Document {
    Document(title, identifier, None, None, None, None, None, [Public], [], [], [], links)
  }

  function PlainLink(href: string, rel: string): DocumentLink {
    DocumentLink(href, None, [rel], false, None)
  }

  function StoredLink(href: string, rel: Rel): Link {
    Link(href, None, rel, false, None)
  }

  // ---- The entries -----------------------------------------------------------------------------------

  lemma FirstLink(href: string, rel: string, parsed: Rel, rest: seq<DocumentLink>)
    requires ParseRel(rel) == Some(parsed)
    ensures BuildLinks([PlainLink(href, rel)] + rest) == [StoredLink(href, parsed)] + BuildLinks(rest)
    ensures FirstHref([PlainLink(href, rel)] + rest, parsed) == Some(href)
  {
    var l, links := PlainLink(href, rel), [PlainLink(href, rel)] + rest;
    assert links[1..] == rest && l.rels[1..] == [];
    assert LinkRels(l.rels) == [parsed] + LinkRels([]);
    assert [parsed][1..] == [];
    assert StoredLinks(l, [parsed]) == [StoredLink(href, parsed)] + StoredLinks(l, []);
  }

  /** An entry with one `catalog` link. */
  function Browsed(title: string, identifier: Option<string>, href: string): Document {
    Entry(title, identifier, [PlainLink(href, "catalog")])
  }

  /** An entry with a `catalog` link and a `shelf` link. */
  function Shelved(title: string, href: string, shelf: string): Document {
    Entry(title, None, [PlainLink(href, "catalog"), PlainLink(shelf, "shelf")])
  }

  lemma BrowsedIs(title: string, identifier: Option<string>, href: string)
    ensures IdentityHref(Browsed(title, identifier, href)) == Some(href)
    ensures BuildContent(Browsed(title, identifier, href)).links == [StoredLink(href, Catalog)]
    ensures Hrefs(Browsed(title, identifier, href)) == {href}
  {
    FirstLink(href, "catalog", Catalog, []);
    assert [PlainLink(href, "catalog")] + [] == [PlainLink(href, "catalog")];
    hide ParseRel;
    var links := BuildContent(Browsed(title, identifier, href)).links;
    assert links[0] in links && IsIdentityRel(links[0].rel);
  }

  lemma ShelvedIs(title: string, href: string, shelf: string)
    ensures IdentityHref(Shelved(title, href, shelf)) == Some(href)
    ensures BuildContent(Shelved(title, href, shelf)).links == [StoredLink(href, Catalog), StoredLink(shelf, Shelf)]
    ensures Hrefs(Shelved(title, href, shelf)) == {href, shelf}
  {
    var one, two := PlainLink(href, "catalog"), PlainLink(shelf, "shelf");
    FirstLink(href, "catalog", Catalog, [two]);
    FirstLink(shelf, "shelf", Shelf, []);
    assert [two] + [] == [two] && [one] + [two] == [one, two];
    hide ParseRel;
    var links := BuildContent(Shelved(title, href, shelf)).links;
    assert links[0] in links && links[1] in links && IsIdentityRel(links[0].rel) && IsIdentityRel(links[1].rel);
  }

  lemma Fits(reg: Registry, d: Document)
    requires reg.checks(BuildContent(d)) && d == Entry(d.title, d.identifier, d.links)
    requires LinksFit(BuildLinks(d.links))
    ensures RowFits(reg, BuildContent(d)) && IsoCodesAreUppercase(d)
  {
    hide LinksFit, BuildLinks;
    assert BuildContent(d).languages == [];
  }

  // ---- The two imports -------------------------------------------------------------------------------

  /** The entry finds no row, so its own is inserted. */
  lemma Inserts(reg: Registry, s: Store, d: Document, st: Stamp, at: int)
    requires Resolves(reg, d) && IsoCodesAreUppercase(d) && RowFits(reg, BuildContent(d))
    requires (forall q :: !Claims(reg, s, d, q)) && IdOf(reg, d) !in s
    requires HrefsApart(s[IdOf(reg, d) := NewRow(d, st.recommended, at, st.now)])
    ensures Imports(reg, s, d, st, at, IdOf(reg, d), s[IdOf(reg, d) := NewRow(d, st.recommended, at, st.now)])
  {
    hide Resolves, IsoCodesAreUppercase, RowFits, HrefsApart, Claims;
  }

  /** The entry claims a row, so that one is replaced. */
  lemma Replaces(reg: Registry, s: Store, d: Document, st: Stamp, at: int, r: CatalogId)
    requires Resolves(reg, d) && IsoCodesAreUppercase(d) && RowFits(reg, BuildContent(d))
    requires Claims(reg, s, d, r) && r in s
    requires HrefsApart(s[r := ReplacedRow(s[r], d, st.recommended, at, st.now)])
    ensures Imports(reg, s, d, st, at, r, s[r := ReplacedRow(s[r], d, st.recommended, at, st.now)])
  {
    hide Resolves, IsoCodesAreUppercase, RowFits, HrefsApart, Claims;
  }

  lemma OneRowIsApart(s: Store, r: CatalogId)
    requires s.Keys <= {r}
    ensures HrefsApart(s)
  {
  }

  lemma TwoStepImport(
    reg: Registry, docs: seq<Document>, st: Stamp, s: Store, t: Store, u: Store, r: CatalogId, q: CatalogId)
    requires |docs| == 2
    requires Imports(reg, s, docs[0], st, st.anchor, r, t) && Imports(reg, t, docs[1], st, st.anchor - 1, q, u)
    ensures IsImport(reg, docs, st, [s, t, u], [r, q])
    ensures CreatedCount([s, t, u], [r, q], 2) == (if r in s then 0 else 1) + if q in t then 0 else 1
  {
    hide Imports;
    assert CreatedCount([s, t, u], [r, q], 1) == if r in s then 0 else 1;
  }

  lemma TwoIdentities(reg: Registry, docs: seq<Document>)
    requires |docs| == 2 && Resolves(reg, docs[0]) && Resolves(reg, docs[1])
    requires HrefOf(reg, docs[0]) != HrefOf(reg, docs[1]) && IdOf(reg, docs[0]) != IdOf(reg, docs[1])
    ensures IdentitiesAreUnique(reg, docs)
  {
    hide Resolves, HrefOf, IdOf;
  }

  lemma NoSubdivisions(reg: Registry, docs: seq<Document>)
    requires |docs| == 2 && docs[0].subdivisions == [] && docs[1].subdivisions == []
    ensures SubdivisionsAreKnown(reg, docs)
  {
  }

  /** `d` replaces the only row, which it claims. */
  lemma ReplacesTheOnlyRow(reg: Registry, s: Store, d: Document, st: Stamp, at: int, r: CatalogId)
    returns (t: Store)
    requires s.Keys == {r} && Resolves(reg, d) && IsoCodesAreUppercase(d) && RowFits(reg, BuildContent(d))
    requires Claims(reg, s, d, r)
    ensures Imports(reg, s, d, st, at, r, t) && t.Keys == {r} && t[r].content == BuildContent(d)
  {
    t := s[r := ReplacedRow(s[r], d, st.recommended, at, st.now)];
    hide Resolves, IsoCodesAreUppercase, RowFits, HrefsApart, Claims, BuildContent;
    OneRowIsApart(t, r);
    Replaces(reg, s, d, st, at, r);
  }

  lemma InsertsTheFirstRow(reg: Registry, d: Document, st: Stamp, at: int) returns (t: Store)
    requires Resolves(reg, d) && IsoCodesAreUppercase(d) && RowFits(reg, BuildContent(d)) && !IsNamed(d)
    ensures Imports(reg, map[], d, st, at, IdOf(reg, d), t)
    ensures t.Keys == {IdOf(reg, d)} && t[IdOf(reg, d)].content == BuildContent(d)
  {
    var empty: Store := map[];
    assert forall q :: !Claims(reg, empty, d, q);
    hide Resolves, IsoCodesAreUppercase, RowFits, HrefsApart, Claims, BuildContent, IdOf;
    t := empty[IdOf(reg, d) := NewRow(d, st.recommended, at, st.now)];
    OneRowIsApart(t, IdOf(reg, d));
    Inserts(reg, empty, d, st, at);
  }

  lemma Recognised(reg: Registry, s: Store, d: Document, r: CatalogId)
    requires Resolves(reg, d) && r in s && !FoundById(reg, s, d) && HrefOf(reg, d) in IdentityHrefs(s[r].content)
    ensures Claims(reg, s, d, r)
  {
  }

  /** The first entry's shelf is the second one's catalog: the second replaces the first, reported as
      one created and one updated. */
  lemma ShelfOfOneIsCatalogOfAnother(reg: Registry, st: Stamp, href: string, shared: string)
    returns (docs: seq<Document>, stores: seq<Store>, rows: seq<CatalogId>)
    requires href != shared && reg.derive(href) != reg.derive(shared)
    requires reg.checks(BuildContent(Shelved("Browse", href, shared)))
    requires reg.checks(BuildContent(Browsed("Other", None, shared)))
    ensures docs == [Shelved("Browse", href, shared), Browsed("Other", None, shared)]
    ensures IdentitiesAreUnique(reg, docs) && SubdivisionsAreKnown(reg, docs)
    ensures IsImport(reg, docs, st, stores, rows) && stores[0] == map[]
    ensures rows == [reg.derive(href), reg.derive(href)] && CreatedCount(stores, rows, 2) == 1
    ensures stores[2].Keys == {reg.derive(href)} && stores[2][reg.derive(href)].content == BuildContent(docs[1])
  {
    var one, two, r := Shelved("Browse", href, shared), Browsed("Other", None, shared), reg.derive(href);
    ShelvedIs("Browse", href, shared);
    BrowsedIs("Other", None, shared);
    Fits(reg, one);
    Fits(reg, two);
    assert Resolves(reg, one) && Resolves(reg, two) && IdOf(reg, one) == r && IdOf(reg, two) == reg.derive(shared);
    assert HrefOf(reg, one) == href && HrefOf(reg, two) == shared && !IsNamed(one) && !IsNamed(two);
    NoSubdivisions(reg, [one, two]);
    hide *;
    var first := InsertsTheFirstRow(reg, one, st, st.anchor);
    NotNamedIsNotFound(reg, first, two);
    HrefsOf(one);
    Recognised(reg, first, two, r);
    var second := ReplacesTheOnlyRow(reg, first, two, st, st.anchor - 1, r);
    docs, stores, rows := [one, two], [map[], first, second], [r, r];
    TwoStepImport(reg, docs, st, map[], first, second, r, r);
    TwoIdentities(reg, docs);
  }

  lemma NotNamedIsNotFound(reg: Registry, s: Store, d: Document)
    requires Resolves(reg, d) && !IsNamed(d)
    ensures !FoundById(reg, s, d)
  {
  }

  lemma HrefsOf(d: Document)
    ensures Hrefs(d) == IdentityHrefs(BuildContent(d))
  {
  }

  /** A stored row carries the href of the first entry and is named by the second: both land on it. */
  lemma StoredRowClaimedTwice(
    reg: Registry, st: Stamp, held: string, href: string, written: string, id: CatalogId, stored: Store)
    returns (docs: seq<Document>, stores: seq<Store>, rows: seq<CatalogId>)
    requires held != href && reg.parse(written) == Some(id) && reg.derive(held) != id
    requires reg.checks(BuildContent(Browsed("Moved", None, held)))
    requires reg.checks(BuildContent(Browsed("Named", Some("urn:uuid:" + written), href)))
    requires stored.Keys == {id} && held in IdentityHrefs(stored[id].content)
    ensures docs == [Browsed("Moved", None, held), Browsed("Named", Some("urn:uuid:" + written), href)]
    ensures IdentitiesAreUnique(reg, docs) && SubdivisionsAreKnown(reg, docs)
    ensures IsImport(reg, docs, st, stores, rows)
    ensures HrefsApart(stores[0]) && stores[0] == stored && rows == [id, id]
    ensures stores[2].Keys == {id} && stores[2][id].content == BuildContent(docs[1])
  {
    var urn := "urn:uuid:" + written;
    var one, two := Browsed("Moved", None, held), Browsed("Named", Some(urn), href);
    BrowsedIs("Moved", None, held);
    BrowsedIs("Named", Some(urn), href);
    UrnIsStripped(written);
    Fits(reg, one);
    Fits(reg, two);
    hide WithoutUrnPrefix;
    assert Resolves(reg, one) && Resolves(reg, two) && IdOf(reg, one) == reg.derive(held) && IdOf(reg, two) == id;
    assert HrefOf(reg, one) == held && HrefOf(reg, two) == href && !IsNamed(one) && IsNamed(two);
    NoSubdivisions(reg, [one, two]);
    hide *;
    NotNamedIsNotFound(reg, stored, one);
    Recognised(reg, stored, one, id);
    var first := ReplacesTheOnlyRow(reg, stored, one, st, st.anchor, id);
    NamedIsFound(reg, first, two);
    var second := ReplacesTheOnlyRow(reg, first, two, st, st.anchor - 1, id);
    docs, stores, rows := [one, two], [stored, first, second], [id, id];
    TwoStepImport(reg, docs, st, stored, first, second, id, id);
    TwoIdentities(reg, docs);
    OneRowIsApart(stored, id);
  }

  lemma NamedIsFound(reg: Registry, s: Store, d: Document)
    requires Resolves(reg, d) && IsNamed(d) && IdOf(reg, d) in s
    ensures Claims(reg, s, d, IdOf(reg, d))
  {
  }
}
