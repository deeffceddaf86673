/**
 The importer: a feed-shaped document upserts one catalog per entry, matched by id when the entry names one
 and by its `catalog`/`shelf` href otherwise, inside one transaction that a violated constraint aborts.
 */
module Importer {
  import opened Wrappers
  import opened Lifecycle
  import opened Catalogs
  import Language
  import opened Sorting
  import Text

  /** A link as written: its rels may name relations the registry does not store. */
  datatype DocumentLink = DocumentLink(
    href: string, mediaType: Option<string>, rels: seq<string>, templated: bool, title: Option<string>)

  datatype Document = Document(
    title: string,
    identifier: Option<string>,
    description: Option<string>,
    color: Option<Color>,
    country: Option<string>,
    city: Option<string>,
    coverage: Option<Coverage>,
    kinds: seq<Kind>,
    publicationTypes: seq<PublicationType>,
    languages: seq<string>,
    subdivisions: seq<string>,
    links: seq<DocumentLink>)

  /** What the importer takes from outside: the name-based UUID of an href, reading a UUID, the known
      subdivision codes, the check constraints of the tables, and the input schema. */
  datatype Registry = Registry(
    derive: string -> CatalogId,
    parse: string -> Option<CatalogId>,
    subdivisions: set<string>,
    checks: Content -> bool,
    validates: seq<Document> -> bool)

  /** How one run stamps its rows. */
  datatype Stamp = Stamp(recommended: bool, anchor: int, now: int)

  datatype ImportError =
    | InvalidDocument
    | NoIdentity
    | NotAUuid
    | BadIsoCode
    | SameHref
    | SameId
    | UnknownSubdivision
    | ConstraintViolated

  // ---- Reading one document --------------------------------------------------------------------------

  function ParseRel(s: string): Option<Rel> {
    match s
    case "self" => Some(Self)
    case "catalog" => Some(Catalog)
    case "shelf" => Some(Shelf)
    case "icon" => Some(Icon)
    case "authenticate" => Some(Authenticate)
    case "alternate" => Some(Alternate)
    case "profile" => Some(Profile)
    case "search" => Some(Search)
    case _ => None
  }

  lemma ParseRelMeans(s: string, rel: Rel)
    ensures ParseRel(s) == Some(rel) <==> s == RelName(rel)
  {
  }

  /** The rels of a link that the registry stores, in the order they were written. */
  function LinkRels(rels: seq<string>): seq<Rel> {
    if rels == [] then []
    else
      var rel := ParseRel(rels[0]);
      if rel.Some? then [rel.value] + LinkRels(rels[1..]) else LinkRels(rels[1..])
  }

  function FirstHref(links: seq<DocumentLink>, rel: Rel): Option<string> {
    if links == [] then None
    else if rel in LinkRels(links[0].rels) then Some(links[0].href)
    else FirstHref(links[1..], rel)
  }

  /** `catalog` before `shelf`, and the first link that has it. */
  function IdentityHref(d: Document): Option<string> {
    var h := FirstHref(d.links, Catalog);
    if h.Some? then h else FirstHref(d.links, Shelf)
  }

  predicate IsNamed(d: Document) {
    d.identifier.Some? && d.identifier.value != ""
  }

  function WithoutUrnPrefix(s: string): string {
    if |s| >= 9 && Text.Lower(s[..9]) == "urn:uuid:" then s[9..] else s
  }

  function ResolveCatalogId(reg: Registry, d: Document, href: string): Option<CatalogId> {
    if IsNamed(d) then reg.parse(WithoutUrnPrefix(d.identifier.value)) else Some(reg.derive(href))
  }

  lemma UrnIsStripped(printed: string)
    ensures WithoutUrnPrefix("urn:uuid:" + printed) == printed && "urn:uuid:" + printed != ""
  {
  }

  function StoredLinks(l: DocumentLink, rels: seq<Rel>): seq<Link> {
    if rels == [] then []
    else [Link(l.href, l.mediaType, rels[0], l.templated, l.title)] + StoredLinks(l, rels[1..])
  }

  function BuildLinks(links: seq<DocumentLink>): seq<Link> {
    if links == [] then [] else StoredLinks(links[0], LinkRels(links[0].rels)) + BuildLinks(links[1..])
  }

  function BuildContent(d: Document): Content {
    Content(
      d.title, d.description, if d.color.Some? then d.color.value else Gray, d.country, d.city, d.coverage,
      d.kinds, d.publicationTypes, Language.Normalised(d.languages), d.subdivisions, BuildLinks(d.links))
  }

  // ---- What a document says --------------------------------------------------------------------------

  /** `l` is one rel of a written link, with that link's other fields. */
  ghost predicate IsWritten(l: Link, links: seq<DocumentLink>) {
    exists w :: w in links && RelName(l.rel) in w.rels && l.href == w.href && l.mediaType == w.mediaType
                && l.templated == w.templated && l.title == w.title
  }

  /** The content a document asks for: gray unless it names a color, its language tags normalised, one link for
      every rel the registry knows, and everything else as it is written. */
  ghost predicate IsAsWritten(d: Document, c: Content) {
    && c.title == d.title && c.description == d.description && c.country == d.country && c.city == d.city
    && c.coverage == d.coverage && (if d.color.Some? then c.color == d.color.value else c.color == Gray)
    && c.kinds == d.kinds && c.publicationTypes == d.publicationTypes && c.subdivisions == d.subdivisions
    && |c.languages| == |d.languages|
    && (forall i :: 0 <= i < |c.languages| ==> c.languages[i] == Language.NormaliseLanguageTag(d.languages[i]))
    && (forall l :: l in c.links <==> IsWritten(l, d.links))
  }

  lemma {:induction false} LinkRelsAre(rels: seq<string>, rel: Rel)
    ensures rel in LinkRels(rels) <==> RelName(rel) in rels
  {
    if rels != [] {
      ParseRelMeans(rels[0], rel);
      hide ParseRel, RelName;
      LinkRelsAre(rels[1..], rel);
      assert rels == [rels[0]] + rels[1..];
    }
  }

  lemma {:induction false} StoredLinksAre(w: DocumentLink, rels: seq<Rel>, l: Link)
    ensures l in StoredLinks(w, rels) <==>
            && l.rel in rels && l.href == w.href && l.mediaType == w.mediaType && l.templated == w.templated
            && l.title == w.title
  {
    if rels != [] {
      StoredLinksAre(w, rels[1..], l);
      assert rels == [rels[0]] + rels[1..];
    }
  }

  lemma {:induction false} BuiltLinksAre(links: seq<DocumentLink>, l: Link)
    ensures l in BuildLinks(links) <==> IsWritten(l, links)
  {
    if links != [] {
      BuiltLinksAre(links[1..], l);
      LinkRelsAre(links[0].rels, l.rel);
      StoredLinksAre(links[0], LinkRels(links[0].rels), l);
      hide RelName, LinkRels;
      assert links == [links[0]] + links[1..];
    }
  }

  lemma ContentIsAsWritten(d: Document)
    ensures IsAsWritten(d, BuildContent(d))
  {
    hide IsWritten, Language.NormaliseLanguageTag, BuildLinks;
    forall l ensures l in BuildLinks(d.links) <==> IsWritten(l, d.links) {
      BuiltLinksAre(d.links, l);
    }
  }

  /** The id an entry is stored under: derived from its href unless it names one, and a `urn:uuid:` prefix in
      either case is not part of the name. */
  lemma IdIsNamedOrDerived(reg: Registry, d: Document, href: string, prefix: string, rest: string)
    ensures d.identifier.None? || d.identifier.value == "" ==> ResolveCatalogId(reg, d, href) == Some(reg.derive(href))
    ensures d.identifier == Some(prefix + rest) && Text.Lower(prefix) == "urn:uuid:" ==>
              ResolveCatalogId(reg, d, href) == reg.parse(rest)
    ensures d.identifier == Some(rest) && rest != "" && !(|rest| >= 9 && Text.Lower(rest[..9]) == "urn:uuid:") ==>
              ResolveCatalogId(reg, d, href) == reg.parse(rest)
  {
    if d.identifier == Some(prefix + rest) && Text.Lower(prefix) == "urn:uuid:" {
      assert |prefix| == |Text.Lower(prefix)| == 9;
      assert (prefix + rest)[..9] == prefix && (prefix + rest)[9..] == rest;
    }
  }

  predicate IsUpper(c: char) { 'A' <= c <= 'Z' }

  predicate IsCountryCode(s: string) {
    |s| == 2 && IsUpper(s[0]) && IsUpper(s[1])
  }

  predicate IsSubdivisionCode(s: string) {
    && 4 <= |s| <= 6 && IsUpper(s[0]) && IsUpper(s[1]) && s[2] == '-'
    && forall i :: 3 <= i < |s| ==> IsUpper(s[i]) || '0' <= s[i] <= '9'
  }

  predicate IsoCodesAreUppercase(d: Document) {
    && (d.country.Some? ==> IsCountryCode(d.country.value))
    && forall c :: c in d.subdivisions ==> IsSubdivisionCode(c)
  }

  /** A subdivision code is `country`, a hyphen and `rest`: two capitals, and one to three capitals or digits. */
  predicate IsCodeOf(s: string, country: string, rest: string) {
    && s == country + "-" + rest && |country| == 2 && 1 <= |rest| <= 3
    && (forall k :: 0 <= k < 2 ==> 'A' <= country[k] <= 'Z')
    && forall k :: 0 <= k < |rest| ==> 'A' <= rest[k] <= 'Z' || '0' <= rest[k] <= '9'
  }

  lemma CodesMean(s: string)
    ensures IsCountryCode(s) <==> |s| == 2 && forall k :: 0 <= k < |s| ==> 'A' <= s[k] <= 'Z'
    ensures IsSubdivisionCode(s) <==> exists country, rest :: IsCodeOf(s, country, rest)
  {
    if IsSubdivisionCode(s) {
      assert s == s[..2] + "-" + s[3..];
      assert IsCodeOf(s, s[..2], s[3..]);
    }
    forall country, rest | IsCodeOf(s, country, rest) ensures IsSubdivisionCode(s) { CodeIsRead(s, country, rest); }
  }

  lemma CodeIsRead(s: string, country: string, rest: string)
    requires IsCodeOf(s, country, rest)
    ensures IsSubdivisionCode(s)
  {
    assert s[0] == country[0] && s[1] == country[1] && forall i :: 3 <= i < |s| ==> s[i] == rest[i - 3];
  }

  // ---- The constraints of the tables -----------------------------------------------------------------

  /** `uq_links_catalog_rel_href` and `uq_links_identity_href`, as they bear on two links of one catalog. */
  predicate LinksClash(a: Link, b: Link) {
    a.href == b.href && (a.rel == b.rel || (IsIdentityRel(a.rel) && IsIdentityRel(b.rel)))
  }

  predicate LinksFit(links: seq<Link>) {
    forall i, j :: 0 <= i < j < |links| ==> !LinksClash(links[i], links[j])
  }

  /** The check constraints, the primary keys of the collections, and the links. */
  predicate RowFits(reg: Registry, c: Content) {
    && reg.checks(c)
    && NoRepeats(c.kinds) && NoRepeats(c.publicationTypes) && NoRepeats(c.languages) && NoRepeats(c.subdivisions)
    && LinksFit(c.links)
  }

  /** `uq_links_identity_href`: one URL is one catalog. */
  predicate HrefsApart(s: Store) {
    forall r, q :: r in s && q in s && r != q ==> IdentityHrefs(s[r].content) !! IdentityHrefs(s[q].content)
  }

  predicate IsIdentityLinkOf(s: Store, r: CatalogId, l: Link) {
    r in s && l in s[r].content.links && (l.rel == Catalog || l.rel == Shelf)
  }

  /** Together the constraints say: within a catalog no rel has one href twice, and no href is both its `catalog` and
      its `shelf`; and between two catalogs no such href is shared. */
  lemma ConstraintsMean(links: seq<Link>, s: Store)
    ensures LinksFit(links) <==>
            forall i, j :: 0 <= i < j < |links| && links[i].href == links[j].href ==>
                             && links[i].rel != links[j].rel
                             && !(links[i].rel in {Catalog, Shelf} && links[j].rel in {Catalog, Shelf})
    ensures HrefsApart(s) <==>
            forall r, q, l, k :: r != q && IsIdentityLinkOf(s, r, l) && IsIdentityLinkOf(s, q, k) ==> l.href != k.href
  {
    forall r, q, l, k | HrefsApart(s) && r != q && IsIdentityLinkOf(s, r, l) && IsIdentityLinkOf(s, q, k)
      ensures l.href != k.href
    {
      assert l.href in IdentityHrefs(s[r].content) && k.href in IdentityHrefs(s[q].content);
    }
    if forall r, q, l, k :: r != q && IsIdentityLinkOf(s, r, l) && IsIdentityLinkOf(s, q, k) ==> l.href != k.href {
      forall r, q, h | r in s && q in s && r != q && h in IdentityHrefs(s[r].content)
        ensures h !in IdentityHrefs(s[q].content)
      {
        assert exists l :: IsIdentityLinkOf(s, r, l) && l.href == h;
        assert h in IdentityHrefs(s[q].content) ==> exists k :: IsIdentityLinkOf(s, q, k) && k.href == h;
      }
    }
  }

  // ---- Importing one document ------------------------------------------------------------------------

  ghost predicate Resolves(reg: Registry, d: Document) {
    && IdentityHref(d).Some?
    && ResolveCatalogId(reg, d, IdentityHref(d).value).Some?
  }

  ghost function HrefOf(reg: Registry, d: Document): string
    requires Resolves(reg, d)
  {
    IdentityHref(d).value
  }

  ghost function IdOf(reg: Registry, d: Document): CatalogId
    requires Resolves(reg, d)
  {
    ResolveCatalogId(reg, d, IdentityHref(d).value).value
  }

  predicate Carries(s: Store, r: CatalogId, href: string) {
    r in s && href in IdentityHrefs(s[r].content)
  }

  /** The entry names an id that is stored, so the id decides. */
  ghost predicate FoundById(reg: Registry, s: Store, d: Document)
    requires Resolves(reg, d)
  {
    IsNamed(d) && IdOf(reg, d) in s
  }

  /** Row `r` is what the two lookups return for `d`, id first. */
  ghost predicate Claims(reg: Registry, s: Store, d: Document, r: CatalogId)
    requires Resolves(reg, d)
  {
    if FoundById(reg, s, d) then r == IdOf(reg, d) else Carries(s, r, HrefOf(reg, d))
  }

  function NewRow(d: Document, recommended: bool, orderedAt: int, now: int): CatalogRow {
    CatalogRow(ImportNew(recommended, now), orderedAt, BuildContent(d))
  }

  function ReplacedRow(old_: CatalogRow, d: Document, recommended: bool, orderedAt: int, now: int): CatalogRow {
    CatalogRow(ImportOver(old_.life, recommended, now), orderedAt, BuildContent(d))
  }

  /** Document `d` is imported into `s` onto row `r`, giving `s'`. */
  ghost predicate Imports(reg: Registry, s: Store, d: Document, st: Stamp, orderedAt: int, r: CatalogId, s': Store) {
    && IsoCodesAreUppercase(d) && Resolves(reg, d)
    && (if exists q :: Claims(reg, s, d, q) then
          Claims(reg, s, d, r) && r in s && s' == s[r := ReplacedRow(s[r], d, st.recommended, orderedAt, st.now)]
        else
          r == IdOf(reg, d) && r !in s && s' == s[r := NewRow(d, st.recommended, orderedAt, st.now)])
    && RowFits(reg, BuildContent(d)) && HrefsApart(s')
  }

  /** The lifecycle of a row `r` of `t` that an import over `s` has written: an inserted row is published at once; a
      stored one keeps its version and its status, except that a draft is published, and keeps the date it has. */
  predicate IsLifeAfterImport(s: Store, t: Store, r: CatalogId, st: Stamp) {
    && r in t && t[r].life.recommended == st.recommended
    && (r !in s ==> t[r].life.status == Published && t[r].life.version == 1 && t[r].life.publishedAt == Some(st.now))
    && (r in s ==>
          && t[r].life.version == s[r].life.version
          && t[r].life.status == (if s[r].life.status == Draft then Published else s[r].life.status)
          && t[r].life.publishedAt == (if s[r].life.publishedAt.Some? then s[r].life.publishedAt else Some(st.now)))
  }

  /** What an import stores, and that it stores nothing else. */
  lemma ImportedRowIs(reg: Registry, s: Store, d: Document, st: Stamp, at: int, r: CatalogId, t: Store)
    requires Imports(reg, s, d, st, at, r, t)
    ensures t.Keys == s.Keys + {r} && forall q :: q in s && q != r ==> t[q] == s[q]
    ensures IsLifeAfterImport(s, t, r, st) && t[r].createdAt == at && IsAsWritten(d, t[r].content)
    ensures reg.checks(t[r].content) && LinksFit(t[r].content.links) && HrefsApart(t)
    ensures NoRepeats(t[r].content.kinds) && NoRepeats(t[r].content.publicationTypes)
    ensures NoRepeats(t[r].content.languages) && NoRepeats(t[r].content.subdivisions)
  {
    ContentIsAsWritten(d);
    hide IsAsWritten, BuildContent;
  }

  lemma ClaimsAreUnique(reg: Registry, s: Store, d: Document, r: CatalogId, q: CatalogId)
    requires Resolves(reg, d) && HrefsApart(s) && Claims(reg, s, d, r) && Claims(reg, s, d, q)
    ensures r == q
  {
  }

  lemma ImportsIsDeterministic(
    reg: Registry, s: Store, d: Document, st: Stamp, at: int, r: CatalogId, t: Store, q: CatalogId, u: Store)
    requires HrefsApart(s) && Imports(reg, s, d, st, at, r, t) && Imports(reg, s, d, st, at, q, u)
    ensures r == q && t == u
  {
  }

  // ---- Importing a feed ------------------------------------------------------------------------------

  /** No two entries resolve to one href or one id, and every entry resolves. */
  ghost predicate IdentitiesAreUnique(reg: Registry, docs: seq<Document>) {
    && (forall d :: d in docs ==> Resolves(reg, d))
    && (forall i, j :: 0 <= i < j < |docs| ==>
                         && HrefOf(reg, docs[i]) != HrefOf(reg, docs[j])
                         && IdOf(reg, docs[i]) != IdOf(reg, docs[j]))
  }

  /** What is wrong with entry `k`, given the ones before it; a shared href is reported before a shared id. */
  ghost function IdentityProblem(reg: Registry, docs: seq<Document>, k: nat): Option<ImportError>
    requires k < |docs|
  {
    if IdentityHref(docs[k]).None? then Some(NoIdentity)
    else if !Resolves(reg, docs[k]) then Some(NotAUuid)
    else if exists j :: 0 <= j < k && Resolves(reg, docs[j]) && HrefOf(reg, docs[j]) == HrefOf(reg, docs[k])
    then Some(SameHref)
    else if exists j :: 0 <= j < k && Resolves(reg, docs[j]) && IdOf(reg, docs[j]) == IdOf(reg, docs[k])
    then Some(SameId)
    else None
  }

  lemma UniqueMeansNoProblem(reg: Registry, docs: seq<Document>)
    ensures IdentitiesAreUnique(reg, docs) <==> forall k :: 0 <= k < |docs| ==> IdentityProblem(reg, docs, k).None?
  {
    hide ResolveCatalogId, IdentityHref;
    if IdentitiesAreUnique(reg, docs) {
      forall k | 0 <= k < |docs| ensures IdentityProblem(reg, docs, k).None? { assert docs[k] in docs; }
    }
    if forall k :: 0 <= k < |docs| ==> IdentityProblem(reg, docs, k).None? {
      forall k | 0 <= k < |docs| ensures Resolves(reg, docs[k]) { assert IdentityProblem(reg, docs, k).None?; }
      forall i, j | 0 <= i < j < |docs|
        ensures HrefOf(reg, docs[i]) != HrefOf(reg, docs[j]) && IdOf(reg, docs[i]) != IdOf(reg, docs[j])
      {
        assert IdentityProblem(reg, docs, j).None?;
      }
    }
  }

  lemma EachResolves(reg: Registry, docs: seq<Document>, k: nat)
    requires IdentitiesAreUnique(reg, docs) && k < |docs|
    ensures IdentityHref(docs[k]).Some? && Resolves(reg, docs[k])
  {
    assert docs[k] in docs;
  }

  predicate SubdivisionsAreKnown(reg: Registry, docs: seq<Document>) {
    forall d, c :: d in docs && c in d.subdivisions ==> c in reg.subdivisions
  }

  lemma SubdivisionsAreKnownMeans(reg: Registry, docs: seq<Document>)
    ensures SubdivisionsAreKnown(reg, docs) <==>
            forall d, c :: d in docs && c in d.subdivisions ==> c in reg.subdivisions
  {
  }

  /** The store before each entry and after the last, and the row each entry lands on. */
  ghost predicate IsImport(reg: Registry, docs: seq<Document>, st: Stamp, stores: seq<Store>, rows: seq<CatalogId>) {
    && |stores| == |docs| + 1 && |rows| == |docs|
    && forall i :: 0 <= i < |docs| ==> Imports(reg, stores[i], docs[i], st, st.anchor - i, rows[i], stores[i + 1])
  }

  lemma ImportStep(reg: Registry, docs: seq<Document>, st: Stamp, stores: seq<Store>, rows: seq<CatalogId>, i: nat)
    requires IsImport(reg, docs, st, stores, rows) && i < |docs|
    ensures Imports(reg, stores[i], docs[i], st, st.anchor - i, rows[i], stores[i + 1])
  {
  }

  /** How many of the first `k` entries were inserted rather than updated. */
  ghost function CreatedCount(stores: seq<Store>, rows: seq<CatalogId>, k: nat): nat
    requires k <= |rows| && k <= |stores|
  {
    if k == 0 then 0 else CreatedCount(stores, rows, k - 1) + if rows[k - 1] in stores[k - 1] then 0 else 1
  }

  /** One import session: what is committed, and what the open transaction holds. */
  class ImportSession {
    const reg: Registry
    var stored: Store
    var session: Store

    constructor (reg: Registry, stored: Store)
      ensures this.reg == reg && this.stored == stored && session == stored
    {
      this.reg, this.stored, this.session := reg, stored, stored;
    }

    method ResolveExistingCatalog(d: Document, href: string, id: CatalogId) returns (r: Option<CatalogId>)
      requires Resolves(reg, d) && href == HrefOf(reg, d) && id == IdOf(reg, d)
      ensures r.Some? ==> Claims(reg, session, d, r.value) && r.value in session
      ensures r.None? ==> forall q :: !Claims(reg, session, d, q)
    {
      if IsNamed(d) && id in session { return Some(id); }
      if q :| q in session && Carries(session, q, href) { return Some(q); }
      return None;
    }

    /** A check or unique constraint is only known to fail once the row is flushed. */
    method ImportCatalogDocument(d: Document, st: Stamp, orderedAt: int)
      returns (r: Result<(CatalogId, bool), ImportError>)
      requires HrefsApart(session)
      modifies this`session
      ensures r.Ok? ==> && Imports(reg, old(session), d, st, orderedAt, r.value.0, session)
                        && r.value.1 == (r.value.0 !in old(session)) && HrefsApart(session)
      ensures r.Ok? ==> && session.Keys == old(session).Keys + {r.value.0}
                        && (forall q :: q in old(session) && q != r.value.0 ==> session[q] == old(session)[q])
                        && IsLifeAfterImport(old(session), session, r.value.0, st)
                        && session[r.value.0].createdAt == orderedAt && IsAsWritten(d, session[r.value.0].content)
      ensures r.Error? ==> forall q, t :: !Imports(reg, old(session), d, st, orderedAt, q, t)
      ensures r.Error? ==>
                r.error == if !IsoCodesAreUppercase(d) then BadIsoCode
                           else if IdentityHref(d).None? then NoIdentity
                           else if !Resolves(reg, d) then NotAUuid
                           else ConstraintViolated
      ensures r == Error(BadIsoCode) <==> || (d.country.Some? && !IsCountryCode(d.country.value))
                                          || exists c :: c in d.subdivisions && !IsSubdivisionCode(c)
    {
      if !IsoCodesAreUppercase(d) { return Error(BadIsoCode); }
      var href := IdentityHref(d);
      if href.None? { return Error(NoIdentity); }
      var id := ResolveCatalogId(reg, d, href.value);
      if id.None? { return Error(NotAUuid); }
      var existing := ResolveExistingCatalog(d, href.value, id.value);
      ghost var before := session;
      var row := if existing.Some? then existing.value else id.value;
      if existing.None? && row in session { return Error(ConstraintViolated); }
      session := session[row := if existing.Some?
                                then ReplacedRow(session[row], d, st.recommended, orderedAt, st.now)
                                else NewRow(d, st.recommended, orderedAt, st.now)];
      if !RowFits(reg, BuildContent(d)) || !HrefsApart(session) {
        forall q, t ensures !Imports(reg, before, d, st, orderedAt, q, t) {
          if Imports(reg, before, d, st, orderedAt, q, t) && existing.Some? { ClaimsAreUnique(reg, before, d, row, q); }
        }
        return Error(ConstraintViolated);
      }
      ImportedRowIs(reg, before, d, st, orderedAt, row, session);
      return Ok((row, existing.None?));
    }

    method AssertIdentitiesAreUnique(docs: seq<Document>) returns (r: Option<ImportError>)
      ensures r.None? <==> IdentitiesAreUnique(reg, docs)
      ensures r.Some? ==> exists k :: 0 <= k < |docs| && r == IdentityProblem(reg, docs, k)
                                      && forall i :: 0 <= i < k ==> IdentityProblem(reg, docs, i).None?
    {
      UniqueMeansNoProblem(reg, docs);
      hide IdentitiesAreUnique;
      var byHref: set<string>, byId: set<CatalogId> := {}, {};
      for k := 0 to |docs|
        invariant forall i :: 0 <= i < k ==> Resolves(reg, docs[i]) && IdentityProblem(reg, docs, i).None?
        invariant forall h :: h in byHref <==> exists i :: 0 <= i < k && HrefOf(reg, docs[i]) == h
        invariant forall x :: x in byId <==> exists i :: 0 <= i < k && IdOf(reg, docs[i]) == x
      {
        ghost var problem := IdentityProblem(reg, docs, k);
        var href := IdentityHref(docs[k]);
        if href.None? { return Some(NoIdentity); }
        var id := ResolveCatalogId(reg, docs[k], href.value);
        if id.None? { return Some(NotAUuid); }
        if href.value in byHref { return Some(SameHref); }
        if id.value in byId { return Some(SameId); }
        byHref, byId := byHref + {href.value}, byId + {id.value};
      }
      return None;
    }

    method ImportFeedDocument(docs: seq<Document>, st: Stamp)
      returns (r: Result<(nat, nat), ImportError>, ghost stores: seq<Store>, ghost rows: seq<CatalogId>)
      requires HrefsApart(session)
      modifies this`session
      ensures r.Ok? ==>
                && reg.validates(docs) && IdentitiesAreUnique(reg, docs) && SubdivisionsAreKnown(reg, docs)
                && IsImport(reg, docs, st, stores, rows) && stores[0] == old(session) && stores[|docs|] == session
                && r.value.0 == CreatedCount(stores, rows, |docs|) && r.value.0 + r.value.1 == |docs|
      ensures r.Error? ==> !(reg.validates(docs) && IdentitiesAreUnique(reg, docs) && SubdivisionsAreKnown(reg, docs)
                             && exists ss, rs :: IsImport(reg, docs, st, ss, rs) && ss[0] == old(session))
      ensures r.Error? ==>
                if !reg.validates(docs) then r.error == InvalidDocument
                else if !IdentitiesAreUnique(reg, docs) then r.error in {NoIdentity, NotAUuid, SameHref, SameId}
                else if !SubdivisionsAreKnown(reg, docs) then r.error == UnknownSubdivision
                else r.error in {BadIsoCode, ConstraintViolated}
      ensures r.Ok? ==> forall d, c :: d in docs && c in d.subdivisions ==> c in reg.subdivisions
      ensures r == Error(UnknownSubdivision) ==>
                exists d, c :: d in docs && c in d.subdivisions && c !in reg.subdivisions
    {
      SubdivisionsAreKnownMeans(reg, docs);
      hide Imports, IdentitiesAreUnique, SubdivisionsAreKnown, HrefsApart;
      stores, rows := [session], [];
      if !reg.validates(docs) { return Error(InvalidDocument), stores, rows; }
      var clash := AssertIdentitiesAreUnique(docs);
      if clash.Some? { return Error(clash.value), stores, rows; }
      if !SubdivisionsAreKnown(reg, docs) { return Error(UnknownSubdivision), stores, rows; }
      var created, updated := 0, 0;
      for k := 0 to |docs|
        invariant |stores| == k + 1 && |rows| == k && stores[0] == old(session) && stores[k] == session
        invariant HrefsApart(session)
        invariant forall i :: 0 <= i < k ==> Imports(reg, stores[i], docs[i], st, st.anchor - i, rows[i], stores[i + 1])
        invariant created == CreatedCount(stores, rows, k) && created + updated == k
      {
        ghost var before := stores;
        var one := ImportCatalogDocument(docs[k], st, st.anchor - k);
        if one.Error? {
          EachResolves(reg, docs, k);
          forall ss, rs ensures !(IsImport(reg, docs, st, ss, rs) && ss[0] == old(session)) {
            if IsImport(reg, docs, st, ss, rs) && ss[0] == old(session) {
              SameImportSoFar(reg, docs, st, before, rows, ss, rs, k);
            }
          }
          return Error(one.error), stores, rows;
        }
        CreatedCountOfPrefix(stores, rows, stores + [session], rows + [one.value.0], k);
        stores, rows := stores + [session], rows + [one.value.0];
        if one.value.1 { created := created + 1; } else { updated := updated + 1; }
      }
      return Ok((created, updated)), stores, rows;
    }

    /** The whole run is one transaction: any error leaves the database as it was. */
    method SeedFromFile(docs: seq<Document>, st: Stamp)
      returns (r: Result<(nat, nat), ImportError>, ghost stores: seq<Store>, ghost rows: seq<CatalogId>)
      requires session == stored && HrefsApart(stored)
      modifies this
      ensures session == stored
      ensures r.Error? ==> stored == old(stored)
      ensures r.Ok? ==>
                && IdentitiesAreUnique(reg, docs) && IsImport(reg, docs, st, stores, rows)
                && stores[0] == old(stored) && stores[|docs|] == stored
                && r.value.0 == CreatedCount(stores, rows, |docs|) && r.value.0 + r.value.1 == |docs|
    {
      r, stores, rows := ImportFeedDocument(docs, st);
      if r.Ok? { stored := session; } else { session := stored; }
    }
  }

  lemma SameImportSoFar(
    reg: Registry, docs: seq<Document>, st: Stamp, stores: seq<Store>, rows: seq<CatalogId>,
    ss: seq<Store>, rs: seq<CatalogId>, k: nat)
    requires k < |docs| && |stores| == k + 1 && |rows| == k && HrefsApart(stores[0])
    requires forall i :: 0 <= i < k ==> Imports(reg, stores[i], docs[i], st, st.anchor - i, rows[i], stores[i + 1])
    requires IsImport(reg, docs, st, ss, rs) && ss[0] == stores[0]
    ensures ss[k] == stores[k]
    ensures Imports(reg, stores[k], docs[k], st, st.anchor - k, rs[k], ss[k + 1])
  {
    var i := 0;
    while i < k
      invariant 0 <= i <= k && ss[i] == stores[i] && HrefsApart(stores[i])
    {
      ImportsIsDeterministic(reg, stores[i], docs[i], st, st.anchor - i, rows[i], stores[i + 1], rs[i], ss[i + 1]);
      i := i + 1;
    }
  }

  lemma {:induction false} CreatedCountOfPrefix(
    stores: seq<Store>, rows: seq<CatalogId>, stores': seq<Store>, rows': seq<CatalogId>, k: nat)
    requires k <= |rows| && k <= |stores| && stores <= stores' && rows <= rows'
    ensures CreatedCount(stores, rows, k) == CreatedCount(stores', rows', k)
  {
    if k > 0 { CreatedCountOfPrefix(stores, rows, stores', rows', k - 1); }
  }
}
