/** A stored catalog: its row, its value collections and its links. */
module Catalogs {
  import opened Wrappers
  import opened Lifecycle

  datatype Rel = Self | Catalog | Shelf | Icon | Authenticate | Alternate | Profile | Search

  /** How a rel is written. */
  function RelName(r: Rel): string {
    match r
    case Self => "self"
    case Catalog => "catalog"
    case Shelf => "shelf"
    case Icon => "icon"
    case Authenticate => "authenticate"
    case Alternate => "alternate"
    case Profile => "profile"
    case Search => "search"
  }

  datatype Kind = Open | Public | Academic | School | Specialized

  datatype PublicationType = Ebook | Audiobook | Comic | Newspaper | Magazine | Journal | Article

  datatype Color = Gray | Red | Yellow | Blue | Green | Purple | Orange | Pink

  datatype Coverage = Worldwide | Country | Subdivisions | Local

  datatype Link = Link(href: string, mediaType: Option<string>, rel: Rel, templated: bool, title: Option<string>)

  /** What a source document decides about a catalog. The collections are in the order they were read. */
  datatype Content = Content(
    title: string,
    description: Option<string>,
    color: Color,
    country: Option<string>,
    city: Option<string>,
    coverage: Option<Coverage>,
    kinds: seq<Kind>,
    publicationTypes: seq<PublicationType>,
    languages: seq<string>,
    subdivisions: seq<string>,
    links: seq<Link>)

  datatype CatalogRow = CatalogRow(life: LifecycleColumns, createdAt: int, content: Content)

  type Store = map<CatalogId, CatalogRow>

  /** The rels a catalog is recognised by across imports. */
  predicate IsIdentityRel(r: Rel) {
    r == Catalog || r == Shelf
  }

  function IdentityHrefs(c: Content): set<string> {
    set l | l in c.links && IsIdentityRel(l.rel) :: l.href
  }
}
