/** The order of the entries in a document reaches the recommended query and every group of the feed. */
module FileOrder {
  import opened Lifecycle
  import opened Catalogs
  import opened Importer
  import opened ImportTheorems
  import opened Feed
  import opened Restrictions
  import opened Sorting
  import Language

  /** The imported rows as stored, in the order of the file. */
  function InFileOrder(s: Store, rows: seq<CatalogId>): (r: seq<Entry>)
    requires forall i :: 0 <= i < |rows| ==> rows[i] in s
    ensures |r| == |rows| && forall i :: 0 <= i < |r| ==> r[i] == Entry(rows[i], s[rows[i]])
  {
    seq(|rows|, i requires 0 <= i < |rows| => Entry(rows[i], s[rows[i]]))
  }

  function FromFile(rows: seq<CatalogId>): Entry -> bool {
    (e: Entry) => e.id in rows
  }

  /** Each row was written a tick earlier than the one before it. */
  ghost predicate AreStaggered(s: Store, rows: seq<CatalogId>, anchor: int) {
    NoRepeats(rows) && forall i :: 0 <= i < |rows| ==> rows[i] in s && s[rows[i]].createdAt == anchor - i
  }

  lemma ImportStaggers(reg: Registry, docs: seq<Document>, st: Stamp, stores: seq<Store>, rows: seq<CatalogId>)
    requires IsImport(reg, docs, st, stores, rows)
    requires IdentitiesAreUnique(reg, docs) && HrefsApart(stores[0]) && NoClash(reg, stores[0], docs)
    ensures AreStaggered(stores[|docs|], rows, st.anchor)
  {
    EveryEntryOnItsOwnRow(reg, docs, st, stores, rows);
  }

  lemma FileOrderIsSorted(collates: (string, string) -> bool, s: Store, rows: seq<CatalogId>, anchor: int)
    requires AreStaggered(s, rows, anchor)
    ensures Sorted(NewestFirst(collates), InFileOrder(s, rows)) && NoRepeats(InFileOrder(s, rows))
  {
  }

  lemma SameImportedRows(s: Store, rows: seq<CatalogId>, anchor: int, scan: seq<Entry>)
    requires AreStaggered(s, rows, anchor) && IsScan(s, scan)
    ensures multiset(Filter(FromFile(rows), Filter(Listed, scan))) == multiset(Filter(Listed, InFileOrder(s, rows)))
    ensures forall e :: e in Filter(FromFile(rows), Filter(Listed, scan)) ==> e.id in s && s[e.id] == e.row
  {
    var a, b := Filter(FromFile(rows), Filter(Listed, scan)), Filter(Listed, InFileOrder(s, rows));
    FilterMembers(Listed, scan);
    FilterMembers(FromFile(rows), Filter(Listed, scan));
    FilterMembers(Listed, InFileOrder(s, rows));
    FilterNoRepeats(Listed, scan);
    FilterNoRepeats(FromFile(rows), Filter(Listed, scan));
    FileOrderIsSorted((x, y) => true, s, rows, anchor);
    FilterNoRepeats(Listed, InFileOrder(s, rows));
    hide Filter, Listed, IsScan, AreStaggered;
    forall e ensures e in a <==> e in b {
      InFileOrderMembers(s, rows, anchor, scan, e);
    }
    SameMembersSameMultiset(a, b);
  }

  lemma InFileOrderMembers(s: Store, rows: seq<CatalogId>, anchor: int, scan: seq<Entry>, e: Entry)
    requires AreStaggered(s, rows, anchor) && IsScan(s, scan)
    ensures e in InFileOrder(s, rows) <==> e in scan && FromFile(rows)(e)
  {
  }

  /** After an import without a clash the recommended query lists the published ones in file order,
      whatever else is stored and however the table is scanned. */
  lemma RecommendedKeepsFileOrder(
    collates: (string, string) -> bool, reg: Registry, docs: seq<Document>, st: Stamp, stores: seq<Store>,
    rows: seq<CatalogId>, scan: seq<Entry>)
    requires IsImport(reg, docs, st, stores, rows)
    requires IdentitiesAreUnique(reg, docs) && HrefsApart(stores[0]) && NoClash(reg, stores[0], docs)
    requires TotalPreorder(collates) && IsScan(stores[|docs|], scan)
    ensures forall i :: 0 <= i < |rows| ==> rows[i] in stores[|docs|]
    ensures Filter(FromFile(rows), Recommended(collates, scan)) == Filter(Listed, InFileOrder(stores[|docs|], rows))
  {
    ImportStaggers(reg, docs, st, stores, rows);
    StaggeredOrder(collates, stores[|docs|], rows, st.anchor, scan);
  }

  lemma StaggeredOrder(
    collates: (string, string) -> bool, s: Store, rows: seq<CatalogId>, anchor: int, scan: seq<Entry>)
    requires AreStaggered(s, rows, anchor) && TotalPreorder(collates) && IsScan(s, scan)
    ensures Filter(FromFile(rows), Recommended(collates, scan)) == Filter(Listed, InFileOrder(s, rows))
  {
    var before, listed := NewestFirst(collates), Filter(Listed, scan);
    NewestFirstIsTotal(collates);
    FilterSort(before, FromFile(rows), listed);
    SameImportedRows(s, rows, anchor, scan);
    SortIgnoresInputOrder(before, Filter(FromFile(rows), listed), Filter(Listed, InFileOrder(s, rows)));
    FileOrderIsSorted(collates, s, rows, anchor);
    FilterKeepsSorted(before, Listed, InFileOrder(s, rows));
    SortedIsUnchanged(before, Filter(Listed, InFileOrder(s, rows)));
  }

  /** And for every `Accept-Language` and restriction, each bucket, range and depth of the feed lists them in
      file order too. */
  lemma FeedKeepsFileOrder(
    collates: (string, string) -> bool, reg: Registry, docs: seq<Document>, st: Stamp, stores: seq<Store>,
    rows: seq<CatalogId>, scan: seq<Entry>, ranges: seq<Language.LanguageRange>, r: Restrictions, g: Group)
    requires IsImport(reg, docs, st, stores, rows)
    requires IdentitiesAreUnique(reg, docs) && HrefsApart(stores[0]) && NoClash(reg, stores[0], docs)
    requires TotalPreorder(collates) && IsScan(stores[|docs|], scan)
    ensures forall i :: 0 <= i < |rows| ==> rows[i] in stores[|docs|]
    ensures Filter(FromFile(rows), Filter(InGroup(ranges, g), TopLevelFeed(ranges, Recommended(collates, scan), r)))
         == Filter(InGroup(ranges, g), Filter(Allowed(r), Filter(Listed, InFileOrder(stores[|docs|], rows))))
  {
    RecommendedKeepsFileOrder(collates, reg, docs, st, stores, rows, scan);
    RecommendedIsListed(collates, stores[|docs|], scan);
    hide *;
    var recommended := Recommended(collates, scan);
    NewestFirstMeans(collates, recommended);
    GroupsKeepRepositoryOrder(ranges, recommended, r, g);
    FilterFilter(FromFile(rows), InGroup(ranges, g), Filter(Allowed(r), recommended));
    FilterFilter(FromFile(rows), Allowed(r), recommended);
  }

  lemma NewestFirstMeans(collates: (string, string) -> bool, s: seq<Entry>)
    requires Sorted(NewestFirst(collates), s)
    ensures IsNewestFirst(s)
  {
  }
}
