/**
 The derived table `catalog_search` and the transactions that keep it current.

 Every READ COMMITTED transaction carries its own writes as an overlay over the committed tables, and
 each of its statements reads the committed tables with that overlay applied. A row trigger owes a
 refresh of one or two catalogs; a refresh locks their rows in id order, deletes the search rows
 of catalogs that are not published, reads a fresh snapshot and upserts the rebuilt documents. Locks are
 kept until the transaction ends, and it can only commit once no refresh is owed.
 */
module SearchIndex {
  import opened Wrappers
  import opened Lifecycle

  type TransactionId = nat

  /** The columns of `catalogs` that the rebuild reads, and everything else as one opaque value. */
  datatype Columns = Columns(title: string, city: Option<string>, country: Option<string>, status: Status, rest: int)

  /** A row of `catalog_subdivisions`: its two columns are its primary key. */
  datatype Subdivision = Subdivision(catalog: CatalogId, code: string)

  datatype PlaceName = PlaceName(code: string, language: string, name: string)

  /** The fixed reference tables: `country_names`, `subdivision_names`, `country_languages`. */
  datatype Reference = Reference(
    countryNames: set<PlaceName>, subdivisionNames: set<PlaceName>, officialLanguages: set<(string, string)>)

  /** What a search row is built from. `string_agg(DISTINCT ...)` makes the names a function of a set. */
  datatype Document = Document(
    title: string, city: Option<string>, countryNames: set<string>, subdivisionNames: set<string>)

  datatype Tables = Tables(
    catalogs: map<CatalogId, Columns>, subdivisions: set<Subdivision>, search: map<CatalogId, Document>)

  // ---- The rebuild -----------------------------------------------------------------------------------

  predicate IsLoaded(ref: Reference, n: PlaceName, country: string) {
    n.language == "en" || (country, n.language) in ref.officialLanguages
  }

  function CountryOf(subdivisionCode: string): string {
    if |subdivisionCode| <= 2 then subdivisionCode else subdivisionCode[..2]
  }

  function CountryNames(ref: Reference, country: Option<string>): set<string> {
    if country.None? then {}
    else set n | n in ref.countryNames && n.code == country.value && IsLoaded(ref, n, n.code) :: n.name
  }

  function SubdivisionCodes(t: Tables, x: CatalogId): set<string> {
    set s | s in t.subdivisions && s.catalog == x :: s.code
  }

  function SubdivisionNames(ref: Reference, codes: set<string>): set<string> {
    set n | n in ref.subdivisionNames && n.code in codes && IsLoaded(ref, n, CountryOf(n.code)) :: n.name
  }

  function Rebuild(ref: Reference, t: Tables, x: CatalogId): Document
    requires x in t.catalogs
  {
    var c := t.catalogs[x];
    Document(c.title, c.city, CountryNames(ref, c.country), SubdivisionNames(ref, SubdivisionCodes(t, x)))
  }

  /** The first two characters of a code, which name its country. */
  predicate NamesCountryOf(country: string, code: string) {
    country <= code && (|country| == 2 || (|country| < 2 && country == code))
  }

  /** A name in `language` is indexed for `country`: English, and the country's official languages. */
  predicate IsSpokenIn(ref: Reference, country: string, language: string) {
    language == "en" || (country, language) in ref.officialLanguages
  }

  /** Some subdivision of `x` is called `n`, in a language that counts in its country. */
  ghost predicate HasSubdivisionName(ref: Reference, t: Tables, x: CatalogId, n: string) {
    exists p, country :: p in ref.subdivisionNames && p.name == n && Subdivision(x, p.code) in t.subdivisions
                         && NamesCountryOf(country, p.code) && IsSpokenIn(ref, country, p.language)
  }

  /** What a search row of `x` says, read off the tables. */
  ghost predicate Describes(ref: Reference, t: Tables, x: CatalogId, d: Document) {
    && x in t.catalogs && d.title == t.catalogs[x].title && d.city == t.catalogs[x].city
    && (forall n :: n in d.countryNames <==>
                      exists p :: p in ref.countryNames && p.name == n && t.catalogs[x].country == Some(p.code)
                                  && IsSpokenIn(ref, p.code, p.language))
    && (forall n :: n in d.subdivisionNames <==> HasSubdivisionName(ref, t, x, n))
  }

  lemma CountryOfCode(code: string, country: string)
    ensures NamesCountryOf(country, code) <==> country == CountryOf(code)
  {
    if NamesCountryOf(country, code) { assert country == code[..|country|]; }
  }

  /** The rebuilt document says exactly what the tables say. */
  lemma RebuildDescribes(ref: Reference, t: Tables, x: CatalogId)
    requires x in t.catalogs
    ensures Describes(ref, t, x, Rebuild(ref, t, x))
  {
    var c, d := t.catalogs[x], Rebuild(ref, t, x);
    forall n ensures n in d.countryNames <==>
                     exists p :: p in ref.countryNames && p.name == n && c.country == Some(p.code)
                                 && IsSpokenIn(ref, p.code, p.language)
    {
      if p :| p in ref.countryNames && p.name == n && c.country == Some(p.code) && IsSpokenIn(ref, p.code, p.language) {
        assert n in CountryNames(ref, c.country);
      }
    }
    forall n ensures n in d.subdivisionNames <==> HasSubdivisionName(ref, t, x, n) {
      SubdivisionNamesAre(ref, t, x, n);
    }
  }

  lemma SubdivisionNamesAre(ref: Reference, t: Tables, x: CatalogId, n: string)
    ensures n in SubdivisionNames(ref, SubdivisionCodes(t, x)) <==> HasSubdivisionName(ref, t, x, n)
  {
    var codes := SubdivisionCodes(t, x);
    forall c ensures c in codes <==> Subdivision(x, c) in t.subdivisions {}
    if n in SubdivisionNames(ref, codes) {
      var p :| p in ref.subdivisionNames && p.code in codes && IsLoaded(ref, p, CountryOf(p.code)) && p.name == n;
      CountryOfCode(p.code, CountryOf(p.code));
    }
    if p, country :| p in ref.subdivisionNames && p.name == n && Subdivision(x, p.code) in t.subdivisions
                     && NamesCountryOf(country, p.code) && IsSpokenIn(ref, country, p.language) {
      CountryOfCode(p.code, country);
      assert p.code in codes;
    }
  }

  predicate IsListed(t: Tables, x: CatalogId) {
    x in t.catalogs && t.catalogs[x].status == Published
  }

  /** Catalog `x` has a search row exactly when it is published, and the row is the rebuilt document. */
  ghost predicate IsCurrent(ref: Reference, t: Tables, x: CatalogId) {
    && (x in t.search <==> IsListed(t, x))
    && (x in t.search ==> t.search[x] == Rebuild(ref, t, x))
  }

  ghost predicate AllCurrent(ref: Reference, t: Tables) {
    forall x :: IsCurrent(ref, t, x)
  }

  /** The foreign key of `catalog_subdivisions`. */
  ghost predicate ReferencesHold(t: Tables) {
    forall s :: s in t.subdivisions ==> s.catalog in t.catalogs
  }

  /** The search rows the DELETE removes, and the rows the upsert writes. */
  function HiddenIds(t: Tables, ids: set<CatalogId>): set<CatalogId> {
    set x | x in ids && !IsListed(t, x)
  }

  function RebuiltRows(ref: Reference, t: Tables, ids: set<CatalogId>): map<CatalogId, Document> {
    map x | x in ids && IsListed(t, x) :: Rebuild(ref, t, x)
  }

  /** The three tables as one session updates them, and the body of `refresh_catalog_search`. */
  class SearchTables {
    const ref: Reference
    var catalogs: map<CatalogId, Columns>
    var subdivisions: set<Subdivision>
    var search: map<CatalogId, Document>

    ghost function Contents(): Tables
      reads this
    {
      Tables(catalogs, subdivisions, search)
    }

    constructor (ref: Reference, catalogs: map<CatalogId, Columns>, subdivisions: set<Subdivision>)
      ensures this.ref == ref && Contents() == Tables(catalogs, subdivisions, map[])
    {
      this.ref, this.catalogs, this.subdivisions, this.search := ref, catalogs, subdivisions, map[];
    }

    /** Delete the rows of catalogs that are not published, then upsert the rebuilt ones. */
    method RefreshCatalogSearch(ids: set<CatalogId>)
      modifies this`search
      ensures forall x :: x in ids ==> IsCurrent(ref, Contents(), x)
      ensures forall x :: x in ids ==> (x in search <==> x in catalogs && catalogs[x].status == Published)
      ensures forall x :: x in ids && x in search ==> Describes(ref, Contents(), x, search[x])
      ensures forall x :: x !in ids ==>
                            && (x in search <==> x in old(search))
                            && (x in search ==> search[x] == old(search[x]))
    {
      var before := Tables(catalogs, subdivisions, search);
      search := search - HiddenIds(before, ids);
      var rows := RebuiltRows(ref, before, ids);
      search := search + rows;
      forall x | x in ids ensures IsCurrent(ref, Contents(), x) {
        SameInputsSameDocument(ref, before, Contents(), x);
      }
      hide Describes, Rebuild;
      forall x | x in ids && x in search ensures Describes(ref, Contents(), x, search[x]) {
        assert IsCurrent(ref, Contents(), x);
        RebuildDescribes(ref, Contents(), x);
      }
    }

    /** The upgrade's `refresh_catalog_search(array_agg(id))`: with no row stale beforehand outside the
        table's ids, one call over all of them makes the whole index current. */
    method RefreshEveryCatalog()
      requires search.Keys <= catalogs.Keys
      modifies this`search
      ensures AllCurrent(ref, Contents())
      ensures search.Keys == set x | x in catalogs && catalogs[x].status == Published
      ensures forall x :: x in search ==> Describes(ref, Contents(), x, search[x])
    {
      hide Describes;
      RefreshCatalogSearch(catalogs.Keys);
      assert forall x :: x !in catalogs.Keys ==> x !in search;
    }
  }

  // ---- What the rebuild depends on -------------------------------------------------------------------

  /** The two tables give the rebuild of `x` the same inputs. */
  ghost predicate SameInputs(t: Tables, u: Tables, x: CatalogId) {
    && (x in t.catalogs <==> x in u.catalogs)
    && (x in t.catalogs ==> SameWatchedColumns(t.catalogs[x], u.catalogs[x]))
    && SubdivisionCodes(t, x) == SubdivisionCodes(u, x)
  }

  /** The columns named by the trigger's UPDATE OF. */
  predicate SameWatchedColumns(c: Columns, d: Columns) {
    c.title == d.title && c.city == d.city && c.country == d.country && c.status == d.status
  }

  ghost predicate SameSearchRow(t: Tables, u: Tables, x: CatalogId) {
    (x in t.search <==> x in u.search) && (x in t.search ==> t.search[x] == u.search[x])
  }

  lemma SameInputsSameDocument(ref: Reference, t: Tables, u: Tables, x: CatalogId)
    requires SameInputs(t, u, x)
    ensures IsListed(t, x) <==> IsListed(u, x)
    ensures x in t.catalogs ==> Rebuild(ref, t, x) == Rebuild(ref, u, x)
    ensures SameSearchRow(t, u, x) ==> (IsCurrent(ref, t, x) <==> IsCurrent(ref, u, x))
  {
  }

  // ---- Transactions ----------------------------------------------------------------------------------

  /** Where a transaction is inside a refresh of `ids`. */
  datatype Stage =
    | Idle
    | Locking(ids: set<CatalogId>, todo: set<CatalogId>)
    | Deleting(ids: set<CatalogId>)
    | Reading(ids: set<CatalogId>)
    | Writing(ids: set<CatalogId>, rows: map<CatalogId, Document>)

  datatype Transaction = Transaction(
    catalogs: map<CatalogId, Columns>,
    added: set<Subdivision>,
    removed: set<Subdivision>,
    search: map<CatalogId, Document>,
    gone: set<CatalogId>,
    locks: set<CatalogId>,
    owed: seq<set<CatalogId>>,
    stage: Stage)

  const FRESH := Transaction(map[], {}, {}, map[], {}, {}, [], Idle)

  /** `locking` is false only in the variant of the protocol without its first statement. */
  datatype World = World(ref: Reference, db: Tables, running: map<TransactionId, Transaction>, locking: bool)

  /** What a statement of `tx` reads. */
  function View(db: Tables, tx: Transaction): Tables {
    Tables(db.catalogs + tx.catalogs, db.subdivisions - tx.removed + tx.added, db.search - tx.gone + tx.search)
  }

  datatype Statement =
    | Begin
    | InsertCatalog(x: CatalogId, row: Columns)
    | UpdateCatalog(x: CatalogId, row: Columns, watched: bool)
    | InsertSubdivision(s: Subdivision)
    | DeleteSubdivision(s: Subdivision)
    | MoveSubdivision(s: Subdivision, to: Subdivision)
    | StartRefresh
    | LockRow(x: CatalogId)
    | LocksHeld
    | DeleteHidden
    | ReadSnapshot
    | Upsert
    | Commit
    | Abort

  /** No other running transaction holds the row lock of catalog `x`. */
  ghost predicate RowFree(w: World, me: TransactionId, x: CatalogId) {
    forall u :: u in w.running && u != me ==> x !in w.running[u].locks
  }

  ghost predicate SubdivisionFree(w: World, me: TransactionId, s: Subdivision) {
    forall u :: u in w.running && u != me ==> s !in w.running[u].added && s !in w.running[u].removed
  }

  /** No other running transaction has written the search row of any of `ids`. */
  ghost predicate SearchRowsFree(w: World, me: TransactionId, ids: set<CatalogId>) {
    forall u, x :: u in w.running && u != me && x in ids ==>
                     x !in w.running[u].search && x !in w.running[u].gone
  }

  ghost predicate Enabled(w: World, me: TransactionId, a: Statement) {
    if a.Begin? then me !in w.running
    else
      && me in w.running
      && var tx := w.running[me];
      var v := View(w.db, tx);
      match a
      case InsertCatalog(x, row) => tx.stage.Idle? && x !in v.catalogs && RowFree(w, me, x)
      case UpdateCatalog(x, row, watched) =>
        && tx.stage.Idle? && x in v.catalogs && RowFree(w, me, x)
        && (!watched ==> SameWatchedColumns(v.catalogs[x], row))
      case InsertSubdivision(s) =>
        tx.stage.Idle? && s.catalog in v.catalogs && s !in v.subdivisions && SubdivisionFree(w, me, s)
      case DeleteSubdivision(s) => tx.stage.Idle? && s in v.subdivisions && SubdivisionFree(w, me, s)
      case MoveSubdivision(s, to) =>
        && tx.stage.Idle? && s in v.subdivisions && SubdivisionFree(w, me, s)
        && to.catalog in v.catalogs && to !in v.subdivisions && SubdivisionFree(w, me, to)
      case StartRefresh => tx.stage.Idle? && tx.owed != []
      case LockRow(x) =>
        && tx.stage.Locking? && x in tx.stage.todo && (forall y :: y in tx.stage.todo ==> x <= y)
        && RowFree(w, me, x)
      case LocksHeld => tx.stage.Locking? && tx.stage.todo == {}
      case DeleteHidden => tx.stage.Deleting? && SearchRowsFree(w, me, HiddenIds(v, tx.stage.ids))
      case ReadSnapshot => tx.stage.Reading?
      case Upsert => tx.stage.Writing? && SearchRowsFree(w, me, tx.stage.rows.Keys)
      case Commit => tx.stage.Idle? && tx.owed == []
      case Abort => true
  }

  function AddSubdivision(tx: Transaction, s: Subdivision): Transaction {
    tx.(added := tx.added + {s}, removed := tx.removed - {s})
  }

  function RemoveSubdivision(tx: Transaction, s: Subdivision): Transaction {
    tx.(added := tx.added - {s}, removed := tx.removed + {s})
  }

  /** The effect of a step that changes nothing but the transaction that takes it. */
  function Advance(ref: Reference, db: Tables, tx: Transaction, a: Statement, locking: bool): Transaction
    requires a.StartRefresh? ==> tx.owed != []
    requires a.LockRow? || a.LocksHeld? ==> tx.stage.Locking?
    requires a.DeleteHidden? ==> tx.stage.Deleting?
    requires a.ReadSnapshot? ==> tx.stage.Reading?
    requires a.Upsert? ==> tx.stage.Writing?
  {
    var v := View(db, tx);
    match a
    case InsertCatalog(x, row) =>
      tx.(catalogs := tx.catalogs[x := row], locks := tx.locks + {x}, owed := tx.owed + [{x}])
    case UpdateCatalog(x, row, watched) =>
      tx.(catalogs := tx.catalogs[x := row], locks := tx.locks + {x},
          owed := if watched then tx.owed + [{x}] else tx.owed)
    case InsertSubdivision(s) => AddSubdivision(tx, s).(owed := tx.owed + [{s.catalog}])
    case DeleteSubdivision(s) => RemoveSubdivision(tx, s).(owed := tx.owed + [{s.catalog}])
    case MoveSubdivision(s, to) =>
      AddSubdivision(RemoveSubdivision(tx, s), to).(owed := tx.owed + [{s.catalog, to.catalog}])
    case StartRefresh =>
      var ids := tx.owed[0];
      tx.(owed := tx.owed[1..], stage := if locking then Locking(ids, ids * v.catalogs.Keys) else Deleting(ids))
    case LockRow(x) => tx.(locks := tx.locks + {x}, stage := tx.stage.(todo := tx.stage.todo - {x}))
    case LocksHeld => tx.(stage := Deleting(tx.stage.ids))
    case DeleteHidden =>
      var hidden := HiddenIds(v, tx.stage.ids);
      tx.(search := tx.search - hidden, gone := tx.gone + hidden, stage := Reading(tx.stage.ids))
    case ReadSnapshot => tx.(stage := Writing(tx.stage.ids, RebuiltRows(ref, v, tx.stage.ids)))
    case Upsert =>
      tx.(search := tx.search + tx.stage.rows, gone := tx.gone - tx.stage.rows.Keys, stage := Idle)
    case _ => tx
  }

  ghost function Step(w: World, me: TransactionId, a: Statement): World
    requires Enabled(w, me, a)
  {
    match a
    case Begin => w.(running := w.running[me := FRESH])
    case Commit => w.(db := View(w.db, w.running[me]), running := w.running - {me})
    case Abort => w.(running := w.running - {me})
    case _ => w.(running := w.running[me := Advance(w.ref, w.db, w.running[me], a, w.locking)])
  }

  /** What each statement does to what its transaction reads: the five writes do what they say, a refresh touches the
      search rows only, a commit publishes all of it, and an abort none. */
  lemma StatementsDoWhatTheySay(w: World, me: TransactionId, a: Statement)
    requires Enabled(w, me, a) && !a.Begin?
    ensures var v, next := View(w.db, w.running[me]), Step(w, me, a);
            && (a.Commit? ==> next.db == v && next.running == w.running - {me})
            && (a.Abort? ==> next.db == w.db && next.running == w.running - {me})
            && (!a.Commit? && !a.Abort? ==>
                  && next.db == w.db && next.running.Keys == w.running.Keys
                  && (forall u :: u in w.running && u != me ==> next.running[u] == w.running[u])
                  && ReadsAfter(v, a, View(w.db, next.running[me])))
  {
    hide RebuiltRows, HiddenIds, RowFree, SubdivisionFree, SearchRowsFree;
    if !a.Commit? && !a.Abort? {
      var tx := w.running[me];
      var tx' := Advance(w.ref, w.db, tx, a, w.locking);
      AdvanceReads(w.ref, w.db, tx, a, w.locking);
      hide Advance, View;
    }
  }

  /** What a transaction reads after statement `a` when it read `v` before. */
  ghost predicate ReadsAfter(v: Tables, a: Statement, v': Tables) {
    match a
    case InsertCatalog(x, row) => v' == v.(catalogs := v.catalogs[x := row])
    case UpdateCatalog(x, row, _) => v' == v.(catalogs := v.catalogs[x := row])
    case InsertSubdivision(s) => v' == v.(subdivisions := v.subdivisions + {s})
    case DeleteSubdivision(s) => v' == v.(subdivisions := v.subdivisions - {s})
    case MoveSubdivision(s, to) => v' == v.(subdivisions := v.subdivisions - {s} + {to})
    case _ => v'.catalogs == v.catalogs && v'.subdivisions == v.subdivisions
  }

  lemma AdvanceReads(ref: Reference, db: Tables, tx: Transaction, a: Statement, locking: bool)
    requires a.StartRefresh? ==> tx.owed != []
    requires a.LockRow? || a.LocksHeld? ==> tx.stage.Locking?
    requires a.DeleteHidden? ==> tx.stage.Deleting?
    requires a.ReadSnapshot? ==> tx.stage.Reading?
    requires a.Upsert? ==> tx.stage.Writing?
    ensures ReadsAfter(View(db, tx), a, View(db, Advance(ref, db, tx, a, locking)))
  {
    hide RebuiltRows, HiddenIds;
    var v, v' := View(db, tx), View(db, Advance(ref, db, tx, a, locking));
    match a
    case InsertCatalog(x, row) => assert v'.catalogs == v.catalogs[x := row];
    case UpdateCatalog(x, row, _) => assert v'.catalogs == v.catalogs[x := row];
    case InsertSubdivision(s) => assert v'.subdivisions == v.subdivisions + {s};
    case DeleteSubdivision(s) => assert v'.subdivisions == v.subdivisions - {s};
    case MoveSubdivision(s, to) => assert v'.subdivisions == v.subdivisions - {s} + {to};
    case _ =>
  }

  // ---- The invariant ---------------------------------------------------------------------------------

  function StageIds(s: Stage): set<CatalogId> {
    if s.Idle? then {} else s.ids
  }

  ghost function QueuedIds(owed: seq<set<CatalogId>>): set<CatalogId> {
    set o, x | o in owed && x in o :: x
  }

  function CatalogsOf(subdivisions: set<Subdivision>): set<CatalogId> {
    set s | s in subdivisions :: s.catalog
  }

  /** The catalogs whose refresh is still to run or still running. */
  ghost function OwedIds(tx: Transaction): set<CatalogId> {
    StageIds(tx.stage) + QueuedIds(tx.owed)
  }

  /** The catalogs whose inputs or search row `tx` has written. */
  ghost function Touched(tx: Transaction): set<CatalogId> {
    tx.catalogs.Keys + CatalogsOf(tx.added + tx.removed) + tx.search.Keys + tx.gone
  }

  /** What a transaction that reads `v` knows at each stage of a refresh. */
  ghost predicate StageSound(ref: Reference, v: Tables, tx: Transaction) {
    match tx.stage
    case Idle => true
    case Locking(ids, todo) => todo <= ids && ids - todo <= tx.locks
    case Deleting(ids) => ids <= tx.locks
    case Reading(ids) => ids <= tx.locks && forall x :: x in ids && !IsListed(v, x) ==> x !in v.search
    case Writing(ids, rows) =>
      && ids <= tx.locks
      && (forall x :: x in ids && !IsListed(v, x) ==> x !in v.search)
      && rows == RebuiltRows(ref, v, ids)
  }

  /** A transaction holds the lock of whatever it has written and does not still owe, and what it would
      read back is current except for the catalogs it still owes. */
  ghost predicate TransactionSound(ref: Reference, db: Tables, tx: Transaction) {
    var v := View(db, tx);
    && tx.catalogs.Keys + tx.search.Keys + tx.gone <= tx.locks
    && tx.added !! tx.removed
    && Touched(tx) <= tx.locks + OwedIds(tx)
    && OwedIds(tx) <= v.catalogs.Keys
    && ReferencesHold(v)
    && (forall x :: x !in OwedIds(tx) ==> IsCurrent(ref, v, x))
    && StageSound(ref, v, tx)
  }

  ghost predicate LocksExclusive(w: World) {
    forall t, u :: t in w.running && u in w.running && t != u ==> w.running[t].locks !! w.running[u].locks
  }

  ghost predicate Sound(w: World) {
    && w.locking
    && AllCurrent(w.ref, w.db) && ReferencesHold(w.db)
    && LocksExclusive(w)
    && forall t :: t in w.running ==> TransactionSound(w.ref, w.db, w.running[t])
  }
}
