/**
 Safety of the search index over every interleaving: whatever has been committed, `catalog_search` holds
 exactly one current row per published catalog. Without the lock statement two transactions break it.
 */
module SearchIndexSafety {
  import opened Wrappers
  import opened Lifecycle
  import opened SearchIndex

  // ---- One transaction's own steps -------------------------------------------------------------------

  lemma OwedGrows(tx: Transaction, o: set<CatalogId>, x: CatalogId)
    ensures x in OwedIds(tx.(owed := tx.owed + [o])) <==> x in OwedIds(tx) || x in o
  {
  }

  lemma WriteKeepsSound(ref: Reference, db: Tables, tx: Transaction, tx': Transaction, o: set<CatalogId>)
    requires TransactionSound(ref, db, tx) && tx.stage.Idle? && tx'.stage.Idle?
    requires tx'.owed == tx.owed + [o]
    requires tx'.search == tx.search && tx'.gone == tx.gone
    requires tx.locks <= tx'.locks && tx'.catalogs.Keys <= tx'.locks
    requires tx'.added !! tx'.removed
    requires View(db, tx).catalogs.Keys + o <= View(db, tx').catalogs.Keys
    requires ReferencesHold(View(db, tx'))
    requires Touched(tx') <= Touched(tx) + o
    requires forall x :: x !in o ==> SameInputs(View(db, tx), View(db, tx'), x)
    ensures TransactionSound(ref, db, tx')
  {
    forall x ensures x in OwedIds(tx') <==> x in OwedIds(tx) || x in o {
      OwedGrows(tx, o, x);
      assert tx.(owed := tx.owed + [o]).owed == tx'.owed;
      assert OwedIds(tx.(owed := tx.owed + [o])) == OwedIds(tx');
    }
    forall x | x !in OwedIds(tx') ensures IsCurrent(ref, View(db, tx'), x) {
      SameInputsSameDocument(ref, View(db, tx), View(db, tx'), x);
    }
  }

  lemma CatalogWriteKeepsSound(ref: Reference, db: Tables, tx: Transaction, x: CatalogId, row: Columns)
    requires TransactionSound(ref, db, tx) && tx.stage.Idle?
    ensures TransactionSound(ref, db, tx.(catalogs := tx.catalogs[x := row], locks := tx.locks + {x},
                                          owed := tx.owed + [{x}]))
  {
    var tx' := tx.(catalogs := tx.catalogs[x := row], locks := tx.locks + {x}, owed := tx.owed + [{x}]);
    forall y | y != x ensures SameInputs(View(db, tx), View(db, tx'), y) {
      assert SubdivisionCodes(View(db, tx), y) == SubdivisionCodes(View(db, tx'), y);
    }
    WriteKeepsSound(ref, db, tx, tx', {x});
  }

  /** An UPDATE outside title, city, country and status leaves every search row as current as it was. */
  lemma UnwatchedUpdateKeepsCurrent(ref: Reference, v: Tables, x: CatalogId, row: Columns, y: CatalogId)
    requires x in v.catalogs && SameWatchedColumns(v.catalogs[x], row)
    ensures IsCurrent(ref, v, y) <==> IsCurrent(ref, v.(catalogs := v.catalogs[x := row]), y)
  {
  }

  lemma UnwatchedUpdateKeepsSound(ref: Reference, db: Tables, tx: Transaction, x: CatalogId, row: Columns)
    requires TransactionSound(ref, db, tx) && tx.stage.Idle?
    requires x in View(db, tx).catalogs && SameWatchedColumns(View(db, tx).catalogs[x], row)
    ensures TransactionSound(ref, db, tx.(catalogs := tx.catalogs[x := row], locks := tx.locks + {x}))
  {
    var tx' := tx.(catalogs := tx.catalogs[x := row], locks := tx.locks + {x});
    OverlayUpdate(db, tx, tx', x, row);
    forall y | y !in OwedIds(tx) ensures IsCurrent(ref, View(db, tx'), y) {
      UnwatchedUpdateKeepsCurrent(ref, View(db, tx), x, row, y);
    }
  }

  lemma OverlayUpdate(db: Tables, tx: Transaction, tx': Transaction, x: CatalogId, row: Columns)
    requires tx' == tx.(catalogs := tx.catalogs[x := row], locks := tx'.locks)
    ensures View(db, tx') == View(db, tx).(catalogs := View(db, tx).catalogs[x := row])
    ensures OwedIds(tx') == OwedIds(tx)
    ensures Touched(tx') == Touched(tx) + {x}
  {
    assert db.catalogs + tx'.catalogs == (db.catalogs + tx.catalogs)[x := row];
  }

  lemma SubdivisionWriteKeepsSound(ref: Reference, db: Tables, tx: Transaction, tx': Transaction, o: set<CatalogId>)
    requires TransactionSound(ref, db, tx) && tx.stage.Idle?
    requires tx' == tx.(added := tx'.added, removed := tx'.removed, owed := tx.owed + [o])
    requires o <= View(db, tx).catalogs.Keys && ReferencesHold(View(db, tx'))
    requires tx'.added !! tx'.removed
    requires forall s: Subdivision :: s.catalog !in o ==>
                                        (s in tx.added <==> s in tx'.added) && (s in tx.removed <==> s in tx'.removed)
    ensures TransactionSound(ref, db, tx')
  {
    forall y | y !in o ensures SameInputs(View(db, tx), View(db, tx'), y) {
      var before, after := SubdivisionCodes(View(db, tx), y), SubdivisionCodes(View(db, tx'), y);
      forall c ensures c in before <==> c in after {
        assert c in before <==> Subdivision(y, c) in View(db, tx).subdivisions;
        assert c in after <==> Subdivision(y, c) in View(db, tx').subdivisions;
      }
    }
    WriteKeepsSound(ref, db, tx, tx', o);
  }

  lemma StartKeepsSound(ref: Reference, db: Tables, tx: Transaction)
    requires TransactionSound(ref, db, tx) && tx.stage.Idle? && tx.owed != []
    ensures TransactionSound(ref, db, Advance(ref, db, tx, StartRefresh, true))
  {
    var tx' := Advance(ref, db, tx, StartRefresh, true);
    forall x ensures x in OwedIds(tx) <==> x in OwedIds(tx') {
      assert forall o :: o in tx.owed <==> o == tx.owed[0] || o in tx.owed[1..];
    }
    assert OwedIds(tx) == OwedIds(tx');
  }

  lemma LockKeepsSound(ref: Reference, db: Tables, tx: Transaction, a: Statement)
    requires TransactionSound(ref, db, tx) && tx.stage.Locking?
    requires a.LockRow? || (a.LocksHeld? && tx.stage.todo == {})
    ensures TransactionSound(ref, db, Advance(ref, db, tx, a, true))
  {
    assert OwedIds(tx) == OwedIds(Advance(ref, db, tx, a, true));
  }

  lemma DeleteKeepsSound(ref: Reference, db: Tables, tx: Transaction)
    requires TransactionSound(ref, db, tx) && tx.stage.Deleting?
    ensures TransactionSound(ref, db, Advance(ref, db, tx, DeleteHidden, true))
  {
    var tx' := Advance(ref, db, tx, DeleteHidden, true);
    var v, v' := View(db, tx), View(db, tx');
    var hidden := HiddenIds(v, tx.stage.ids);
    hide Rebuild, RebuiltRows;
    DeletedRows(v.search, db.search, tx, hidden);
    SearchWriteKeepsOthers(ref, db, tx, tx');
    assert OwedIds(tx) == OwedIds(tx');
    assert forall x :: x !in OwedIds(tx') ==> SameSearchRow(v, v', x);
    SearchStepKeepsSound(ref, db, tx, tx');
  }

  lemma DeletedRows(
    read: map<CatalogId, Document>, stored: map<CatalogId, Document>, tx: Transaction, hidden: set<CatalogId>)
    requires read == stored - tx.gone + tx.search
    ensures stored - (tx.gone + hidden) + (tx.search - hidden) == read - hidden
  {
  }

  lemma SearchWriteKeepsOthers(ref: Reference, db: Tables, tx: Transaction, tx': Transaction)
    requires tx' == tx.(search := tx'.search, gone := tx'.gone, stage := tx'.stage)
    ensures forall x :: IsListed(View(db, tx), x) == IsListed(View(db, tx'), x)
    ensures forall x :: x in View(db, tx).catalogs ==> Rebuild(ref, View(db, tx), x) == Rebuild(ref, View(db, tx'), x)
    ensures forall x :: SameSearchRow(View(db, tx), View(db, tx'), x) ==>
                          (IsCurrent(ref, View(db, tx), x) <==> IsCurrent(ref, View(db, tx'), x))
  {
  }

  lemma ReadKeepsSound(ref: Reference, db: Tables, tx: Transaction)
    requires TransactionSound(ref, db, tx) && tx.stage.Reading?
    ensures TransactionSound(ref, db, Advance(ref, db, tx, ReadSnapshot, true))
  {
    var tx' := Advance(ref, db, tx, ReadSnapshot, true);
    assert View(db, tx) == View(db, tx') && OwedIds(tx) == OwedIds(tx');
  }

  lemma UpsertedRows(
    read: map<CatalogId, Document>, stored: map<CatalogId, Document>, tx: Transaction, rows: map<CatalogId, Document>)
    requires read == stored - tx.gone + tx.search
    ensures stored - (tx.gone - rows.Keys) + (tx.search + rows) == read + rows
  {
  }

  lemma UpsertKeepsCurrent(ref: Reference, v: Tables, v': Tables, ids: set<CatalogId>, x: CatalogId)
    requires v' == v.(search := v.search + RebuiltRows(ref, v, ids))
    requires if x in ids then !IsListed(v, x) ==> x !in v.search else IsCurrent(ref, v, x)
    ensures IsCurrent(ref, v', x)
  {
  }

  lemma UpsertKeepsSound(ref: Reference, db: Tables, tx: Transaction)
    requires TransactionSound(ref, db, tx) && tx.stage.Writing?
    ensures TransactionSound(ref, db, Advance(ref, db, tx, Upsert, true))
  {
    var tx' := Advance(ref, db, tx, Upsert, true);
    var v, v' := View(db, tx), View(db, tx');
    hide IsCurrent, RebuiltRows, Rebuild;
    UpsertedRows(v.search, db.search, tx, tx.stage.rows);
    RebuiltKeys(ref, v, tx.stage.ids);
    forall x | x !in OwedIds(tx') ensures IsCurrent(ref, v', x) {
      assert x in OwedIds(tx) ==> x in tx.stage.ids;
      UpsertKeepsCurrent(ref, v, v', tx.stage.ids, x);
    }
    SearchStepKeepsSound(ref, db, tx, tx');
  }

  lemma SearchStepKeepsSound(ref: Reference, db: Tables, tx: Transaction, tx': Transaction)
    requires TransactionSound(ref, db, tx) && StageIds(tx.stage) <= tx.locks
    requires tx' == tx.(search := tx'.search, gone := tx'.gone, stage := tx'.stage)
    requires StageIds(tx'.stage) <= StageIds(tx.stage)
    requires tx'.search.Keys + tx'.gone <= tx.search.Keys + tx.gone + StageIds(tx.stage)
    requires StageSound(ref, View(db, tx'), tx')
    requires forall x :: x !in OwedIds(tx') ==> IsCurrent(ref, View(db, tx'), x)
    ensures TransactionSound(ref, db, tx')
  {
  }

  lemma RebuiltKeys(ref: Reference, t: Tables, ids: set<CatalogId>)
    ensures RebuiltRows(ref, t, ids).Keys <= ids
  {
  }

  lemma CatalogStepKeepsSound(w: World, me: TransactionId, a: Statement)
    requires w.locking && Enabled(w, me, a) && (a.InsertCatalog? || a.UpdateCatalog?)
    requires TransactionSound(w.ref, w.db, w.running[me])
    ensures TransactionSound(w.ref, w.db, Advance(w.ref, w.db, w.running[me], a, true))
  {
    if a.UpdateCatalog? && !a.watched {
      UnwatchedUpdateKeepsSound(w.ref, w.db, w.running[me], a.x, a.row);
    } else {
      CatalogWriteKeepsSound(w.ref, w.db, w.running[me], a.x, a.row);
    }
  }

  lemma SubdivisionStepKeepsSound(w: World, me: TransactionId, a: Statement)
    requires w.locking && Enabled(w, me, a)
    requires a.InsertSubdivision? || a.DeleteSubdivision? || a.MoveSubdivision?
    requires TransactionSound(w.ref, w.db, w.running[me])
    ensures TransactionSound(w.ref, w.db, Advance(w.ref, w.db, w.running[me], a, true))
  {
    var o := if a.MoveSubdivision? then {a.s.catalog, a.to.catalog} else {a.s.catalog};
    SubdivisionWriteKeepsSound(w.ref, w.db, w.running[me], Advance(w.ref, w.db, w.running[me], a, true), o);
  }

  lemma AdvanceKeepsSound(w: World, me: TransactionId, a: Statement)
    requires w.locking && Enabled(w, me, a) && !a.Begin? && !a.Commit? && !a.Abort?
    requires TransactionSound(w.ref, w.db, w.running[me])
    ensures TransactionSound(w.ref, w.db, Advance(w.ref, w.db, w.running[me], a, true))
  {
    var ref, db, tx := w.ref, w.db, w.running[me];
    match a
    case InsertCatalog(_, _) => CatalogStepKeepsSound(w, me, a);
    case UpdateCatalog(_, _, _) => CatalogStepKeepsSound(w, me, a);
    case InsertSubdivision(_) => SubdivisionStepKeepsSound(w, me, a);
    case DeleteSubdivision(_) => SubdivisionStepKeepsSound(w, me, a);
    case MoveSubdivision(_, _) => SubdivisionStepKeepsSound(w, me, a);
    case StartRefresh => StartKeepsSound(ref, db, tx);
    case LockRow(_) => LockKeepsSound(ref, db, tx, a);
    case LocksHeld => LockKeepsSound(ref, db, tx, a);
    case DeleteHidden => DeleteKeepsSound(ref, db, tx);
    case ReadSnapshot => ReadKeepsSound(ref, db, tx);
    case Upsert => UpsertKeepsSound(ref, db, tx);
  }

  // ---- A commit, seen by the others ------------------------------------------------------------------

  /** Same inputs for the rebuild of `x`, and the same search row. */
  ghost predicate Agree(t: Tables, u: Tables, x: CatalogId) {
    SameInputs(t, u, x) && SameSearchRow(t, u, x)
  }

  lemma UntouchedAgree(db: Tables, tx: Transaction, x: CatalogId)
    requires x !in Touched(tx)
    ensures Agree(View(db, tx), db, x)
  {
  }

  lemma ViewsAgree(db: Tables, db': Tables, tx: Transaction, x: CatalogId)
    requires Agree(db, db', x)
    ensures Agree(View(db, tx), View(db', tx), x)
  {
    var v, v' := View(db, tx), View(db', tx);
    forall c ensures c in SubdivisionCodes(v, x) <==> c in SubdivisionCodes(v', x) {
      var s := Subdivision(x, c);
      assert c in SubdivisionCodes(v, x) <==> s in v.subdivisions;
      assert c in SubdivisionCodes(v', x) <==> s in v'.subdivisions;
      assert c in SubdivisionCodes(db, x) <==> s in db.subdivisions;
      assert c in SubdivisionCodes(db', x) <==> s in db'.subdivisions;
    }
  }

  ghost predicate CanCommit(ref: Reference, db: Tables, tx: Transaction) {
    TransactionSound(ref, db, tx) && tx.stage.Idle? && tx.owed == []
  }

  lemma CommitIsCurrent(ref: Reference, db: Tables, tx: Transaction)
    requires CanCommit(ref, db, tx)
    ensures AllCurrent(ref, View(db, tx)) && ReferencesHold(View(db, tx))
    ensures Touched(tx) <= tx.locks
  {
  }

  lemma LockedRowsAgree(ref: Reference, db: Tables, committer: Transaction, tx: Transaction, x: CatalogId)
    requires CanCommit(ref, db, committer) && committer.locks !! tx.locks && x in tx.locks
    ensures Agree(View(db, tx), View(View(db, committer), tx), x)
  {
    CommitIsCurrent(ref, db, committer);
    UntouchedAgree(db, committer, x);
    ViewsAgree(db, View(db, committer), tx, x);
  }

  lemma CommitKeepsOthersCurrent(ref: Reference, db: Tables, committer: Transaction, tx: Transaction, x: CatalogId)
    requires CanCommit(ref, db, committer) && committer.locks !! tx.locks
    requires TransactionSound(ref, db, tx) && x !in OwedIds(tx)
    ensures IsCurrent(ref, View(View(db, committer), tx), x)
  {
    var db' := View(db, committer);
    if x in Touched(tx) {
      LockedRowsAgree(ref, db, committer, tx, x);
      SameInputsSameDocument(ref, View(db, tx), View(db', tx), x);
    } else {
      CommitIsCurrent(ref, db, committer);
      UntouchedAgree(db', tx, x);
      SameInputsSameDocument(ref, View(db', tx), db', x);
    }
  }

  lemma LockedRowsReadTheSame(ref: Reference, db: Tables, committer: Transaction, tx: Transaction, x: CatalogId)
    requires CanCommit(ref, db, committer) && committer.locks !! tx.locks && x in tx.locks
    ensures IsListed(View(db, tx), x) <==> IsListed(View(View(db, committer), tx), x)
    ensures x in View(db, tx).search <==> x in View(View(db, committer), tx).search
    ensures IsListed(View(db, tx), x) ==>
              Rebuild(ref, View(db, tx), x) == Rebuild(ref, View(View(db, committer), tx), x)
  {
    LockedRowsAgree(ref, db, committer, tx, x);
    SameInputsSameDocument(ref, View(db, tx), View(View(db, committer), tx), x);
  }

  lemma SameReadsSameStage(ref: Reference, v: Tables, v': Tables, tx: Transaction)
    requires StageSound(ref, v, tx)
    requires !tx.stage.Locking? ==> forall x :: x in StageIds(tx.stage) ==>
               && (IsListed(v, x) <==> IsListed(v', x)) && (x in v.search <==> x in v'.search)
               && (IsListed(v, x) ==> Rebuild(ref, v, x) == Rebuild(ref, v', x))
    ensures StageSound(ref, v', tx)
  {
    hide Rebuild;
    if tx.stage.Writing? {
      assert RebuiltRows(ref, v, tx.stage.ids) == RebuiltRows(ref, v', tx.stage.ids);
    }
  }

  lemma CommitKeepsStage(ref: Reference, db: Tables, committer: Transaction, tx: Transaction)
    requires CanCommit(ref, db, committer) && committer.locks !! tx.locks
    requires TransactionSound(ref, db, tx)
    ensures StageSound(ref, View(View(db, committer), tx), tx)
  {
    assert StageSound(ref, View(db, tx), tx);
    assert tx.stage.Locking? || StageIds(tx.stage) <= tx.locks;
    hide TransactionSound, CanCommit, View, IsListed, Rebuild, StageSound;
    forall x | x in tx.locks {
      LockedRowsReadTheSame(ref, db, committer, tx, x);
    }
    SameReadsSameStage(ref, View(db, tx), View(View(db, committer), tx), tx);
  }

  lemma CommitKeepsReferences(ref: Reference, db: Tables, committer: Transaction, tx: Transaction)
    requires CanCommit(ref, db, committer) && TransactionSound(ref, db, tx)
    ensures View(db, tx).catalogs.Keys <= View(View(db, committer), tx).catalogs.Keys
    ensures ReferencesHold(View(View(db, committer), tx))
  {
  }

  lemma CommitKeepsOtherSound(ref: Reference, db: Tables, committer: Transaction, tx: Transaction)
    requires CanCommit(ref, db, committer) && committer.locks !! tx.locks
    requires TransactionSound(ref, db, tx)
    ensures TransactionSound(ref, View(db, committer), tx)
  {
    CommitKeepsReferences(ref, db, committer, tx);
    CommitKeepsStage(ref, db, committer, tx);
    forall x | x !in OwedIds(tx) ensures IsCurrent(ref, View(View(db, committer), tx), x) {
      CommitKeepsOthersCurrent(ref, db, committer, tx, x);
    }
  }

  // ---- Every run -------------------------------------------------------------------------------------

  lemma CommitStepKeepsSound(w: World, me: TransactionId)
    requires Sound(w) && Enabled(w, me, Commit)
    ensures Sound(Step(w, me, Commit))
  {
    CommitIsCurrent(w.ref, w.db, w.running[me]);
    var w' := Step(w, me, Commit);
    forall t | t in w'.running ensures TransactionSound(w.ref, w'.db, w'.running[t]) {
      CommitKeepsOtherSound(w.ref, w.db, w.running[me], w.running[t]);
    }
  }

  lemma ReplacingOneKeepsSound(w: World, me: TransactionId, tx: Transaction)
    requires Sound(w) && TransactionSound(w.ref, w.db, tx)
    requires LocksExclusive(w.(running := w.running[me := tx]))
    ensures Sound(w.(running := w.running[me := tx]))
  {
  }

  lemma AdvanceStepKeepsSound(w: World, me: TransactionId, a: Statement)
    requires Sound(w) && Enabled(w, me, a) && !a.Begin? && !a.Commit? && !a.Abort?
    ensures Sound(Step(w, me, a))
  {
    AdvanceKeepsSound(w, me, a);
    AdvanceKeepsLocksExclusive(w, me, a);
    ReplacingOneKeepsSound(w, me, Advance(w.ref, w.db, w.running[me], a, true));
  }

  lemma StepKeepsSound(w: World, me: TransactionId, a: Statement)
    requires Sound(w) && Enabled(w, me, a)
    ensures Sound(Step(w, me, a))
  {
    hide TransactionSound, Enabled, AllCurrent, LocksExclusive, Advance, View;
    match a
    case Begin => BeginKeepsSound(w, me);
    case Abort => AbortKeepsSound(w, me);
    case Commit => CommitStepKeepsSound(w, me);
    case _ => AdvanceStepKeepsSound(w, me, a);
  }

  lemma BeginKeepsSound(w: World, me: TransactionId)
    requires Sound(w) && Enabled(w, me, Begin)
    ensures Sound(Step(w, me, Begin))
  {
    hide TransactionSound, AllCurrent;
    FreshIsSound(w.ref, w.db);
    ReplacingOneKeepsSound(w, me, FRESH);
  }

  lemma AbortKeepsSound(w: World, me: TransactionId)
    requires Sound(w) && Enabled(w, me, Abort)
    ensures Sound(Step(w, me, Abort))
  {
  }

  lemma FreshIsSound(ref: Reference, db: Tables)
    requires AllCurrent(ref, db) && ReferencesHold(db)
    ensures TransactionSound(ref, db, FRESH)
  {
    assert View(db, FRESH) == db;
  }

  lemma AdvanceKeepsLocksExclusive(w: World, me: TransactionId, a: Statement)
    requires LocksExclusive(w) && Enabled(w, me, a) && !a.Begin? && !a.Commit? && !a.Abort?
    ensures LocksExclusive(Step(w, me, a))
  {
    var tx, tx' := w.running[me], Step(w, me, a).running[me];
    assert tx'.locks == tx.locks || tx'.locks == tx.locks + {a.x};
  }

  lemma CurrentMeansListedRows(ref: Reference, db: Tables)
    requires AllCurrent(ref, db)
    ensures db.search.Keys == set x | x in db.catalogs && db.catalogs[x].status == Published
    ensures forall x :: x in db.search ==> db.search[x] == Rebuild(ref, db, x)
  {
    forall x ensures x in db.search <==> IsListed(db, x)
      ensures x in db.search ==> db.search[x] == Rebuild(ref, db, x)
    {
      assert IsCurrent(ref, db, x);
    }
  }

  datatype Event = Event(who: TransactionId, action: Statement)

  /** `w'` is the world after a run of enabled steps from `w`. */
  ghost predicate Reaches(w: World, events: seq<Event>, w': World)
    decreases |events|
  {
    if events == [] then w == w'
    else
      var e := events[0];
      Enabled(w, e.who, e.action) && Reaches(Step(w, e.who, e.action), events[1..], w')
  }

  lemma {:induction false} RunKeepsSound(w: World, events: seq<Event>, w': World)
    requires Sound(w) && Reaches(w, events, w')
    ensures Sound(w') && w'.ref == w.ref
    decreases |events|
  {
    hide Sound, Enabled;
    if events != [] {
      StepKeepsSound(w, events[0].who, events[0].action);
      RunKeepsSound(Step(w, events[0].who, events[0].action), events[1..], w');
    }
  }

  ghost predicate AtRest(w: World) {
    w.running == map[] && AllCurrent(w.ref, w.db) && ReferencesHold(w.db)
  }

  /** In every committed state of every interleaving, `catalog_search` has exactly one row per published
      catalog, and it is the document rebuilt from the committed tables. */
  lemma CommittedIndexIsAlwaysCurrent(w: World, events: seq<Event>, w': World)
    requires w.locking && AtRest(w) && Reaches(w, events, w')
    ensures w'.db.search.Keys == set x | x in w'.db.catalogs && w'.db.catalogs[x].status == Published
    ensures forall x :: x in w'.db.search ==> w'.db.search[x] == Rebuild(w.ref, w'.db, x)
    ensures forall x :: x in w'.db.search ==> Describes(w.ref, w'.db, x, w'.db.search[x])
  {
    hide Rebuild, Describes;
    RunKeepsSound(w, events, w');
    CurrentMeansListedRows(w'.ref, w'.db);
    forall x | x in w'.db.search ensures Describes(w.ref, w'.db, x, w'.db.search[x]) {
      RebuildDescribes(w.ref, w'.db, x);
    }
  }

  // ---- The same run without the lock statement -------------------------------------------------------

  const WALLIS := PlaceName("CH-VS", "en", "Valais")
  const PARIS := PlaceName("FR-IDF", "en", "Ile-de-France")

  const NAMES := Reference({}, {WALLIS, PARIS}, {})
  const LIBRARY_ROW := Columns("A library", None, None, Published, 0)

  function Library(codes: set<Subdivision>, names: set<string>): Tables {
    Tables(map[1 := LIBRARY_ROW], codes, map[1 := Document("A library", None, {}, names)])
  }

  const VALAIS_CODE := Subdivision(1, "CH-VS")
  const PARIS_CODE := Subdivision(1, "FR-IDF")

  lemma LibraryIsCurrent(codes: set<Subdivision>, names: set<string>)
    requires codes <= {VALAIS_CODE, PARIS_CODE}
    requires names == (if VALAIS_CODE in codes then {"Valais"} else {}) +
                      (if PARIS_CODE in codes then {"Ile-de-France"} else {})
    ensures RebuiltRows(NAMES, Library(codes, {}), {1}) == map[1 := Document("A library", None, {}, names)]
    ensures forall other ::
              RebuiltRows(NAMES, Library(codes, other), {1}) == map[1 := Document("A library", None, {}, names)]
    ensures AllCurrent(NAMES, Library(codes, names))
  {
    var t := Library(codes, names);
    var found := SubdivisionNames(NAMES, SubdivisionCodes(t, 1));
    forall c ensures c in SubdivisionCodes(t, 1) <==> Subdivision(1, c) in codes {}
    assert "Valais" in found <==> VALAIS_CODE in codes by {
      assert WALLIS in NAMES.subdivisionNames && IsLoaded(NAMES, WALLIS, CountryOf(WALLIS.code));
    }
    assert "Ile-de-France" in found <==> PARIS_CODE in codes by {
      assert PARIS in NAMES.subdivisionNames && IsLoaded(NAMES, PARIS, CountryOf(PARIS.code));
    }
    assert found == names;
    forall other ensures SubdivisionCodes(Library(codes, other), 1) == SubdivisionCodes(t, 1) {}
  }

  lemma Extend(start: World, events: seq<Event>, w: World, who: TransactionId, a: Statement)
    returns (events': seq<Event>, w': World)
    requires Reaches(start, events, w) && Enabled(w, who, a)
    ensures Reaches(start, events', w') && w' == Step(w, who, a)
    decreases |events|
  {
    w' := Step(w, who, a);
    if events == [] {
      events' := [Event(who, a)];
      assert events'[1..] == [];
    } else {
      var rest;
      rest, w' := Extend(Step(start, events[0].who, events[0].action), events[1..], w, who, a);
      events' := [events[0]] + rest;
      assert events'[1..] == rest;
    }
  }

  /** The transaction that has added `s` and is at `stage` of its refresh. */
  function Adding(s: Subdivision, stage: Stage): Transaction {
    FRESH.(added := {s}, stage := stage)
  }

  lemma AddingReads(s: Subdivision, st: Stage)
    ensures View(Library({}, {}), Adding(s, st)) == Library({s}, {})
    ensures HiddenIds(Library({s}, {}), {1}) == {}
  {
  }

  lemma AddingAdvances(s: Subdivision)
    requires s.catalog == 1
    ensures Advance(NAMES, Library({}, {}), FRESH, InsertSubdivision(s), false) == Adding(s, Idle).(owed := [{1}])
    ensures Advance(NAMES, Library({}, {}), Adding(s, Idle).(owed := [{1}]), StartRefresh, false) ==
            Adding(s, Deleting({1}))
    ensures Advance(NAMES, Library({}, {}), Adding(s, Deleting({1})), DeleteHidden, false) == Adding(s, Reading({1}))
  {
    AddingReads(s, Deleting({1}));
  }

  lemma AddingReadsSnapshot(s: Subdivision, name: string)
    requires (s, name) == (VALAIS_CODE, "Valais") || (s, name) == (PARIS_CODE, "Ile-de-France")
    ensures Advance(NAMES, Library({}, {}), Adding(s, Reading({1})), ReadSnapshot, false)
         == Adding(s, Writing({1}, map[1 := Document("A library", None, {}, {name})]))
  {
    hide RebuiltRows;
    AddingReads(s, Reading({1}));
    LibraryIsCurrent({s}, {name});
  }

  /** The transaction that has written the search row and is ready to commit. */
  function Added(s: Subdivision, name: string): Transaction {
    Adding(s, Idle).(search := map[1 := Document("A library", None, {}, {name})])
  }

  lemma AddingCommits(s: Subdivision, name: string, codes: set<Subdivision>, names: set<string>)
    requires s.catalog == 1
    ensures Advance(NAMES, Library(codes, names), Adding(s, Writing({1}, Added(s, name).search)), Upsert, false)
         == Added(s, name)
    ensures View(Library(codes, names), Added(s, name)) == Library(codes + {s}, {name})
  {
  }

  /** `w'` differs from `w` only in that `who` is now at `tx`. */
  ghost predicate Moved(w: World, who: TransactionId, tx: Transaction, w': World) {
    && w'.db == w.db && w'.ref == w.ref && w'.locking == w.locking
    && w'.running == w.running[who := tx]
  }

  lemma ExtendOwn(
    start: World, events: seq<Event>, w0: World, w: World, who: TransactionId, tx: Transaction, a: Statement)
    returns (events': seq<Event>, w': World)
    requires Reaches(start, events, w) && Moved(w0, who, tx, w)
    requires Enabled(w, who, a) && !a.Begin? && !a.Commit? && !a.Abort?
    ensures Reaches(start, events', w') && Moved(w0, who, Advance(w.ref, w.db, tx, a, w.locking), w')
  {
    hide Reaches, Advance;
    events', w' := Extend(start, events, w, who, a);
  }

  lemma AddAndOwe(start: World, events: seq<Event>, w: World, who: TransactionId, s: Subdivision)
    returns (events': seq<Event>, w': World)
    requires Reaches(start, events, w)
    requires !w.locking && w.ref == NAMES && w.db == Library({}, {}) && who !in w.running
    requires s.catalog == 1 && SubdivisionFree(w, who, s)
    ensures Reaches(start, events', w') && Moved(w, who, Adding(s, Idle).(owed := [{1}]), w')
  {
    hide Reaches, Advance;
    AddingAdvances(s);
    events', w' := Extend(start, events, w, who, Begin);
    events', w' := ExtendOwn(start, events', w, w', who, FRESH, InsertSubdivision(s));
  }

  lemma DeleteStep(start: World, events: seq<Event>, w0: World, w: World, who: TransactionId, s: Subdivision)
    returns (events': seq<Event>, w': World)
    requires !w0.locking && w0.ref == NAMES && w0.db == Library({}, {}) && s.catalog == 1
    requires Reaches(start, events, w) && Moved(w0, who, Adding(s, Idle).(owed := [{1}]), w)
    ensures Reaches(start, events', w') && Moved(w0, who, Adding(s, Reading({1})), w')
  {
    hide Reaches, Advance, HiddenIds, View;
    AddingAdvances(s);
    AddingReads(s, Deleting({1}));
    events', w' := ExtendOwn(start, events, w0, w, who, Adding(s, Idle).(owed := [{1}]), StartRefresh);
    events', w' := ExtendOwn(start, events', w0, w', who, Adding(s, Deleting({1})), DeleteHidden);
  }

  /** One transaction adds a subdivision and rebuilds up to the point where it has read its snapshot. */
  lemma AddAndRead(start: World, events: seq<Event>, w: World, who: TransactionId, s: Subdivision, name: string)
    returns (events': seq<Event>, w': World)
    requires Reaches(start, events, w)
    requires !w.locking && w.ref == NAMES && w.db == Library({}, {}) && who !in w.running
    requires (s, name) == (VALAIS_CODE, "Valais") || (s, name) == (PARIS_CODE, "Ile-de-France")
    requires SubdivisionFree(w, who, s)
    ensures Reaches(start, events', w')
    ensures Moved(w, who, Adding(s, Writing({1}, map[1 := Document("A library", None, {}, {name})])), w')
  {
    hide Reaches, Advance, View;
    AddingReadsSnapshot(s, name);
    events', w' := AddAndOwe(start, events, w, who, s);
    events', w' := DeleteStep(start, events', w, w', who, s);
    events', w' := ExtendOwn(start, events', w, w', who, Adding(s, Reading({1})), ReadSnapshot);
  }

  /** Two transactions each add a subdivision to one catalog. Without the lock each rebuilds from a snapshot
      that misses the other's uncommitted row, and the last writer drops one name. */
  lemma WithoutTheLockAnUpdateIsLost() returns (start: World, events: seq<Event>, w: World)
    ensures !start.locking && AtRest(start) && Reaches(start, events, w)
    ensures w.running == map[] && !IsCurrent(w.ref, w.db, 1)
  {
    start := World(NAMES, Library({}, {}), map[], false);
    assert Reaches(start, [], start);
    hide Reaches, View, Advance, AllCurrent, Rebuild, RebuiltRows;
    LibraryIsCurrent({}, {});
    events, w := AddAndRead(start, [], start, 1, VALAIS_CODE, "Valais");
    events, w := AddAndRead(start, events, w, 2, PARIS_CODE, "Ile-de-France");
    events, w := UpsertAndCommit(start, events, w, 1, VALAIS_CODE, "Valais", {}, {});
    events, w := UpsertAndCommit(start, events, w, 2, PARIS_CODE, "Ile-de-France", {VALAIS_CODE}, {"Valais"});
    assert {VALAIS_CODE} + {PARIS_CODE} == {VALAIS_CODE, PARIS_CODE};
    LostNameIsNotCurrent();
  }

  lemma UpsertAndCommit(
    start: World, events: seq<Event>, w: World, who: TransactionId, s: Subdivision, name: string,
    codes: set<Subdivision>, names: set<string>)
    returns (events': seq<Event>, w': World)
    requires Reaches(start, events, w) && who in w.running && s.catalog == 1
    requires !w.locking && w.ref == NAMES && w.db == Library(codes, names)
    requires w.running[who] == Adding(s, Writing({1}, Added(s, name).search))
    requires SearchRowsFree(w, who, {1})
    ensures Reaches(start, events', w')
    ensures w' == w.(db := Library(codes + {s}, {name}), running := w.running - {who})
  {
    hide Reaches, View, Advance;
    AddingCommits(s, name, codes, names);
    events', w' := Extend(start, events, w, who, Upsert);
    events', w' := Extend(start, events', w', who, Commit);
  }

  lemma LostNameIsNotCurrent()
    ensures !IsCurrent(NAMES, Library({VALAIS_CODE, PARIS_CODE}, {"Ile-de-France"}), 1)
  {
    LibraryIsCurrent({VALAIS_CODE, PARIS_CODE}, {"Valais", "Ile-de-France"});
    var t := Library({VALAIS_CODE, PARIS_CODE}, {"Ile-de-France"});
    assert 1 in RebuiltRows(NAMES, Library({VALAIS_CODE, PARIS_CODE}, {}), {1});
    assert SubdivisionCodes(t, 1) == SubdivisionCodes(Library({VALAIS_CODE, PARIS_CODE}, {}), 1);
    assert Rebuild(NAMES, t, 1).subdivisionNames == {"Valais", "Ile-de-France"};
    assert "Valais" !in t.search[1].subdivisionNames;
  }
}
