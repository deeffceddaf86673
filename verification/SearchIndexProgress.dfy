/**
 No deadlock in the transactions whose safety `SearchIndexSafety` proves. The refresh takes the rows of its ids
 in ascending order, and the row an UPDATE already holds is the only one its own refresh needs, so transactions
 that each make one write statement can always go on until all have committed.
 */
module SearchIndexProgress {
  import Lifecycle
  import opened SearchIndex
  import opened SearchIndexSafety

  predicate IsWrite(a: Statement) {
    a.InsertCatalog? || a.UpdateCatalog? || a.InsertSubdivision? || a.DeleteSubdivision? || a.MoveSubdivision?
  }

  /** The statements that take a transaction towards its commit. */
  predicate IsProgress(a: Statement) {
    !a.Begin? && !a.Abort? && !IsWrite(a)
  }

  /** A run in which a transaction writes only as its first statement. */
  ghost predicate RunsOnce(w: World, events: seq<Event>, w': World)
    decreases |events|
  {
    if events == [] then w == w'
    else
      var e := events[0];
      && Enabled(w, e.who, e.action) && (IsWrite(e.action) ==> w.running[e.who] == FRESH)
      && RunsOnce(Step(w, e.who, e.action), events[1..], w')
  }

  // ---- Every lock held is below every lock still wanted ----------------------------------------------

  predicate AtMostEach(held: set<Lifecycle.CatalogId>, wanted: set<Lifecycle.CatalogId>) {
    forall h, y :: h in held && y in wanted ==> h <= y
  }

  ghost predicate Orderly(tx: Transaction) {
    && (tx.stage.Idle? || tx.owed == []) && |tx.owed| <= 1
    && (tx.owed != [] ==> AtMostEach(tx.locks, tx.owed[0]))
    && (tx.stage.Locking? ==> AtMostEach(tx.locks, tx.stage.todo))
  }

  ghost predicate AllOrderly(w: World) {
    forall t :: t in w.running ==> Orderly(w.running[t])
  }

  lemma AdvanceKeepsOrderly(w: World, me: TransactionId, a: Statement)
    requires Enabled(w, me, a) && !a.Begin? && !a.Commit? && !a.Abort?
    requires Orderly(w.running[me]) && (IsWrite(a) ==> w.running[me] == FRESH)
    ensures Orderly(Advance(w.ref, w.db, w.running[me], a, w.locking))
  {
    hide View, RebuiltRows, HiddenIds;
  }

  lemma StepKeepsOrderly(w: World, me: TransactionId, a: Statement)
    requires Enabled(w, me, a) && AllOrderly(w) && (IsWrite(a) ==> w.running[me] == FRESH)
    ensures AllOrderly(Step(w, me, a))
  {
    if !a.Begin? && !a.Commit? && !a.Abort? { AdvanceKeepsOrderly(w, me, a); }
    hide Enabled, Advance, View, Orderly;
    if a.Begin? { FreshIsOrderly(); }
  }

  lemma FreshIsOrderly()
    ensures Orderly(FRESH)
  {
  }

  lemma {:induction false} RunKeepsOrderly(w: World, events: seq<Event>, w': World)
    requires AllOrderly(w) && RunsOnce(w, events, w')
    ensures AllOrderly(w') && Reaches(w, events, w')
    decreases |events|
  {
    hide AllOrderly, Enabled, Step;
    if events != [] {
      StepKeepsOrderly(w, events[0].who, events[0].action);
      RunKeepsOrderly(Step(w, events[0].who, events[0].action), events[1..], w');
    }
  }

  // ---- Someone can go on -----------------------------------------------------------------------------

  /** The smallest id of a set. */
  ghost predicate IsLeast(s: set<Lifecycle.CatalogId>, x: Lifecycle.CatalogId) {
    x in s && forall y :: y in s ==> x <= y
  }

  lemma LeastOfMore(s: set<Lifecycle.CatalogId>, x: Lifecycle.CatalogId, z: Lifecycle.CatalogId)
    requires x in s && IsLeast(s - {x}, z)
    ensures IsLeast(s, if x <= z then x else z)
  {
    forall y | y in s ensures y == x || z <= y {
      assert y == x || y in s - {x};
    }
  }

  lemma {:induction false} LeastExists(s: set<Lifecycle.CatalogId>) returns (x: Lifecycle.CatalogId)
    requires s != {}
    ensures IsLeast(s, x)
    decreases |s|
  {
    x :| x in s;
    if s != {x} {
      assert s - {x} != {};
      var z := LeastExists(s - {x});
      LeastOfMore(s, x, z);
      x := if x <= z then x else z;
    }
  }

  predicate IsWaiting(tx: Transaction) {
    tx.stage.Locking? && tx.stage.todo != {}
  }

  lemma SearchWritesAreLocked(w: World, u: TransactionId)
    requires Sound(w) && u in w.running
    ensures w.running[u].search.Keys + w.running[u].gone <= w.running[u].locks
  {
    hide AllCurrent, ReferencesHold, LocksExclusive, StageSound, IsCurrent, View;
    assert TransactionSound(w.ref, w.db, w.running[u]);
  }

  /** The search rows a refresh writes are of catalogs it has locked, so no other transaction has written them. */
  lemma LockedSearchRowsAreFree(w: World, me: TransactionId, ids: set<Lifecycle.CatalogId>)
    requires Sound(w) && me in w.running && ids <= w.running[me].locks
    ensures SearchRowsFree(w, me, ids)
  {
    hide TransactionSound, AllCurrent, ReferencesHold;
    forall u, x | u in w.running && u != me && x in ids
      ensures x !in w.running[u].search && x !in w.running[u].gone
    {
      SearchWritesAreLocked(w, u);
      assert w.running[u].locks !! w.running[me].locks;
    }
  }

  lemma RefreshedIdsAreLocked(w: World, me: TransactionId)
    requires Sound(w) && me in w.running
    ensures w.running[me].stage.Deleting? ==> w.running[me].stage.ids <= w.running[me].locks
    ensures w.running[me].stage.Writing? ==> w.running[me].stage.rows.Keys <= w.running[me].locks
  {
    hide AllCurrent, ReferencesHold, LocksExclusive, IsCurrent, View, Rebuild, Touched, OwedIds;
    assert TransactionSound(w.ref, w.db, w.running[me]);
  }

  lemma NotWaitingCanGoOn(w: World, me: TransactionId) returns (a: Statement)
    requires Sound(w) && me in w.running && !IsWaiting(w.running[me])
    ensures IsProgress(a) && Enabled(w, me, a)
  {
    hide Sound, View, SearchRowsFree;
    var tx := w.running[me];
    RefreshedIdsAreLocked(w, me);
    match tx.stage
    case Idle => a := if tx.owed == [] then Commit else StartRefresh;
    case Locking(_, _) => a := LocksHeld;
    case Deleting(ids) =>
      LockedSearchRowsAreFree(w, me, HiddenIds(View(w.db, tx), ids));
      a := DeleteHidden;
    case Reading(_) => a := ReadSnapshot;
    case Writing(_, rows) =>
      LockedSearchRowsAreFree(w, me, rows.Keys);
      a := Upsert;
  }

  /** Every id that a transaction still has to lock is below `bound`. */
  ghost predicate AllBelow(w: World, bound: nat) {
    forall t, y :: t in w.running && w.running[t].stage.Locking? && y in w.running[t].stage.todo ==> y < bound
  }

  lemma HolderWaitsHigher(w: World, u: TransactionId, x: Lifecycle.CatalogId, y: Lifecycle.CatalogId)
    requires AllOrderly(w) && u in w.running && x in w.running[u].locks
    requires w.running[u].stage.Locking? && y in w.running[u].stage.todo
    ensures x <= y
  {
    assert Orderly(w.running[u]);
  }

  lemma HolderFindsItFree(w: World, u: TransactionId, x: Lifecycle.CatalogId)
    requires Sound(w) && u in w.running && x in w.running[u].locks
    ensures RowFree(w, u, x)
  {
    hide TransactionSound, AllCurrent, ReferencesHold;
  }

  /** Whoever holds the row `t` waits for waits, if at all, for a larger one: the chain of waits ends at a holder
      of a lock that can go on. */
  lemma {:induction false} FollowTheLocks(w: World, t: TransactionId, x: Lifecycle.CatalogId, bound: nat)
    returns (free: TransactionId, a: Statement)
    requires Sound(w) && AllOrderly(w) && AllBelow(w, bound)
    requires t in w.running && w.running[t].stage.Locking? && IsLeast(w.running[t].stage.todo, x)
    ensures free in w.running && IsProgress(a) && Enabled(w, free, a)
    ensures free == t || w.running[free].locks != {}
    decreases bound - x
  {
    hide Sound, AllOrderly, View;
    assert x < bound;
    if RowFree(w, t, x) { return t, LockRow(x); }
    var u :| u in w.running && u != t && x in w.running[u].locks;
    if !IsWaiting(w.running[u]) {
      free := u;
      a := NotWaitingCanGoOn(w, u);
      return;
    }
    var y := LeastExists(w.running[u].stage.todo);
    HolderWaitsHigher(w, u, x, y);
    if x == y {
      HolderFindsItFree(w, u, x);
      return u, LockRow(x);
    }
    free, a := FollowTheLocks(w, u, y, bound);
  }

  lemma {:induction false} IdsAreBounded(s: set<Lifecycle.CatalogId>) returns (bound: nat)
    ensures forall x :: x in s ==> x < bound
    decreases |s|
  {
    if s == {} { return 0; }
    var x :| x in s;
    var rest := IdsAreBounded(s - {x});
    bound := x + 1 + rest;
    forall y | y in s ensures y < bound {
      assert y == x || y in s - {x};
    }
  }

  function Wanted(running: map<TransactionId, Transaction>): set<Lifecycle.CatalogId> {
    set t, y | t in running && running[t].stage.Locking? && y in running[t].stage.todo :: y
  }

  lemma BoundExists(w: World) returns (bound: nat)
    ensures AllBelow(w, bound)
  {
    bound := IdsAreBounded(Wanted(w.running));
    forall t, y | t in w.running && w.running[t].stage.Locking? && y in w.running[t].stage.todo ensures y < bound {
      assert y in Wanted(w.running);
    }
  }

  /** Every unfinished transaction, or another that holds a lock, can take a step towards its commit. */
  lemma SomeoneCanGoOn(w: World, t: TransactionId) returns (free: TransactionId, a: Statement)
    requires Sound(w) && AllOrderly(w) && t in w.running
    ensures free in w.running && IsProgress(a) && Enabled(w, free, a)
    ensures free == t || w.running[free].locks != {}
  {
    hide Sound, Enabled, AllOrderly, AllBelow;
    if !IsWaiting(w.running[t]) {
      free := t;
      a := NotWaitingCanGoOn(w, t);
      return;
    }
    var bound := BoundExists(w);
    var x := LeastExists(w.running[t].stage.todo);
    free, a := FollowTheLocks(w, t, x, bound);
  }

  lemma AtRestIsSound(w: World)
    requires w.locking && AtRest(w)
    ensures Sound(w) && AllOrderly(w)
  {
  }

  /** In every state reached by transactions that each make one write statement, an unfinished transaction can take
      a step towards its commit, or else one that holds a lock can. */
  lemma WritersNeverDeadlock(start: World, events: seq<Event>, w: World, t: TransactionId)
    returns (free: TransactionId, a: Statement)
    requires start.locking && AtRest(start) && RunsOnce(start, events, w) && t in w.running
    ensures free in w.running && IsProgress(a) && Enabled(w, free, a)
    ensures free == t || w.running[free].locks != {}
  {
    AtRestIsSound(start);
    hide *;
    RunKeepsOrderly(start, events, w);
    RunKeepsSound(start, events, w);
    free, a := SomeoneCanGoOn(w, t);
  }

  // ---- And they finish -------------------------------------------------------------------------------

  function StageWork(s: Stage): nat {
    match s
    case Idle => 1
    case Locking(_, todo) => 5 + |todo|
    case Deleting(_) => 4
    case Reading(_) => 3
    case Writing(_, _) => 2
  }

  function OwedWork(owed: seq<set<Lifecycle.CatalogId>>): nat {
    if owed == [] then 0 else 6 + |owed[0]| + OwedWork(owed[1..])
  }

  /** A bound on the steps a transaction takes from here to its commit. */
  function Work(tx: Transaction): nat {
    StageWork(tx.stage) + OwedWork(tx.owed)
  }

  ghost function TotalWork(running: map<TransactionId, Transaction>): nat
    decreases |running|
  {
    if running == map[] then 0
    else
      var t :| t in running;
      Work(running[t]) + TotalWork(running - {t})
  }

  lemma {:induction false} TotalWithout(running: map<TransactionId, Transaction>, t: TransactionId)
    requires t in running
    ensures TotalWork(running) == Work(running[t]) + TotalWork(running - {t})
    decreases |running|
  {
    hide Work;
    var x :| x in running && TotalWork(running) == Work(running[x]) + TotalWork(running - {x});
    if x != t {
      TotalWithout(running - {x}, t);
      TotalWithout(running - {t}, x);
      assert running - {x} - {t} == running - {t} - {x};
    }
  }

  lemma AdvanceShrinksWork(ref: Reference, db: Tables, tx: Transaction, a: Statement, locking: bool)
    requires IsProgress(a) && !a.Commit?
    requires a.StartRefresh? ==> tx.stage.Idle? && tx.owed != []
    requires a.LockRow? ==> tx.stage.Locking? && a.x in tx.stage.todo
    requires a.LocksHeld? ==> tx.stage.Locking?
    requires a.DeleteHidden? ==> tx.stage.Deleting?
    requires a.ReadSnapshot? ==> tx.stage.Reading?
    requires a.Upsert? ==> tx.stage.Writing?
    ensures Work(Advance(ref, db, tx, a, locking)) < Work(tx)
  {
    hide View, RebuiltRows, HiddenIds;
    if a.StartRefresh? {
      var v := View(db, tx);
      SmallerSet(tx.owed[0] * v.catalogs.Keys, tx.owed[0]);
    }
  }

  lemma {:induction false} SmallerSet(s: set<Lifecycle.CatalogId>, t: set<Lifecycle.CatalogId>)
    requires s <= t
    ensures |s| <= |t|
  {
    if s != {} {
      var x :| x in s;
      SmallerSet(s - {x}, t - {x});
    }
  }

  lemma ReplacingShrinksWork(running: map<TransactionId, Transaction>, me: TransactionId, tx: Transaction)
    requires me in running && Work(tx) < Work(running[me])
    ensures TotalWork(running[me := tx]) < TotalWork(running)
  {
    hide Work, TotalWork;
    TotalWithout(running, me);
    TotalWithout(running[me := tx], me);
    assert running[me := tx] - {me} == running - {me};
  }

  lemma StepShrinksWork(w: World, me: TransactionId, a: Statement)
    requires Enabled(w, me, a) && IsProgress(a)
    ensures TotalWork(Step(w, me, a).running) < TotalWork(w.running)
  {
    hide TotalWork, Advance, View, RowFree, SearchRowsFree;
    if a.Commit? {
      TotalWithout(w.running, me);
      assert Work(w.running[me]) >= 1;
    } else {
      AdvanceShrinksWork(w.ref, w.db, w.running[me], a, w.locking);
      ReplacingShrinksWork(w.running, me, Advance(w.ref, w.db, w.running[me], a, w.locking));
    }
  }

  ghost predicate OnlyProgress(events: seq<Event>) {
    forall i :: 0 <= i < |events| ==> IsProgress(events[i].action)
  }

  lemma {:induction false} ProgressIsBounded(w: World, events: seq<Event>, w': World)
    requires Reaches(w, events, w') && OnlyProgress(events)
    ensures |events| + TotalWork(w'.running) <= TotalWork(w.running)
    ensures RunsOnce(w, events, w')
    decreases |events|
  {
    hide Enabled, Step, TotalWork;
    if events != [] {
      assert IsProgress(events[0].action);
      StepShrinksWork(w, events[0].who, events[0].action);
      ProgressIsBounded(Step(w, events[0].who, events[0].action), events[1..], w');
    }
  }

  /** Once no new transaction starts and none aborts, every schedule is bounded, and it stops exactly when every
      transaction has committed. */
  lemma EveryWriterFinishes(start: World, events: seq<Event>, w: World, more: seq<Event>, w': World)
    requires start.locking && AtRest(start) && RunsOnce(start, events, w)
    requires Reaches(w, more, w') && OnlyProgress(more)
    ensures |more| <= TotalWork(w.running)
    ensures (forall t, a :: IsProgress(a) ==> !(t in w'.running && Enabled(w', t, a))) <==> w'.running == map[]
  {
    AtRestIsSound(start);
    hide *;
    RunKeepsOrderly(start, events, w);
    RunKeepsSound(start, events, w);
    ProgressIsBounded(w, more, w');
    RunKeepsOrderly(w, more, w');
    RunKeepsSound(w, more, w');
    if w'.running != map[] {
      var t :| t in w'.running;
      var free, a := SomeoneCanGoOn(w', t);
    }
  }

  // ---- A write in a quiet database -------------------------------------------------------------------

  /** What the constraints ask of a write. */
  predicate MayWrite(db: Tables, a: Statement) {
    match a
    case InsertCatalog(x, _) => x !in db.catalogs
    case UpdateCatalog(x, row, watched) => x in db.catalogs && (watched || SameWatchedColumns(db.catalogs[x], row))
    case InsertSubdivision(s) => s.catalog in db.catalogs && s !in db.subdivisions
    case DeleteSubdivision(s) => s in db.subdivisions
    case MoveSubdivision(s, to) => s in db.subdivisions && to.catalog in db.catalogs && to !in db.subdivisions
    case _ => false
  }

  lemma FreshMayWrite(w: World, me: TransactionId, a: Statement)
    requires w.running == map[] && MayWrite(w.db, a)
    ensures Enabled(w, me, Begin) && Enabled(Step(w, me, Begin), me, a) && IsWrite(a)
    ensures View(w.db, FRESH) == w.db && Step(w, me, Begin).running[me] == FRESH
  {
  }

  /** A transaction that runs alone gets to its commit, and what it reads of the catalogs and subdivisions is then
      what is stored. */
  lemma {:induction false} AloneItCommits(w: World, me: TransactionId) returns (events: seq<Event>, w': World)
    requires Sound(w) && AllOrderly(w) && w.running.Keys == {me}
    ensures Reaches(w, events, w') && w'.running == map[]
    ensures w'.db.catalogs == View(w.db, w.running[me]).catalogs
    ensures w'.db.subdivisions == View(w.db, w.running[me]).subdivisions
    decreases TotalWork(w.running)
  {
    hide Sound, AllOrderly, Enabled, Step, View, TotalWork;
    var free, a := SomeoneCanGoOn(w, me);
    assert free == me;
    StatementsDoWhatTheySay(w, me, a);
    StepShrinksWork(w, me, a);
    StepKeepsSound(w, me, a);
    StepKeepsOrderly(w, me, a);
    var next := Step(w, me, a);
    var rest := [];
    if a.Commit? {
      w' := next;
      assert next.running.Keys == {};
    } else {
      rest, w' := AloneItCommits(next, me);
    }
    events := [Event(me, a)] + rest;
    assert events[1..] == rest;
  }

  /** In a quiet database every write that keeps the constraints can be committed, and the tables then hold it. */
  lemma QuietWriteCommits(w: World, me: TransactionId, a: Statement) returns (events: seq<Event>, w': World)
    requires w.locking && AtRest(w) && MayWrite(w.db, a)
    ensures Reaches(w, events, w') && w'.running == map[]
    ensures var v := Tables(w'.db.catalogs, w'.db.subdivisions, w.db.search);
            ReadsAfter(w.db, a, v)
  {
    hide *;
    var wrote := BegunAndWritten(w, me, a);
    var rest;
    rest, w' := AloneItCommits(wrote, me);
    events := TwoMore(w, Event(me, Begin), Event(me, a), rest, w');
    SameReads(w.db, a, View(w.db, wrote.running[me]), w'.db);
  }

  lemma BegunAndWritten(w: World, me: TransactionId, a: Statement) returns (wrote: World)
    requires w.locking && AtRest(w) && MayWrite(w.db, a)
    ensures IsWrite(a) && Enabled(w, me, Begin) && Enabled(Step(w, me, Begin), me, a)
    ensures wrote == Step(Step(w, me, Begin), me, a)
    ensures Sound(wrote) && AllOrderly(wrote) && wrote.running.Keys == {me} && wrote.db == w.db
    ensures ReadsAfter(w.db, a, View(w.db, wrote.running[me]))
  {
    AtRestIsSound(w);
    FreshMayWrite(w, me, a);
    hide Sound, AllOrderly, Enabled, View, AllCurrent, ReferencesHold, Advance, MayWrite, ReadsAfter;
    var begun := Step(w, me, Begin);
    StepKeepsSound(w, me, Begin);
    StepKeepsOrderly(w, me, Begin);
    StatementsDoWhatTheySay(begun, me, a);
    StepKeepsSound(begun, me, a);
    StepKeepsOrderly(begun, me, a);
    wrote := Step(begun, me, a);
  }

  lemma TwoMore(w: World, e: Event, f: Event, rest: seq<Event>, w': World) returns (events: seq<Event>)
    requires Enabled(w, e.who, e.action) && Enabled(Step(w, e.who, e.action), f.who, f.action)
    requires Reaches(Step(Step(w, e.who, e.action), f.who, f.action), rest, w')
    ensures Reaches(w, events, w')
  {
    hide Enabled, Step;
    var later := [f] + rest;
    events := [e] + later;
    assert later[1..] == rest && events[1..] == later;
    assert Reaches(Step(w, e.who, e.action), later, w');
  }

  lemma SameReads(v: Tables, a: Statement, read: Tables, stored: Tables)
    requires IsWrite(a) && ReadsAfter(v, a, read)
    requires stored.catalogs == read.catalogs && stored.subdivisions == read.subdivisions
    ensures ReadsAfter(v, a, Tables(stored.catalogs, stored.subdivisions, v.search))
  {
  }
}
