/**
 The admin writes: one session's lock, check, write and commit, and any number of them at once.
 `FOR UPDATE` makes the writers of one catalog take turns, and the version each one names must be the one it
 finds, so the committed effective writes form a single sequence that the final rows replay.
 */
module AdminWrites {
  import opened Wrappers
  import opened Lifecycle
  import Sorting

  type Rows = map<CatalogId, LifecycleColumns>

  /** A request as the service receives it: the caller's permissions, and the catalog id if it is a UUID. */
  datatype Call = Call(permissions: set<Action>, catalog: Option<CatalogId>, request: Request, now: int)

  // ---- One writer's session --------------------------------------------------------------------------

  /** `AdminCatalogWriter` over one session: what is stored, and what the open transaction would store. */
  class CatalogWriter {
    var stored: Rows
    var session: Rows

    constructor (stored: Rows)
      ensures this.stored == stored && session == stored
    {
      this.stored, this.session := stored, stored;
    }

    method LockSeenCatalog(id: CatalogId, version: int) returns (r: Result<LifecycleColumns, AdminError>)
      ensures r.Ok? <==> id in session && session[id].version == version
      ensures r.Ok? ==> r.value == session[id]
      ensures r.Error? ==> r.error == if id in session then VersionConflict else CatalogNotFound
    {
      if id !in session { return Error(CatalogNotFound); }
      if session[id].version != version { return Error(VersionConflict); }
      return Ok(session[id]);
    }

    /** The row takes the status, one version later; going live dates it, and anything else keeps its date. */
    method PersistCatalogStatus(id: CatalogId, status: Status, now: int)
      requires id in session
      modifies this`session
      ensures session.Keys == old(session).Keys && forall x :: x in session && x != id ==> session[x] == old(session)[x]
      ensures session[id].status == status && session[id].version == old(session)[id].version + 1
      ensures session[id].recommended == old(session)[id].recommended
      ensures if status == Published then session[id].publishedAt == Some(now)
              else session[id].publishedAt == old(session)[id].publishedAt
    {
      session := session[id := SetStatus(session[id], status, now)];
    }

    /** Setting the flag to the value it has changes nothing at all; otherwise it is a new version of the row. */
    method PersistCatalogRecommended(id: CatalogId, recommended: bool)
      requires id in session
      modifies this`session
      ensures old(session)[id].recommended == recommended ==> session == old(session)
      ensures session.Keys == old(session).Keys && forall x :: x in session && x != id ==> session[x] == old(session)[x]
      ensures session[id].recommended == recommended
      ensures old(session)[id].recommended != recommended ==> session[id].version == old(session)[id].version + 1
      ensures session[id].status == old(session)[id].status && session[id].publishedAt == old(session)[id].publishedAt
    {
      if session[id].recommended != recommended {
        session := session[id := SetRecommended(session[id], recommended)];
      }
    }

    method Commit()
      modifies this`stored
      ensures stored == session
    {
      stored := session;
    }

    method Rollback()
      modifies this`session
      ensures session == stored
    {
      session := stored;
    }

    /** Role, then id, then version, then lifecycle; nothing is stored unless every check passes. */
    method ApplyAdminTransition(
      permissions: set<Action>, catalog: Option<CatalogId>, action: Action, version: int, now: int)
      returns (r: Result<Option<Action>, AdminError>)
      requires session == stored
      modifies this
      ensures session == stored
      ensures r.Ok? <==> && action in permissions && catalog.Some? && catalog.value in old(stored)
                         && Decide(old(stored)[catalog.value], TransitionRequest(action, version), now).Ok?
      ensures r.Ok? ==>
                var row := old(stored)[catalog.value];
                && stored == old(stored)[catalog.value := Decide(row, TransitionRequest(action, version), now).value]
                && r.value == UndoAction(row.status, action)
      ensures r.Error? ==>
                var call := Call(permissions, catalog, TransitionRequest(action, version), now);
                stored == old(stored) && r.error == Refusal(call, old(stored))
      ensures r.Ok? <==> && action in permissions && catalog.Some? && catalog.value in old(stored)
                         && old(stored)[catalog.value].version == version
                         && MayTake(old(stored)[catalog.value].status, action)
      ensures r.Ok? ==>
                var before := old(stored)[catalog.value];
                stored == old(stored)[catalog.value := LifecycleColumns(
                  Landing(action), version + 1, before.recommended,
                  if Landing(action) == Published then Some(now) else before.publishedAt)]
      ensures r.Error? ==>
                r.error == if action !in permissions then PermissionDenied
                           else if catalog.None? || catalog.value !in old(stored) then CatalogNotFound
                           else if old(stored)[catalog.value].version != version then VersionConflict
                           else InvalidTransition
    {
      if action !in permissions { return Error(PermissionDenied); }
      if catalog.None? { return Error(CatalogNotFound); }
      var id := catalog.value;
      var seen := LockSeenCatalog(id, version);
      if seen.Error? { return Error(seen.error); }
      var state := seen.value;
      var target := Transition(state.status, action);
      if target.None? { Rollback(); return Error(InvalidTransition); }
      PersistCatalogStatus(id, target.value, now);
      Commit();
      return Ok(UndoAction(state.status, action));
    }

    method ApplyAdminRecommendation(
      permissions: set<Action>, catalog: Option<CatalogId>, recommended: bool, version: int, now: int)
      returns (r: Result<CatalogId, AdminError>)
      requires session == stored
      modifies this
      ensures session == stored
      ensures r.Ok? <==> && Recommend in permissions && catalog.Some? && catalog.value in old(stored)
                         && Decide(old(stored)[catalog.value], RecommendRequest(recommended, version), now).Ok?
      ensures r.Ok? ==>
                var row := old(stored)[catalog.value];
                && r.value == catalog.value
                && stored == old(stored)[r.value := Decide(row, RecommendRequest(recommended, version), now).value]
      ensures r.Error? ==>
                var call := Call(permissions, catalog, RecommendRequest(recommended, version), now);
                stored == old(stored) && r.error == Refusal(call, old(stored))
      ensures r.Ok? <==> && Recommend in permissions && catalog.Some? && catalog.value in old(stored)
                         && old(stored)[catalog.value].version == version
                         && old(stored)[catalog.value].status == Published
      ensures r.Ok? ==>
                var before := old(stored)[catalog.value];
                stored == if before.recommended == recommended then old(stored)
                          else old(stored)[catalog.value := before.(recommended := recommended, version := version + 1)]
      ensures r.Error? ==>
                r.error == if Recommend !in permissions then PermissionDenied
                           else if catalog.None? || catalog.value !in old(stored) then CatalogNotFound
                           else if old(stored)[catalog.value].version != version then VersionConflict
                           else NotPublished
    {
      if Recommend !in permissions { return Error(PermissionDenied); }
      if catalog.None? { return Error(CatalogNotFound); }
      var id := catalog.value;
      var seen := LockSeenCatalog(id, version);
      if seen.Error? { return Error(seen.error); }
      if seen.value.status != Published { Rollback(); return Error(NotPublished); }
      PersistCatalogRecommended(id, recommended);
      Commit();
      return Ok(id);
    }
  }

  /** Why a call that is not accepted is refused, in the order the checks are made. */
  function Refusal(c: Call, rows: Rows): AdminError {
    if c.request.Needs() !in c.permissions then PermissionDenied
    else if c.catalog.None? || c.catalog.value !in rows then CatalogNotFound
    else
      var d := Decide(rows[c.catalog.value], c.request, c.now);
      if d.Error? then d.error else CatalogNotFound
  }

  // ---- Any number of writers -------------------------------------------------------------------------

  type WriterId = nat

  datatype Stage =
    | Waiting
    | Locked(seen: LifecycleColumns)
    | Wrote(seen: LifecycleColumns, row: LifecycleColumns)
    | Done(changed: bool)

  datatype Entry = Entry(who: WriterId, call: Call)

  /** `log` records the committed effective writes in commit order. */
  datatype World = World(rows: Rows, calls: map<WriterId, Call>, stages: map<WriterId, Stage>, log: seq<Entry>)

  datatype Step = Lock | Write | Commit | Leave

  predicate HoldsLock(w: World, u: WriterId, id: CatalogId) {
    && u in w.stages && u in w.calls && (w.stages[u].Locked? || w.stages[u].Wrote?)
    && w.calls[u].catalog == Some(id)
  }

  ghost predicate Enabled(w: World, me: WriterId, step: Step) {
    && me in w.calls && me in w.stages
    && var c := w.calls[me];
    match step
    case Lock =>
      && w.stages[me].Waiting? && c.request.Needs() in c.permissions && c.catalog.Some? && c.catalog.value in w.rows
      && forall u :: u != me ==> !HoldsLock(w, u, c.catalog.value)
    case Write => w.stages[me].Locked? && Decide(w.stages[me].seen, c.request, c.now).Ok?
    case Commit => w.stages[me].Wrote? && c.catalog.Some?
    case Leave => !w.stages[me].Done?
  }

  ghost function Take(w: World, me: WriterId, step: Step): World
    requires Enabled(w, me, step)
  {
    var c, stage := w.calls[me], w.stages[me];
    match step
    case Lock => w.(stages := w.stages[me := Locked(w.rows[c.catalog.value])])
    case Write => w.(stages := w.stages[me := Wrote(stage.seen, Decide(stage.seen, c.request, c.now).value)])
    case Commit =>
      var changed := stage.row != stage.seen;
      w.(rows := w.rows[c.catalog.value := stage.row], stages := w.stages[me := Done(changed)],
         log := if changed then w.log + [Entry(me, c)] else w.log)
    case Leave => w.(stages := w.stages[me := Done(false)])
  }

  /** A writer that finds its row free goes through: what its request makes of the row is committed, and logged exactly
      when it changes the row. */
  lemma FreeWriterCommits(w: World, me: WriterId) returns (w': World)
    requires me in w.calls && me in w.stages && w.stages[me].Waiting?
    requires var c := w.calls[me];
             && c.request.Needs() in c.permissions && c.catalog.Some? && c.catalog.value in w.rows
             && Decide(w.rows[c.catalog.value], c.request, c.now).Ok?
             && forall u :: u != me ==> !HoldsLock(w, u, c.catalog.value)
    ensures Runs(w, [(me, Lock), (me, Write), (me, Commit)], w')
    ensures var c := w.calls[me];
            var row := Decide(w.rows[c.catalog.value], c.request, c.now).value;
            && w'.rows == w.rows[c.catalog.value := row] && w'.calls == w.calls
            && w'.log == w.log + if row != w.rows[c.catalog.value] then [Entry(me, c)] else []
  {
    hide Decide;
    var locked := Take(w, me, Lock);
    var wrote := Take(locked, me, Write);
    w' := Take(wrote, me, Commit);
    var all: seq<(WriterId, Step)> := [(me, Lock), (me, Write), (me, Commit)];
    assert all[1..] == [(me, Write), (me, Commit)] && all[1..][1..] == [(me, Commit)] && all[1..][1..][1..] == [];
    assert Runs(w', all[1..][1..][1..], w');
    assert Runs(wrote, all[1..][1..], w');
    assert Runs(locked, all[1..], w');
  }

  ghost predicate Runs(w: World, schedule: seq<(WriterId, Step)>, w': World)
    decreases |schedule|
  {
    if schedule == [] then w == w'
    else Enabled(w, schedule[0].0, schedule[0].1) && Runs(Take(w, schedule[0].0, schedule[0].1), schedule[1..], w')
  }

  // ---- Replaying the log -----------------------------------------------------------------------------

  /** The write of entry `e` takes effect on `rows`. */
  ghost predicate TakesEffect(rows: Rows, e: Entry) {
    && e.call.catalog.Some? && e.call.catalog.value in rows
    && e.call.request.Needs() in e.call.permissions
    && var row := rows[e.call.catalog.value];
    && Decide(row, e.call.request, e.call.now).Ok?
    && Decide(row, e.call.request, e.call.now).value != row
  }

  ghost predicate Replays(rows: Rows, log: seq<Entry>, rows': Rows)
    decreases |log|
  {
    if log == [] then rows' == rows
    else
      && TakesEffect(rows, log[0])
      && var id := log[0].call.catalog.value;
      Replays(rows[id := Decide(rows[id], log[0].call.request, log[0].call.now).value], log[1..], rows')
  }

  lemma {:induction false} ReplaysThen(rows: Rows, log: seq<Entry>, mid: Rows, e: Entry, rows': Rows)
    requires Replays(rows, log, mid) && TakesEffect(mid, e)
    requires rows' == mid[e.call.catalog.value := Decide(mid[e.call.catalog.value], e.call.request, e.call.now).value]
    ensures Replays(rows, log + [e], rows')
    decreases |log|
  {
    if log == [] {
      assert ([e])[1..] == [];
    } else {
      var id := log[0].call.catalog.value;
      ReplaysThen(rows[id := Decide(rows[id], log[0].call.request, log[0].call.now).value], log[1..], mid, e, rows');
      assert (log + [e])[1..] == log[1..] + [e];
    }
  }

  /** A locked writer still sees the committed row, its write is what the request decides, and the log holds
      exactly the writers that are done and changed something, each once. */
  ghost predicate WriterSound(w: World, u: WriterId) {
    && u in w.calls && u in w.stages
    && var c := w.calls[u];
    match w.stages[u]
    case Waiting => true
    case Locked(seen) =>
      && c.catalog.Some? && c.catalog.value in w.rows && w.rows[c.catalog.value] == seen
      && c.request.Needs() in c.permissions
    case Wrote(seen, row) =>
      && c.catalog.Some? && c.catalog.value in w.rows && w.rows[c.catalog.value] == seen
      && c.request.Needs() in c.permissions
      && Decide(seen, c.request, c.now) == Ok(row)
    case Done(_) => true
  }

  ghost predicate LogSound(w: World) {
    && (forall i :: 0 <= i < |w.log| ==>
                      && w.log[i].who in w.stages && w.stages[w.log[i].who] == Done(true)
                      && w.log[i].who in w.calls && w.log[i].call == w.calls[w.log[i].who])
    && (forall i, j :: 0 <= i < j < |w.log| ==> w.log[i].who != w.log[j].who)
    && (forall u :: u in w.stages && w.stages[u] == Done(true) ==> exists i :: 0 <= i < |w.log| && w.log[i].who == u)
  }

  ghost predicate Sound(start: Rows, w: World) {
    && Replays(start, w.log, w.rows)
    && LogSound(w)
    && (forall u :: u in w.stages ==> WriterSound(w, u))
    && (forall t, u, id :: HoldsLock(w, t, id) && HoldsLock(w, u, id) ==> t == u)
  }

  lemma CommitKeepsLog(w: World, me: WriterId)
    requires LogSound(w) && Enabled(w, me, Commit)
    ensures LogSound(Take(w, me, Commit))
  {
    var w' := Take(w, me, Commit);
    if w'.log != w.log {
      assert w'.log[|w.log|].who == me;
      forall u | u in w'.stages && w'.stages[u] == Done(true)
        ensures exists i :: 0 <= i < |w'.log| && w'.log[i].who == u
      {
        if u != me {
          var i :| 0 <= i < |w.log| && w.log[i].who == u;
          assert w'.log[i].who == u;
        }
      }
    }
  }

  lemma CommitKeepsSound(start: Rows, w: World, me: WriterId)
    requires Sound(start, w) && Enabled(w, me, Commit)
    ensures Sound(start, Take(w, me, Commit))
  {
    var w' := Take(w, me, Commit);
    var c, stage := w.calls[me], w.stages[me];
    var id := c.catalog.value;
    assert WriterSound(w, me);
    CommitKeepsLog(w, me);
    if stage.row != stage.seen {
      ReplaysThen(start, w.log, w.rows, Entry(me, c), w'.rows);
    } else {
      assert w'.rows == w.rows;
    }
    forall u | u in w'.stages ensures WriterSound(w', u) {
      assert WriterSound(w, u);
      assert HoldsLock(w, me, id);
      assert u != me && HoldsLock(w, u, id) ==> false;
    }
    assert forall u, x :: HoldsLock(w', u, x) ==> HoldsLock(w, u, x);
  }

  lemma TakeKeepsSound(start: Rows, w: World, me: WriterId, step: Step)
    requires Sound(start, w) && Enabled(w, me, step)
    ensures Sound(start, Take(w, me, step))
  {
    if step == Commit {
      CommitKeepsSound(start, w, me);
    } else {
      var w' := Take(w, me, step);
      assert WriterSound(w, me);
      assert forall u :: u in w.stages ==> WriterSound(w, u);
      assert forall u, x :: u != me ==> (HoldsLock(w', u, x) <==> HoldsLock(w, u, x));
      assert step != Lock ==> forall x :: HoldsLock(w', me, x) ==> HoldsLock(w, me, x);
    }
  }

  ghost predicate AtStart(w: World) {
    w.log == [] && forall u :: u in w.stages ==> u in w.calls && w.stages[u] == Waiting
  }

  /** However the writers are scheduled, the rows are the replay of the committed effective writes, and the
      log names exactly the writers that changed something, each once. */
  lemma {:induction false} RowsReplayTheLog(start: Rows, w: World, schedule: seq<(WriterId, Step)>, w': World)
    requires Sound(start, w) && Runs(w, schedule, w')
    ensures Sound(start, w')
    decreases |schedule|
  {
    if schedule != [] {
      TakeKeepsSound(start, w, schedule[0].0, schedule[0].1);
      RowsReplayTheLog(start, Take(w, schedule[0].0, schedule[0].1), schedule[1..], w');
    }
  }

  /** The entries of `log` about one catalog. */
  function About(log: seq<Entry>, id: CatalogId): seq<Entry> {
    Sorting.Filter((e: Entry) => e.call.catalog == Some(id), log)
  }

  /** The k-th effective write on a catalog named the version k past the first one, and the version ends
      one higher for each. */
  lemma {:induction false} VersionsCountTheWrites(rows: Rows, log: seq<Entry>, rows': Rows, id: CatalogId)
    requires Replays(rows, log, rows')
    ensures id in rows <==> id in rows'
    ensures id in rows ==> rows'[id].version == rows[id].version + |About(log, id)|
    ensures id in rows ==> forall k :: 0 <= k < |About(log, id)| ==>
            About(log, id)[k].call.request.version == rows[id].version + k
    decreases |log|
  {
    if log != [] {
      var at := log[0].call.catalog.value;
      var next := rows[at := Decide(rows[at], log[0].call.request, log[0].call.now).value];
      VersionsCountTheWrites(next, log[1..], rows', id);
      assert at == id ==> next[id].version == rows[id].version + 1;
    }
  }

  lemma {:induction false} AboutKeepsOrder(log: seq<Entry>, id: CatalogId, i: nat) returns (k: nat)
    requires i < |log| && log[i].call.catalog == Some(id)
    ensures k < |About(log, id)| && About(log, id)[k] == log[i]
    ensures k == |About(log[..i], id)|
  {
    if i == 0 { return 0; }
    var rest := AboutKeepsOrder(log[1..], id, i - 1);
    assert log[..i][1..] == log[1..][..i - 1];
    k := rest + if log[0].call.catalog == Some(id) then 1 else 0;
  }

  lemma {:induction false} AboutGrows(log: seq<Entry>, id: CatalogId, i: nat, j: nat)
    requires i < j <= |log| && log[i].call.catalog == Some(id)
    ensures |About(log[..i], id)| < |About(log[..j], id)|
  {
    if i > 0 {
      AboutGrows(log[1..], id, i - 1, j - 1);
      assert log[..i][1..] == log[1..][..i - 1] && log[..j][1..] == log[1..][..j - 1];
    }
  }

  /** Of all the writers that changed a catalog, no two had seen the same version of it. */
  lemma AtMostOneWritePerSeenVersion(w: World, schedule: seq<(WriterId, Step)>, w': World, i: nat, j: nat)
    requires AtStart(w) && Runs(w, schedule, w')
    requires i < j < |w'.log| && w'.log[i].call.catalog == w'.log[j].call.catalog
    ensures w'.log[i].call.request.version < w'.log[j].call.request.version
    ensures w'.log[i].who != w'.log[j].who
  {
    RowsReplayTheLog(w.rows, w, schedule, w');
    EntriesNameACatalog(w.rows, w'.log, w'.rows, i);
    var id := w'.log[i].call.catalog.value;
    VersionsCountTheWrites(w.rows, w'.log, w'.rows, id);
    var k := AboutKeepsOrder(w'.log, id, i);
    var l := AboutKeepsOrder(w'.log, id, j);
    AboutGrows(w'.log, id, i, j);
  }

  lemma {:induction false} EntriesNameACatalog(rows: Rows, log: seq<Entry>, rows': Rows, i: nat)
    requires Replays(rows, log, rows') && i < |log|
    ensures log[i].call.catalog.Some? && log[i].call.catalog.value in rows
    decreases |log|
  {
    if i > 0 {
      var at := log[0].call.catalog.value;
      var next := Decide(rows[at], log[0].call.request, log[0].call.now).value;
      EntriesNameACatalog(rows[at := next], log[1..], rows', i - 1);
    }
  }

  /** From the start of any run: the final rows are the replay, a writer is logged exactly when it changed
      something, and the version of each row has grown by the number of logged writes on it. */
  lemma EveryRunIsSerial(w: World, schedule: seq<(WriterId, Step)>, w': World)
    requires AtStart(w) && Runs(w, schedule, w')
    ensures Replays(w.rows, w'.log, w'.rows)
    ensures forall u :: u in w'.stages && w'.stages[u] == Done(true) <==>
            exists i :: 0 <= i < |w'.log| && w'.log[i].who == u
    ensures w'.rows.Keys == w.rows.Keys
    ensures forall id :: id in w.rows ==> w'.rows[id].version == w.rows[id].version + |About(w'.log, id)|
    ensures forall id :: id in w.rows && About(w'.log, id) == [] ==> w'.rows[id] == w.rows[id]
  {
    RowsReplayTheLog(w.rows, w, schedule, w');
    forall id ensures id in w.rows <==> id in w'.rows
      ensures id in w.rows ==> w'.rows[id].version == w.rows[id].version + |About(w'.log, id)|
      ensures id in w.rows && About(w'.log, id) == [] ==> w'.rows[id] == w.rows[id]
    {
      VersionsCountTheWrites(w.rows, w'.log, w'.rows, id);
      UnloggedRowsAreUnchanged(w.rows, w'.log, w'.rows, id);
    }
  }

  lemma {:induction false} UnloggedRowsAreUnchanged(rows: Rows, log: seq<Entry>, rows': Rows, id: CatalogId)
    requires Replays(rows, log, rows')
    ensures id in rows && About(log, id) == [] ==> id in rows' && rows'[id] == rows[id]
    decreases |log|
  {
    if log != [] {
      var at := log[0].call.catalog.value;
      var next := Decide(rows[at], log[0].call.request, log[0].call.now).value;
      UnloggedRowsAreUnchanged(rows[at := next], log[1..], rows', id);
    }
  }
}
