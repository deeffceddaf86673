/** The catalog status state machine, and the columns of a row that the admin writes and the importer share. */
module Lifecycle {
  import opened Wrappers
  import Sorting

  /** A catalog's UUID. Only its identity and its order matter. */
  type CatalogId = nat

  datatype Status = Draft | Published | Unpublished | Archived

  datatype Action = Edit | Publish | Unpublish | Archive | Unarchive | Delete | Recommend

  /** Every action, in the order the API lists them. */
  const ACTIONS := [Edit, Publish, Unpublish, Archive, Unarchive, Delete, Recommend]

  function StatusActions(s: Status): set<Action> {
    match s
    case Draft => {Edit, Publish, Delete}
    case Published => {Edit, Unpublish, Archive, Recommend}
    case Unpublished => {Edit, Publish, Archive}
    case Archived => {Unarchive}
  }

  predicate IsTransition(a: Action) {
    a in {Publish, Unpublish, Archive, Unarchive}
  }

  function Transition(s: Status, a: Action): Option<Status> {
    match (s, a)
    case (Draft, Publish) => Some(Published)
    case (Published, Unpublish) => Some(Unpublished)
    case (Published, Archive) => Some(Archived)
    case (Unpublished, Publish) => Some(Published)
    case (Unpublished, Archive) => Some(Archived)
    case (Archived, Unarchive) => Some(Unpublished)
    case _ => None
  }

  /** The lifecycle as the contract draws it: which actions a catalog may take, and where each one leads. */
  predicate MayTake(s: Status, a: Action) {
    match a
    case Publish => s == Draft || s == Unpublished
    case Unpublish => s == Published
    case Archive => s == Published || s == Unpublished
    case Unarchive => s == Archived
    case _ => false
  }

  function Landing(a: Action): Status {
    match a
    case Publish => Published
    case Archive => Archived
    case _ => Unpublished
  }

  lemma TransitionsAreDrawn(s: Status, a: Action)
    ensures Transition(s, a) == if MayTake(s, a) then Some(Landing(a)) else None
  {
  }

  function UndoAction(s: Status, a: Action): Option<Action> {
    match (s, a)
    case (Published, Unpublish) => Some(Publish)
    case (Unpublished, Publish) => Some(Unpublish)
    case (Unpublished, Archive) => Some(Unarchive)
    case _ => None
  }

  function BuildAllowedActions(s: Status, permissions: set<Action>): seq<Action> {
    Sorting.Filter(a => a in StatusActions(s) * permissions, ACTIONS)
  }

  /** The undo table is the rule the contract states: an action other than unarchive can be undone exactly
      when some action leads from where it lands back to where it started, and the table names that action. */
  lemma UndoTableIsTheInverse(s: Status, a: Action)
    ensures UndoAction(s, a).Some? <==>
              a != Unarchive && Transition(s, a).Some? && exists u :: Transition(Transition(s, a).value, u) == Some(s)
    ensures UndoAction(s, a).Some? ==> Transition(Transition(s, a).value, UndoAction(s, a).value) == Some(s)
  {
  }

  // ---- The lifecycle columns -------------------------------------------------------------------------

  datatype LifecycleColumns = LifecycleColumns(
    status: Status, version: int, recommended: bool, publishedAt: Option<int>)

  datatype Request =
    | TransitionRequest(action: Action, version: int)
    | RecommendRequest(recommended: bool, version: int)
  {
    function Needs(): Action {
      if TransitionRequest? then action else Recommend
    }
  }

  datatype AdminError = PermissionDenied | CatalogNotFound | VersionConflict | InvalidTransition | NotPublished

  /** `_SET_STATUS`: a new publication date only when the catalog goes live. */
  function SetStatus(c: LifecycleColumns, s: Status, now: int): LifecycleColumns {
    c.(status := s, version := c.version + 1, publishedAt := if s == Published then Some(now) else c.publishedAt)
  }

  /** `_SET_RECOMMENDED`: the value it already has changes nothing. */
  function SetRecommended(c: LifecycleColumns, recommended: bool): LifecycleColumns {
    if c.recommended == recommended then c else c.(recommended := recommended, version := c.version + 1)
  }

  /** What one admin request does to the row it has locked: version first, then the lifecycle. */
  function Decide(c: LifecycleColumns, r: Request, now: int): Result<LifecycleColumns, AdminError> {
    if c.version != r.version then Error(VersionConflict)
    else match r
      case TransitionRequest(action, _) =>
        var target := Transition(c.status, action);
        if target.None? then Error(InvalidTransition) else Ok(SetStatus(c, target.value, now))
      case RecommendRequest(recommended, _) =>
        if c.status != Published then Error(NotPublished) else Ok(SetRecommended(c, recommended))
  }

  /** What an import does to a stored row: it publishes a draft, dates an undated row, and sets the flag. */
  function ImportOver(c: LifecycleColumns, recommended: bool, now: int): LifecycleColumns {
    c.(status := if c.status == Draft then Published else c.status,
    recommended := recommended,
    publishedAt := if c.publishedAt.None? then Some(now) else c.publishedAt)
  }

  function ImportNew(recommended: bool, now: int): LifecycleColumns {
    LifecycleColumns(Published, 1, recommended, Some(now))
  }

  lemma AllowedMeans(s: Status, permissions: set<Action>, a: Action)
    ensures a in BuildAllowedActions(s, permissions) <==> a in StatusActions(s) && a in permissions
  {
    hide StatusActions;
    Sorting.FilterMembers(x => x in StatusActions(s) * permissions, ACTIONS);
    assert ACTIONS[0] == Edit && ACTIONS[1] == Publish && ACTIONS[2] == Unpublish && ACTIONS[3] == Archive
           && ACTIONS[4] == Unarchive && ACTIONS[5] == Delete && ACTIONS[6] == Recommend;
  }

  /** A catalog may be edited until it is archived, and only a draft may be deleted. */
  lemma EditAndDeleteAreOffered(s: Status, permissions: set<Action>)
    ensures Edit in BuildAllowedActions(s, permissions) <==> Edit in permissions && s != Archived
    ensures Delete in BuildAllowedActions(s, permissions) <==> Delete in permissions && s == Draft
  {
    AllowedMeans(s, permissions, Edit);
    AllowedMeans(s, permissions, Delete);
    hide BuildAllowedActions;
  }

  /** The actions offered are exactly those the write would accept from someone who has seen the row. */
  lemma OfferedMeansAccepted(c: LifecycleColumns, permissions: set<Action>, a: Action, flag: bool, now: int)
    ensures IsTransition(a) ==>
              (a in BuildAllowedActions(c.status, permissions) <==>
               a in permissions && Decide(c, TransitionRequest(a, c.version), now).Ok?)
    ensures Recommend in BuildAllowedActions(c.status, permissions) <==>
            Recommend in permissions && Decide(c, RecommendRequest(flag, c.version), now).Ok?
  {
    hide BuildAllowedActions;
    AllowedMeans(c.status, permissions, a);
    AllowedMeans(c.status, permissions, Recommend);
  }

  /** Taking the returned undo action at once restores the previous status, two versions later. */
  lemma UndoRestoresStatus(c: LifecycleColumns, a: Action, now: int, later: int)
    requires Decide(c, TransitionRequest(a, c.version), now).Ok? && UndoAction(c.status, a).Some?
    ensures var moved := Decide(c, TransitionRequest(a, c.version), now).value;
            var undone := Decide(moved, TransitionRequest(UndoAction(c.status, a).value, moved.version), later);
            && undone.Ok? && undone.value.status == c.status && undone.value.version == c.version + 2
            && undone.value.recommended == c.recommended
  {
  }

  // ---- Serial runs of admin writes and imports on one catalog ----------------------------------------

  datatype Event = Admin(request: Request, now: int) | Import(recommended: bool, now: int)

  function Apply(row: Option<LifecycleColumns>, e: Event): Option<LifecycleColumns> {
    match (row, e)
    case (None, Import(recommended, now)) => Some(ImportNew(recommended, now))
    case (None, Admin(_, _)) => None
    case (Some(c), Import(recommended, now)) => Some(ImportOver(c, recommended, now))
    case (Some(c), Admin(r, now)) => if Decide(c, r, now).Ok? then Some(Decide(c, r, now).value) else Some(c)
  }

  ghost predicate IsHistory(rows: seq<Option<LifecycleColumns>>, events: seq<Event>) {
    |rows| == |events| + 1 && forall i :: 0 <= i < |events| ==> rows[i + 1] == Apply(rows[i], events[i])
  }

  predicate HasStatus(row: Option<LifecycleColumns>, s: Status) {
    row.Some? && row.value.status == s
  }

  /** A row that has left draft carries a publication date. */
  predicate IsDated(row: Option<LifecycleColumns>) {
    row.Some? && row.value.status != Draft ==> row.value.publishedAt.Some?
  }

  lemma StepRules(row: Option<LifecycleColumns>, e: Event)
    ensures IsDated(row) ==> IsDated(Apply(row, e))
    ensures row.Some? ==> Apply(row, e).Some?
    ensures row.Some? && row.value.status != Draft ==> Apply(row, e).value.status != Draft
    ensures HasStatus(row, Archived) ==> HasStatus(Apply(row, e), Archived) || HasStatus(Apply(row, e), Unpublished)
    ensures e.Import? && row.Some? && Apply(row, e).value.status != row.value.status ==>
              HasStatus(row, Draft) && HasStatus(Apply(row, e), Published)
    ensures e.Import? && row.Some? ==> Apply(row, e).value.version == row.value.version
  {
  }

  lemma {:induction false} EveryRowIsDated(rows: seq<Option<LifecycleColumns>>, events: seq<Event>, i: nat)
    requires IsHistory(rows, events) && i < |rows| && IsDated(rows[0])
    ensures IsDated(rows[i])
  {
    if i > 0 {
      EveryRowIsDated(rows, events, i - 1);
      StepRules(rows[i - 1], events[i - 1]);
    }
  }

  lemma {:induction false} NoRowReturnsToDraft(rows: seq<Option<LifecycleColumns>>, events: seq<Event>, i: nat, j: nat)
    requires IsHistory(rows, events) && i <= j < |rows|
    requires rows[i].Some? && rows[i].value.status != Draft
    ensures rows[j].Some? && rows[j].value.status != Draft
  {
    if i < j {
      NoRowReturnsToDraft(rows, events, i, j - 1);
      StepRules(rows[j - 1], events[j - 1]);
    }
  }

  /** An archived catalog becomes published only after a step that left it unpublished. */
  lemma {:induction false} ArchivedGoesThroughUnpublished(
    rows: seq<Option<LifecycleColumns>>, events: seq<Event>, i: nat, j: nat) returns (k: nat)
    requires IsHistory(rows, events) && i < j < |rows|
    requires HasStatus(rows[i], Archived) && HasStatus(rows[j], Published)
    ensures i < k < j && HasStatus(rows[k], Unpublished)
    decreases j - i
  {
    StepRules(rows[i], events[i]);
    k := i + 1;
    if !HasStatus(rows[k], Unpublished) {
      k := ArchivedGoesThroughUnpublished(rows, events, i + 1, j);
    }
  }
}
