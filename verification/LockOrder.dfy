/**
 Deadlock freedom of `refresh_catalog_search`: the lock statement takes the rows of its ids ORDER BY id, so
 any number of transactions that each make one call, over any id sets, run to the end whatever the schedule.
 */
module LockOrder {
  import opened Lifecycle

  /** One transaction making one call: the ids it locks in the order it locks them, how many it holds,
      and how many of delete, upsert and commit are still to run. */
  datatype Caller = Caller(order: seq<CatalogId>, taken: nat, left: nat)

  const STATEMENTS_AFTER_LOCKING := 3

  predicate Ascending(ids: seq<CatalogId>) {
    forall i, j :: 0 <= i < j < |ids| ==> ids[i] < ids[j]
  }

  predicate Finished(c: Caller) {
    c.taken == |c.order| && c.left == 0
  }

  ghost predicate Holds(c: Caller, x: CatalogId) {
    !Finished(c) && exists k :: 0 <= k < c.taken && k < |c.order| && c.order[k] == x
  }

  ghost predicate CanStep(s: seq<Caller>, i: nat) {
    && i < |s| && !Finished(s[i]) && s[i].taken <= |s[i].order|
    && (s[i].taken < |s[i].order| ==> forall j :: 0 <= j < |s| && j != i ==> !Holds(s[j], s[i].order[s[i].taken]))
  }

  ghost function Step(s: seq<Caller>, i: nat): seq<Caller>
    requires CanStep(s, i)
  {
    var c := s[i];
    s[i := if c.taken < |c.order| then c.(taken := c.taken + 1) else c.(left := c.left - 1)]
  }

  /** The callers before any of them has locked a row. */
  predicate AtStart(s: seq<Caller>) {
    forall c :: c in s ==> c.taken == 0 && c.left == STATEMENTS_AFTER_LOCKING
  }

  /** A schedule names who steps next; `t` is where it leads. */
  ghost predicate Runs(s: seq<Caller>, schedule: seq<nat>, t: seq<Caller>)
    decreases |schedule|
  {
    if schedule == [] then s == t
    else CanStep(s, schedule[0]) && Runs(Step(s, schedule[0]), schedule[1..], t)
  }

  predicate WellFormed(s: seq<Caller>) {
    forall c :: c in s ==> c.taken <= |c.order| && (c.taken < |c.order| ==> c.left == STATEMENTS_AFTER_LOCKING)
  }

  function StepsLeft(s: seq<Caller>): int {
    if s == [] then 0 else |s[0].order| - s[0].taken + s[0].left + StepsLeft(s[1..])
  }

  lemma {:induction false} StepTakesOne(s: seq<Caller>, i: nat, c: Caller)
    requires i < |s| && c.order == s[i].order && c.left - c.taken + 1 == s[i].left - s[i].taken
    ensures StepsLeft(s[i := c]) == StepsLeft(s) - 1
  {
    if i > 0 {
      StepTakesOne(s[1..], i - 1, c);
      assert s[i := c][1..] == s[1..][i - 1 := c];
    }
  }

  lemma StepKeepsWellFormed(s: seq<Caller>, i: nat)
    requires WellFormed(s) && CanStep(s, i)
    ensures WellFormed(Step(s, i)) && StepsLeft(Step(s, i)) == StepsLeft(s) - 1
    ensures |Step(s, i)| == |s| && forall k :: 0 <= k < |s| ==> Step(s, i)[k].order == s[k].order
  {
    StepTakesOne(s, i, Step(s, i)[i]);
  }

  lemma {:induction false} DoneMeansNoStepsLeft(s: seq<Caller>)
    requires WellFormed(s)
    ensures StepsLeft(s) >= 0
    ensures StepsLeft(s) == 0 <==> forall c :: c in s ==> Finished(c)
  {
    if s != [] {
      assert s == [s[0]] + s[1..] && s[0] in s;
      assert forall c :: c in s[1..] ==> c in s;
      DoneMeansNoStepsLeft(s[1..]);
      var own := |s[0].order| - s[0].taken + s[0].left;
      assert StepsLeft(s) == own + StepsLeft(s[1..]);
      assert own == 0 <==> Finished(s[0]);
    }
  }

  /** Whoever blocks a caller waits, if at all, for a larger id: so the chain of waits ends at someone who
      can step. */
  lemma {:induction false} FollowTheWaits(s: seq<Caller>, i: nat, bound: nat) returns (free: nat)
    requires WellFormed(s) && i < |s| && !Finished(s[i])
    requires forall c :: c in s ==> Ascending(c.order) && forall x :: x in c.order ==> x < bound
    ensures CanStep(s, free)
    decreases if s[i].taken < |s[i].order| then bound - s[i].order[s[i].taken] else 0
  {
    if CanStep(s, i) { return i; }
    assert s[i] in s;
    var x := s[i].order[s[i].taken];
    assert x in s[i].order;
    var j :| 0 <= j < |s| && j != i && Holds(s[j], x);
    if CanStep(s, j) { return j; }
    assert s[j] in s && s[j].order[s[j].taken] in s[j].order;
    free := FollowTheWaits(s, j, bound);
  }

  lemma {:induction false} IdsAreBounded(s: seq<Caller>) returns (bound: nat)
    ensures forall c, x :: c in s && x in c.order ==> x < bound
  {
    if s == [] { return 0; }
    var rest := IdsAreBounded(s[1..]);
    var own := OrderIsBounded(s[0].order);
    bound := rest + own;
    forall c, x | c in s && x in c.order ensures x < bound {
      assert c == s[0] || c in s[1..];
    }
  }

  lemma OrderIsBounded(ids: seq<CatalogId>) returns (bound: nat)
    ensures forall x :: x in ids ==> x < bound
  {
    bound := 0;
    for i := 0 to |ids|
      invariant forall k :: 0 <= k < i ==> ids[k] < bound
    {
      bound := bound + ids[i] + 1;
    }
  }

  lemma {:induction false} RunsKeepWellFormed(s: seq<Caller>, schedule: seq<nat>, t: seq<Caller>)
    requires WellFormed(s) && Runs(s, schedule, t)
    ensures WellFormed(t) && StepsLeft(t) == StepsLeft(s) - |schedule|
    ensures |t| == |s| && forall k :: 0 <= k < |s| ==> t[k].order == s[k].order
    decreases |schedule|
  {
    if schedule != [] {
      StepKeepsWellFormed(s, schedule[0]);
      RunsKeepWellFormed(Step(s, schedule[0]), schedule[1..], t);
    }
  }

  /** From every reachable state with someone unfinished, someone can step; every run has at most one step
      per lock and statement; and a run that cannot go on has finished every caller. */
  lemma EveryScheduleFinishes(s: seq<Caller>, schedule: seq<nat>, t: seq<Caller>)
    requires AtStart(s) && (forall c :: c in s ==> Ascending(c.order)) && Runs(s, schedule, t)
    ensures |schedule| <= StepsLeft(s)
    ensures (forall i :: !CanStep(t, i)) <==> (forall c :: c in t ==> Finished(c))
    ensures (forall i :: !CanStep(t, i)) <==> |schedule| == StepsLeft(s)
  {
    RunsKeepWellFormed(s, schedule, t);
    DoneMeansNoStepsLeft(t);
    var bound := IdsAreBounded(t);
    if c :| c in t && !Finished(c) {
      var i :| 0 <= i < |t| && t[i] == c;
      forall k | 0 <= k < |t| ensures Ascending(t[k].order) { assert t[k].order == s[k].order && s[k] in s; }
      var free := FollowTheWaits(t, i, bound);
    }
  }

  /** Locking in the callers' own order instead, two of them wait for each other for ever. */
  lemma WithoutOrderTwoCallersDeadlock() returns (s: seq<Caller>, t: seq<Caller>)
    ensures AtStart(s) && |s| == 2 && Runs(s, [0, 1], t)
    ensures (forall i :: !CanStep(t, i)) && !Finished(t[0]) && !Finished(t[1])
  {
    s := [Caller([1, 2], 0, 3), Caller([2, 1], 0, 3)];
    var mid := Step(s, 0);
    assert mid == [Caller([1, 2], 1, 3), Caller([2, 1], 0, 3)];
    t := [Caller([1, 2], 1, 3), Caller([2, 1], 1, 3)];
    assert CanStep(mid, 1) && Step(mid, 1) == t;
    assert [0, 1][1..] == [1] && [1][1..] == [];
    assert Runs(mid, [1], t);
    assert Holds(t[1], t[0].order[1]) by { assert t[1].order[0] == 2; }
    assert Holds(t[0], t[1].order[1]) by { assert t[0].order[0] == 1; }
  }
}
