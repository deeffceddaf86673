/** The refusal log of `/admin`: one line a minute for each kind of refusal, with a bounded table. */
module AdminLog {
  import opened Wrappers

  /** Times are in microseconds. */
  const WINDOW: int := 60_000_000
  const MAX_TRACKED: nat := 1000
  const MAX_USER_AGENT_LENGTH: nat := 120
  const SERVER_ERROR_FROM: int := 500

  /** Status, reason and user agent. */
  datatype Key = Key(status: int, reason: string, userAgent: string)

  /** When the last line was logged, and how many identical refusals were skipped since. */
  datatype Tracked = Tracked(loggedAt: int, skipped: nat)

  type Recent = map<Key, Tracked>

  /** What a request says of itself. */
  datatype Request = Request(verb: string, path: string, requestId: Option<string>, userAgent: Option<string>)

  datatype Severity = SevereError | Warning

  datatype Line = Line(
    severity: Severity, key: Key, verb: string, path: string, requestId: string, at: int, skippedSinceLastLine: nat)

  /** One refused request: whether the caller is an identified actor, what it is refused with, and the clock. */
  datatype Refusal = Refusal(identified: bool, status: int, reason: string, request: Request, now: int)

  function OrDash(text: Option<string>): string {
    if text.Some? then text.value else "-"
  }

  function KeyOf(r: Refusal): Key {
    var agent := OrDash(r.request.userAgent);
    Key(r.status, r.reason, if |agent| <= MAX_USER_AGENT_LENGTH then agent else agent[..MAX_USER_AGENT_LENGTH])
  }

  /** The line of a refusal, with the number of identical ones skipped before it. */
  function LineOf(r: Refusal, skipped: nat): Line {
    Line(if r.status >= SERVER_ERROR_FROM then SevereError else Warning, KeyOf(r), r.request.verb, r.request.path,
         OrDash(r.request.requestId), r.now, skipped)
  }

  datatype Log = Log(recent: Recent, lines: seq<Line>)

  const EMPTY_LOG := Log(map[], [])

  // ---- One refusal -----------------------------------------------------------------------------------

  predicate IsSkipped(recent: Recent, r: Refusal) {
    KeyOf(r) in recent && r.now - recent[KeyOf(r)].loggedAt < WINDOW
  }

  /** The table is emptied when it is full and a line is due. */
  predicate IsCleared(recent: Recent, r: Refusal) {
    !r.identified && !IsSkipped(recent, r) && |recent| >= MAX_TRACKED
  }

  function Refuse(l: Log, r: Refusal): Log {
    if r.identified then l
    else if IsSkipped(l.recent, r) then
      var t := l.recent[KeyOf(r)];
      l.(recent := l.recent[KeyOf(r) := Tracked(t.loggedAt, t.skipped + 1)])
    else
      var kept: Recent := if |l.recent| >= MAX_TRACKED then map[] else l.recent;
      var skipped := if KeyOf(r) in l.recent then l.recent[KeyOf(r)].skipped else 0;
      Log(kept[KeyOf(r) := Tracked(r.now, 0)], l.lines + [LineOf(r, skipped)])
  }

  class AdminLogger {
    var recent: Recent
    var lines: seq<Line>

    ghost function State(): Log
      reads this
    {
      Log(recent, lines)
    }

    constructor ()
      ensures State() == EMPTY_LOG
    {
      recent, lines := map[], [];
    }

    method LogAdminRefusal(r: Refusal)
      modifies this
      ensures State() == Refuse(old(State()), r)
    {
      if r.identified { return; }
      var key := KeyOf(r);
      var previous: Option<Tracked> := if key in recent then Some(recent[key]) else None;
      if previous.Some? && r.now - previous.value.loggedAt < WINDOW {
        recent := recent[key := Tracked(previous.value.loggedAt, previous.value.skipped + 1)];
        return;
      }
      if |recent| >= MAX_TRACKED { recent := map[]; }
      recent := recent[key := Tracked(r.now, 0)];
      lines := lines + [LineOf(r, if previous.Some? then previous.value.skipped else 0)];
    }
  }

  // ---- Runs ------------------------------------------------------------------------------------------

  /** The log before each refusal and after the last. */
  ghost predicate IsRun(refusals: seq<Refusal>, logs: seq<Log>) {
    && |logs| == |refusals| + 1 && logs[0] == EMPTY_LOG
    && forall i :: 0 <= i < |refusals| ==> logs[i + 1] == Refuse(logs[i], refusals[i])
  }

  /** The clock never goes back. */
  ghost predicate IsMonotonic(refusals: seq<Refusal>) {
    forall i, j :: 0 <= i <= j < |refusals| ==> refusals[i].now <= refusals[j].now
  }

  // ---- No refusal is lost unaccounted ----------------------------------------------------------------

  /** The skips the table still holds. */
  ghost function Pending(recent: Recent): nat
    decreases |recent|
  {
    if recent == map[] then 0
    else
      var k :| k in recent;
      recent[k].skipped + Pending(recent - {k})
  }

  lemma {:induction false} PendingWithout(recent: Recent, k: Key)
    requires k in recent
    ensures Pending(recent) == recent[k].skipped + Pending(recent - {k})
    decreases |recent|
  {
    var x :| x in recent && Pending(recent) == recent[x].skipped + Pending(recent - {x});
    if x != k {
      PendingWithout(recent - {x}, k);
      PendingWithout(recent - {k}, x);
      assert recent - {x} - {k} == recent - {k} - {x};
    }
  }

  lemma PendingAfterUpdate(recent: Recent, k: Key, t: Tracked)
    ensures Pending(recent[k := t]) == t.skipped + Pending(recent - {k})
  {
    PendingWithout(recent[k := t], k);
    assert recent[k := t] - {k} == recent - {k};
  }

  lemma PendingOfAbsent(recent: Recent, k: Key)
    requires k !in recent
    ensures Pending(recent - {k}) == Pending(recent)
  {
    assert recent - {k} == recent;
  }

  function Reported(lines: seq<Line>): nat {
    if lines == [] then 0 else Reported(lines[..|lines| - 1]) + lines[|lines| - 1].skippedSinceLastLine
  }

  ghost function Accounted(l: Log): nat {
    |l.lines| + Reported(l.lines) + Pending(l.recent)
  }

  /** The skips a clear throws away: all that is pending but what the line it makes room for reports. */
  ghost function DroppedBy(recent: Recent, r: Refusal): nat {
    if IsCleared(recent, r) then Pending(recent - {KeyOf(r)}) else 0
  }

  lemma RefusalIsAccounted(l: Log, r: Refusal)
    ensures Accounted(Refuse(l, r)) + DroppedBy(l.recent, r) == Accounted(l) + if r.identified then 0 else 1
  {
    var l' := Refuse(l, r);
    if !r.identified {
      if KeyOf(r) in l.recent { PendingWithout(l.recent, KeyOf(r)); } else { PendingOfAbsent(l.recent, KeyOf(r)); }
      if IsSkipped(l.recent, r) {
        PendingAfterUpdate(l.recent, KeyOf(r), l'.recent[KeyOf(r)]);
      } else {
        assert l'.lines[..|l.lines|] == l.lines;
        var kept: Recent := if |l.recent| >= MAX_TRACKED then map[] else l.recent;
        PendingAfterUpdate(kept, KeyOf(r), Tracked(r.now, 0));
        assert |l.recent| >= MAX_TRACKED ==> kept - {KeyOf(r)} == map[];
      }
    }
  }

  /** How many of the first `n` refusals came from callers that are not identified. */
  function Anonymous(refusals: seq<Refusal>, n: nat): nat
    requires n <= |refusals|
  {
    if n == 0 then 0 else Anonymous(refusals, n - 1) + if refusals[n - 1].identified then 0 else 1
  }

  ghost function Dropped(refusals: seq<Refusal>, logs: seq<Log>, n: nat): nat
    requires n <= |refusals| && n <= |logs|
  {
    if n == 0 then 0 else Dropped(refusals, logs, n - 1) + DroppedBy(logs[n - 1].recent, refusals[n - 1])
  }

  /** Over every run: refusals = lines logged + skips reported + skips pending + skips dropped by a clear. */
  lemma {:induction false} RefusalsAreConserved(refusals: seq<Refusal>, logs: seq<Log>, n: nat)
    requires IsRun(refusals, logs) && n <= |refusals|
    ensures Anonymous(refusals, n) ==
            |logs[n].lines| + Reported(logs[n].lines) + Pending(logs[n].recent) + Dropped(refusals, logs, n)
  {
    hide Refuse, DroppedBy;
    if n > 0 {
      RefusalsAreConserved(refusals, logs, n - 1);
      RefusalIsAccounted(logs[n - 1], refusals[n - 1]);
    }
  }

  /** The table never holds more than a thousand keys. */
  lemma {:induction false} TableIsBounded(refusals: seq<Refusal>, logs: seq<Log>, n: nat)
    requires IsRun(refusals, logs) && n <= |refusals|
    ensures |logs[n].recent| <= MAX_TRACKED
  {
    if n > 0 {
      TableIsBounded(refusals, logs, n - 1);
      var recent, r := logs[n - 1].recent, refusals[n - 1];
      if IsSkipped(recent, r) {
        KeysAfterUpdate(recent, KeyOf(r), logs[n].recent[KeyOf(r)]);
      } else {
        KeysAfterUpdate(if |recent| >= MAX_TRACKED then map[] else recent, KeyOf(r), Tracked(r.now, 0));
      }
    }
  }

  lemma KeysAfterUpdate(recent: Recent, k: Key, t: Tracked)
    ensures |recent[k := t]| == |recent| + if k in recent then 0 else 1
  {
  }

  // ---- One line a minute -----------------------------------------------------------------------------

  /** Refusal `i` of the run is logged as a line. */
  ghost predicate IsLogged(refusals: seq<Refusal>, logs: seq<Log>, i: nat)
    requires i < |refusals| && i < |logs|
  {
    !refusals[i].identified && !IsSkipped(logs[i].recent, refusals[i])
  }

  lemma LinesAreTheLoggedRefusals(refusals: seq<Refusal>, logs: seq<Log>, i: nat)
    requires IsRun(refusals, logs) && i < |refusals|
    ensures var key, recent := KeyOf(refusals[i]), logs[i].recent;
            var line := LineOf(refusals[i], if key in recent then recent[key].skipped else 0);
            logs[i + 1].lines == logs[i].lines + if IsLogged(refusals, logs, i) then [line] else []
  {
  }

  /** The lines grow by the one the refusal is due, or stay. */
  ghost predicate WritesALine(logs: seq<Log>, i: nat)
    requires i + 1 < |logs|
  {
    logs[i + 1].lines != logs[i].lines
  }

  /** The table was emptied to make room for the line of refusal `m`. */
  ghost predicate MakesRoom(logs: seq<Log>, m: nat)
    requires m + 1 < |logs|
  {
    WritesALine(logs, m) && |logs[m].recent| >= 1000
  }

  /** Within the last minute a line was written for the same status, reason and user agent, and not forgotten since. */
  ghost predicate HasFreshLine(refusals: seq<Refusal>, logs: seq<Log>, j: nat)
    requires |logs| == |refusals| + 1 && j < |refusals|
  {
    exists i :: 0 <= i < j && WritesALine(logs, i) && KeyOf(refusals[i]) == KeyOf(refusals[j])
                && refusals[j].now - refusals[i].now < 60_000_000 && forall m :: i < m < j ==> !MakesRoom(logs, m)
  }

  lemma LineMeansLogged(refusals: seq<Refusal>, logs: seq<Log>, i: nat)
    requires IsRun(refusals, logs) && i < |refusals|
    ensures WritesALine(logs, i) <==> IsLogged(refusals, logs, i)
    ensures MakesRoom(logs, i) <==> IsCleared(logs[i].recent, refusals[i])
  {
    LinesAreTheLoggedRefusals(refusals, logs, i);
    if IsLogged(refusals, logs, i) { assert |logs[i + 1].lines| == |logs[i].lines| + 1; }
  }

  /** A line in the table was written for its key at its time, and not forgotten since. */
  lemma {:induction false} TrackedHasALine(refusals: seq<Refusal>, logs: seq<Log>, n: nat, key: Key) returns (i: nat)
    requires IsRun(refusals, logs) && n <= |refusals| && key in logs[n].recent
    ensures i < n && IsLogged(refusals, logs, i) && KeyOf(refusals[i]) == key
    ensures refusals[i].now == logs[n].recent[key].loggedAt
    ensures forall m :: i < m < n ==> !IsCleared(logs[m].recent, refusals[m])
  {
    assert logs[n] == Refuse(logs[n - 1], refusals[n - 1]);
    hide KeyOf;
    i := n - 1;
    if !(IsLogged(refusals, logs, n - 1) && KeyOf(refusals[n - 1]) == key) {
      i := TrackedHasALine(refusals, logs, n - 1, key);
    }
  }

  /** When a line is written: for a caller that is not identified, unless one was written for the same status, reason
      and user agent less than a minute before and the table still knows. */
  lemma LineIsDueExactlyWhen(refusals: seq<Refusal>, logs: seq<Log>, j: nat)
    requires IsRun(refusals, logs) && IsMonotonic(refusals) && j < |refusals|
    ensures WritesALine(logs, j) <==> !refusals[j].identified && !HasFreshLine(refusals, logs, j)
  {
    hide Refuse, KeyOf, WritesALine, MakesRoom, IsSkipped, IsCleared, HasFreshLine;
    LineMeansLogged(refusals, logs, j);
    if HasFreshLine(refusals, logs, j) { FreshLineSkips(refusals, logs, j); }
    if IsSkipped(logs[j].recent, refusals[j]) { SkipHasFreshLine(refusals, logs, j); }
  }

  lemma FreshLineSkips(refusals: seq<Refusal>, logs: seq<Log>, j: nat)
    requires IsRun(refusals, logs) && IsMonotonic(refusals) && j < |refusals| && HasFreshLine(refusals, logs, j)
    ensures IsSkipped(logs[j].recent, refusals[j])
  {
    hide Refuse, KeyOf, WritesALine, MakesRoom, IsCleared, IsMonotonic;
    var i :| 0 <= i < j && WritesALine(logs, i) && KeyOf(refusals[i]) == KeyOf(refusals[j])
      && refusals[j].now - refusals[i].now < 60_000_000 && forall m :: i < m < j ==> !MakesRoom(logs, m);
    LineMeansLogged(refusals, logs, i);
    forall m | i < m < j ensures !IsCleared(logs[m].recent, refusals[m]) { LineMeansLogged(refusals, logs, m); }
    LineIsRemembered(refusals, logs, i, j);
  }

  lemma SkipHasFreshLine(refusals: seq<Refusal>, logs: seq<Log>, j: nat)
    requires IsRun(refusals, logs) && j < |refusals| && IsSkipped(logs[j].recent, refusals[j])
    ensures HasFreshLine(refusals, logs, j)
  {
    hide Refuse, KeyOf, WritesALine, MakesRoom, IsCleared;
    var i := TrackedHasALine(refusals, logs, j, KeyOf(refusals[j]));
    LineMeansLogged(refusals, logs, i);
    forall m | i < m < j ensures !MakesRoom(logs, m) { LineMeansLogged(refusals, logs, m); }
  }

  /** The line of a refusal says what was refused, to whom, and as an error from status 500 on; a user agent longer
      than 120 characters is cut, and what is missing is a hyphen. */
  lemma LineSays(refusals: seq<Refusal>, logs: seq<Log>, j: nat)
    requires IsRun(refusals, logs) && j < |refusals| && WritesALine(logs, j)
    ensures |logs[j + 1].lines| == |logs[j].lines| + 1 && logs[j].lines <= logs[j + 1].lines
    ensures var r, line := refusals[j], logs[j + 1].lines[|logs[j].lines|];
            var agent := r.request.userAgent;
            && line.key.status == r.status && line.key.reason == r.reason && line.at == r.now
            && line.verb == r.request.verb && line.path == r.request.path
            && (line.severity == SevereError <==> r.status >= 500)
            && line.requestId == (if r.request.requestId.Some? then r.request.requestId.value else "-")
            && (agent.None? ==> line.key.userAgent == "-")
            && (agent.Some? ==>
                  && line.key.userAgent <= agent.value
                  && |line.key.userAgent| == if |agent.value| <= 120 then |agent.value| else 120)
  {
    LineMeansLogged(refusals, logs, j);
    LinesAreTheLoggedRefusals(refusals, logs, j);
  }

  /** How many of the refusals from `from` up to `end` have this key and an unidentified caller. */
  function CountOf(refusals: seq<Refusal>, key: Key, from: nat, end: nat): nat
    requires from <= end <= |refusals|
    decreases end
  {
    if from == end then 0
    else
      var one := if !refusals[end - 1].identified && KeyOf(refusals[end - 1]) == key then 1 else 0;
      CountOf(refusals, key, from, end - 1) + one
  }

  /** From a line on, until the next clear or the next line for its key, the table has the time of the line and the
      number of identical refusals since. */
  lemma {:induction false} SkipsAreCounted(refusals: seq<Refusal>, logs: seq<Log>, i: nat, n: nat)
    requires IsRun(refusals, logs) && i < n <= |refusals| && IsLogged(refusals, logs, i)
    requires forall m :: i < m < n ==> !IsCleared(logs[m].recent, refusals[m])
    requires forall m :: i < m < n && KeyOf(refusals[m]) == KeyOf(refusals[i]) ==> !IsLogged(refusals, logs, m)
    ensures KeyOf(refusals[i]) in logs[n].recent
    ensures var key := KeyOf(refusals[i]);
            logs[n].recent[key] == Tracked(refusals[i].now, CountOf(refusals, key, i + 1, n))
  {
    if n > i + 1 {
      SkipsAreCounted(refusals, logs, i, n - 1);
      assert !IsCleared(logs[n - 1].recent, refusals[n - 1]);
    }
  }

  /** A line reports exactly the identical refusals since the line before it, unless a clear came between. */
  lemma LineReportsTheSkips(refusals: seq<Refusal>, logs: seq<Log>, i: nat, j: nat)
    requires IsRun(refusals, logs) && i < j < |refusals| && KeyOf(refusals[i]) == KeyOf(refusals[j])
    requires IsLogged(refusals, logs, i) && IsLogged(refusals, logs, j)
    requires forall m :: i < m < j ==> !IsCleared(logs[m].recent, refusals[m])
    requires forall m :: i < m < j && KeyOf(refusals[m]) == KeyOf(refusals[i]) ==> !IsLogged(refusals, logs, m)
    ensures logs[j + 1].lines ==
            logs[j].lines + [LineOf(refusals[j], CountOf(refusals, KeyOf(refusals[j]), i + 1, j))]
  {
    SkipsAreCounted(refusals, logs, i, j);
  }

  /** From a line on, until a clear, the table has a time for its key no earlier than the line's. */
  lemma {:induction false} LineIsRemembered(refusals: seq<Refusal>, logs: seq<Log>, i: nat, n: nat)
    requires IsRun(refusals, logs) && IsMonotonic(refusals) && i < n <= |refusals| && IsLogged(refusals, logs, i)
    requires forall m :: i < m < n ==> !IsCleared(logs[m].recent, refusals[m])
    ensures KeyOf(refusals[i]) in logs[n].recent && logs[n].recent[KeyOf(refusals[i])].loggedAt >= refusals[i].now
  {
    if n > i + 1 {
      LineIsRemembered(refusals, logs, i, n - 1);
      assert !IsCleared(logs[n - 1].recent, refusals[n - 1]);
      assert refusals[i].now <= refusals[n - 1].now;
    }
  }

  /** Two lines for one key less than a minute apart mean that the table was cleared between them. */
  lemma LinesAreAMinuteApart(refusals: seq<Refusal>, logs: seq<Log>, i: nat, j: nat) returns (c: nat)
    requires IsRun(refusals, logs) && IsMonotonic(refusals) && i < j < |refusals|
    requires IsLogged(refusals, logs, i) && IsLogged(refusals, logs, j) && KeyOf(refusals[i]) == KeyOf(refusals[j])
    requires refusals[j].now - refusals[i].now < WINDOW
    ensures i < c < j && IsCleared(logs[c].recent, refusals[c])
  {
    if m :| i < m < j && IsCleared(logs[m].recent, refusals[m]) { return m; }
    LineIsRemembered(refusals, logs, i, j);
    assert false;
  }
}
