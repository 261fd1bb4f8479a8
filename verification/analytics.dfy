/** Read-only analytics over the roster and the queue: team handle time,
    the distribution of agents over states, the leaderboard and the queue
    statistics of every provisioned source. Every report is a fold over the
    current state; averages are kept as (sum, count) pairs. */
module Analytics {
  import opened Wrappers
  import opened Employees
  import Queue
  import Sources

  // ---------------------------------------------------------------------
  // Team handle time

  /** `get_team_aht`: the handle time of every completed task, optionally
      of one source only; zero seconds over zero tasks when none match. */
  function TeamAht(r: Roster, source: Option<nat>): (a: Aht)
    ensures a.count <= |r.tasks|
    ensures a.count == 0 <==> forall i :: 0 <= i < |r.tasks| ==>
      !(r.tasks[i].completedAt.Some? && (source.None? || r.tasks[i].sourceId == source.value))
    ensures a.count == 0 ==> a.totalSeconds == 0
  {
    assert forall i :: 0 <= i < |r.tasks| ==> (Counts(r.tasks[i], None, source) <==>
      (r.tasks[i].completedAt.Some? && (source.None? || r.tasks[i].sourceId == source.value)));
    HandleTime(r.tasks, None, source)
  }

  function Plus(a: Aht, b: Aht): Aht {
    Aht(a.totalSeconds + b.totalSeconds, a.count + b.count)
  }

  /** The handle times of employees 0 .. n-1 added up. */
  function AgentsTotal(tasks: seq<TaskLog>, n: nat, source: Option<nat>): Aht {
    if n == 0 then Aht(0, 0)
    else Plus(AgentsTotal(tasks, n - 1, source), HandleTime(tasks, Some(n - 1), source))
  }

  /** One more task adds its duration to the one agent it belongs to. */
  lemma {:induction false} AgentsTotalAppend(tasks: seq<TaskLog>, x: TaskLog, n: nat, source: Option<nat>)
    ensures AgentsTotal(tasks + [x], n, source)
            == if Counts(x, None, source) && x.employeeId < n
               then Plus(AgentsTotal(tasks, n, source), Aht(Duration(x), 1))
               else AgentsTotal(tasks, n, source)
  {
    if n > 0 {
      AgentsTotalAppend(tasks, x, n - 1, source);
      HandleTimeSnoc(tasks, x, Some(n - 1), source);
      PlusBump(AgentsTotal(tasks, n - 1, source), HandleTime(tasks, Some(n - 1), source), x, n, source);
    }
  }

  /** The algebra of one more task across agents 0 .. n-2 and agent n-1. */
  lemma PlusBump(prev: Aht, h: Aht, x: TaskLog, n: nat, source: Option<nat>)
    requires n > 0
    ensures Plus(if Counts(x, None, source) && x.employeeId < n - 1 then Plus(prev, Aht(Duration(x), 1)) else prev,
                 Bump(h, x, Some(n - 1), source))
            == if Counts(x, None, source) && x.employeeId < n
               then Plus(Plus(prev, h), Aht(Duration(x), 1))
               else Plus(prev, h)
  {
  }

  /** The team figure is the sum of the agents' figures, as long as every
      task belongs to a known agent. */
  lemma {:induction false} TeamAhtIsSumOfAgents(tasks: seq<TaskLog>, n: nat, source: Option<nat>)
    requires forall t :: 0 <= t < |tasks| ==> tasks[t].employeeId < n
    ensures AgentsTotal(tasks, n, source) == HandleTime(tasks, None, source)
    decreases |tasks|
  {
    if tasks == [] {
      AgentsTotalEmpty(n, source);
    } else {
      var k := |tasks| - 1;
      assert tasks == tasks[..k] + [tasks[k]];
      TeamAhtIsSumOfAgents(tasks[..k], n, source);
      AgentsTotalAppend(tasks[..k], tasks[k], n, source);
    }
  }

  lemma {:induction false} AgentsTotalEmpty(n: nat, source: Option<nat>)
    ensures AgentsTotal([], n, source) == Aht(0, 0)
  {
    if n > 0 {
      AgentsTotalEmpty(n - 1, source);
    }
  }

  /** In a valid roster the team handle time is the sum over the agents. */
  lemma TeamAhtAddsUp(r: Roster, source: Option<nat>)
    requires Valid(r)
    ensures TeamAht(r, source) == AgentsTotal(r.tasks, |r.employees|, source)
  {
    TeamAhtIsSumOfAgents(r.tasks, |r.employees|, source);
  }

  // ---------------------------------------------------------------------
  // State distribution

  datatype Distribution = Distribution(available: nat, inTask: nat, onBreak: nat, wrapUp: nat, total: nat)

  /** Number of employees currently in `s`. */
  function InState(es: seq<Employee>, s: State): (r: nat)
    ensures r <= |es|
    ensures r == 0 <==> forall k :: 0 <= k < |es| ==> es[k].currentState != s
  {
    if es == [] then 0
    else (if es[0].currentState == s then 1 else 0) + InState(es[1..], s)
  }

  /** The `GROUP BY current_state` tally, every state starting at zero. */
  function Tally(es: seq<Employee>): (d: Distribution)
    ensures d.available == InState(es, Available) && d.inTask == InState(es, InTask)
    ensures d.onBreak == InState(es, Break) && d.wrapUp == InState(es, WrapUp)
    ensures d.available + d.inTask + d.onBreak + d.wrapUp == |es|
  {
    if es == [] then Distribution(0, 0, 0, 0, 0)
    else
      var d := Tally(es[1..]);
      match es[0].currentState
      case Available => d.(available := d.available + 1)
      case InTask => d.(inTask := d.inTask + 1)
      case Break => d.(onBreak := d.onBreak + 1)
      case WrapUp => d.(wrapUp := d.wrapUp + 1)
  }

  /** `get_agent_state_distribution`: every state present, zero when nobody
      is in it, and a total equal to the number of employees. */
  function StateDistribution(r: Roster): (d: Distribution)
    ensures d.available == InState(r.employees, Available) && d.inTask == InState(r.employees, InTask)
    ensures d.onBreak == InState(r.employees, Break) && d.wrapUp == InState(r.employees, WrapUp)
    ensures d.total == d.available + d.inTask + d.onBreak + d.wrapUp == |r.employees|
  {
    var d := Tally(r.employees);
    d.(total := d.available + d.inTask + d.onBreak + d.wrapUp)
  }

  /** A state change moves one agent from its old state to the new one and
      keeps the total. */
  lemma {:induction false} InStateUpdate(es: seq<Employee>, k: nat, x: Employee, s: State)
    requires k < |es|
    ensures InState(es[k := x], s) == InState(es, s) - (if es[k].currentState == s then 1 else 0)
                                                     + (if x.currentState == s then 1 else 0)
    decreases |es|
  {
    if k == 0 {
      assert es[k := x][1..] == es[1..];
    } else {
      assert es[k := x][1..] == es[1..][k - 1 := x];
      InStateUpdate(es[1..], k - 1, x, s);
    }
  }

  lemma ChangeStateShiftsDistribution(r: Roster, e: nat, s: State, now: nat)
    requires ChangeState(r, e, s, now).Ok?
    ensures var before, after := StateDistribution(r), StateDistribution(ChangeState(r, e, s, now).value);
      && after.total == before.total
      && InState(ChangeState(r, e, s, now).value.employees, s) >= 1
      && forall t :: InState(ChangeState(r, e, s, now).value.employees, t)
                     == InState(r.employees, t) - (if r.employees[e].currentState == t then 1 else 0)
                                                + (if s == t then 1 else 0)
  {
    var out := ChangeState(r, e, s, now).value;
    assert out.employees == r.employees[e := out.employees[e]];
    forall t ensures InState(out.employees, t) == InState(r.employees, t) - (if r.employees[e].currentState == t then 1 else 0)
                                                                       + (if s == t then 1 else 0)
    {
      InStateUpdate(r.employees, e, out.employees[e], t);
    }
  }

  // ---------------------------------------------------------------------
  // Leaderboard

  /** One leaderboard row: an agent with the handle time of its completed tasks. */
  datatype Row = Row(employeeId: nat, name: string, state: State, handleTime: Aht)

  predicate Ranked(rows: seq<Row>) {
    forall i, j :: 0 <= i < j < |rows| ==> rows[i].handleTime.count >= rows[j].handleTime.count
  }

  predicate DistinctAgents(rows: seq<Row>) {
    forall i, j :: 0 <= i < j < |rows| ==> rows[i].employeeId != rows[j].employeeId
  }

  /** Where `x` goes in a ranked sequence: after every row with at least its count. */
  function InsertPos(x: Row, rows: seq<Row>): (p: nat)
    ensures p <= |rows|
    ensures forall i :: 0 <= i < p ==> rows[i].handleTime.count >= x.handleTime.count
    ensures p < |rows| ==> rows[p].handleTime.count < x.handleTime.count
  {
    if rows == [] || rows[0].handleTime.count < x.handleTime.count then 0
    else 1 + InsertPos(x, rows[1..])
  }

  function Insert(x: Row, rows: seq<Row>): (r: seq<Row>)
    requires Ranked(rows)
    ensures Ranked(r)
    ensures multiset(r) == multiset(rows) + multiset{x}
    ensures |r| == |rows| + 1
  {
    var p := InsertPos(x, rows);
    assert rows == rows[..p] + rows[p..];
    InsertRanked(x, rows, p);
    rows[..p] + [x] + rows[p..]
  }

  lemma InsertRanked(x: Row, rows: seq<Row>, p: nat)
    requires Ranked(rows) && p <= |rows|
    requires forall i :: 0 <= i < p ==> rows[i].handleTime.count >= x.handleTime.count
    requires p < |rows| ==> rows[p].handleTime.count < x.handleTime.count
    ensures Ranked(rows[..p] + [x] + rows[p..])
  {
    var r := rows[..p] + [x] + rows[p..];
    forall i, j | 0 <= i < j < |r|
      ensures r[i].handleTime.count >= r[j].handleTime.count
    {
      if j < p {
        assert r[i] == rows[i] && r[j] == rows[j];
      } else if j == p {
        assert r[i] == rows[i] && r[j] == x;
      } else if i == p {
        assert r[i] == x && r[j] == rows[j - 1];
        assert rows[p].handleTime.count >= rows[j - 1].handleTime.count || p == j - 1;
      } else {
        assert r[j] == rows[j - 1];
        assert r[i] == (if i < p then rows[i] else rows[i - 1]);
      }
    }
  }

  /** `ORDER BY count(task) DESC`: a ranking of the rows (ties in any order). */
  function Rank(rows: seq<Row>): (r: seq<Row>)
    ensures Ranked(r)
    ensures multiset(r) == multiset(rows)
    ensures |r| == |rows|
  {
    if rows == [] then []
    else
      var rest := Rank(rows[1..]);
      assert rows == [rows[0]] + rows[1..];
      Insert(rows[0], rest)
  }

  lemma {:induction false} RankKeepsDistinct(rows: seq<Row>)
    requires DistinctAgents(rows)
    ensures DistinctAgents(Rank(rows))
    decreases |rows|
  {
    if rows != [] {
      var rest := Rank(rows[1..]);
      RankKeepsDistinct(rows[1..]);
      forall k | 0 <= k < |rest|
        ensures rest[k].employeeId != rows[0].employeeId
      {
        assert rest[k] in multiset(rest);
        assert rest[k] in rows[1..];
      }
      InsertKeepsDistinct(rows[0], rest);
    }
  }

  lemma InsertKeepsDistinct(x: Row, rows: seq<Row>)
    requires Ranked(rows) && DistinctAgents(rows)
    requires forall k :: 0 <= k < |rows| ==> rows[k].employeeId != x.employeeId
    ensures DistinctAgents(Insert(x, rows))
  {
    DistinctSplice(rows, x, InsertPos(x, rows));
  }

  lemma DistinctSplice(rows: seq<Row>, x: Row, p: nat)
    requires p <= |rows| && DistinctAgents(rows)
    requires forall k :: 0 <= k < |rows| ==> rows[k].employeeId != x.employeeId
    ensures DistinctAgents(rows[..p] + [x] + rows[p..])
  {
    var r := rows[..p] + [x] + rows[p..];
    forall i, j | 0 <= i < j < |r|
      ensures r[i].employeeId != r[j].employeeId
    {
      if j < p {
        assert r[i] == rows[i] && r[j] == rows[j];
      } else if j == p {
        assert r[i] == rows[i] && r[j] == x;
      } else if i < p {
        assert r[i] == rows[i] && r[j] == rows[j - 1];
      } else if i == p {
        assert r[i] == x && r[j] == rows[j - 1];
      } else {
        assert r[i] == rows[i - 1] && r[j] == rows[j - 1];
      }
    }
  }

  /** The row of employee `e`. */
  function AgentRow(r: Roster, e: nat, source: Option<nat>): Row
    requires e < |r.employees|
  {
    Row(e, r.employees[e].name, r.employees[e].currentState, HandleTime(r.tasks, Some(e), source))
  }

  /** Employee `e` survives the outer join and the optional source filter. */
  predicate Joined(r: Roster, e: nat, source: Option<nat>)
    requires e < |r.employees|
  {
    source.None? || HandleTime(r.tasks, Some(e), source).count > 0
  }

  /** The rows the outer join yields for employees 0 .. n-1: every employee
      without a source filter; with one, only employees with a completed
      task in it. */
  function JoinedRows(r: Roster, source: Option<nat>, n: nat): (rows: seq<Row>)
    requires n <= |r.employees|
    ensures forall k :: 0 <= k < |rows| ==> rows[k].employeeId < n && rows[k] == AgentRow(r, rows[k].employeeId, source)
    ensures forall e :: 0 <= e < n ==> (AgentRow(r, e, source) in rows <==> Joined(r, e, source))
    ensures source.None? ==> |rows| == n
    ensures DistinctAgents(rows)
  {
    if n == 0 then []
    else
      var rest := JoinedRows(r, source, n - 1);
      if Joined(r, n - 1, source) then
        JoinedAppend(r, source, n, rest);
        rest + [AgentRow(r, n - 1, source)]
      else
        rest
  }

  /** The join's step for an employee who survives it. */
  lemma JoinedAppend(r: Roster, source: Option<nat>, n: nat, rest: seq<Row>)
    requires 0 < n <= |r.employees| && Joined(r, n - 1, source)
    requires forall k :: 0 <= k < |rest| ==> rest[k].employeeId < n - 1 && rest[k] == AgentRow(r, rest[k].employeeId, source)
    requires forall e :: 0 <= e < n - 1 ==> (AgentRow(r, e, source) in rest <==> Joined(r, e, source))
    requires DistinctAgents(rest)
    ensures var rows := rest + [AgentRow(r, n - 1, source)];
      && (forall k :: 0 <= k < |rows| ==> rows[k].employeeId < n && rows[k] == AgentRow(r, rows[k].employeeId, source))
      && (forall e :: 0 <= e < n ==> (AgentRow(r, e, source) in rows <==> Joined(r, e, source)))
      && DistinctAgents(rows)
  {
    var row := AgentRow(r, n - 1, source);
    var rows := rest + [row];
    assert forall k :: 0 <= k < |rest| ==> rows[k] == rest[k];
    assert rows[|rest|] == row;
    forall e | 0 <= e < n
      ensures AgentRow(r, e, source) in rows <==> Joined(r, e, source)
    {
      if e < n - 1 {
        assert AgentRow(r, e, source) != row;
      }
    }
  }

  lemma SameElements(a: seq<Row>, b: seq<Row>)
    requires multiset(a) == multiset(b)
    ensures forall y :: y in a <==> y in b
  {
    forall y ensures y in a <==> y in b {
      assert y in a <==> y in multiset(a);
      assert y in b <==> y in multiset(b);
    }
  }

  /** `get_leaderboard`: agents ranked by completed-task count, highest
      first, each at most once. Without a source filter every employee has
      a row (zero tasks and zero seconds when idle); with one, exactly the
      employees with a completed task in that source have a row. Each row
      carries the agent's name, current state and handle time as `get_aht`
      reports it. */
  function Leaderboard(r: Roster, source: Option<nat>): (rows: seq<Row>)
    ensures Ranked(rows)
    ensures DistinctAgents(rows)
    ensures source.None? ==> |rows| == |r.employees|
    ensures forall e :: 0 <= e < |r.employees| ==>
      (AgentRow(r, e, source) in rows <==> source.None? || GetAht(r, e, source).value.count > 0)
    ensures forall k :: 0 <= k < |rows| ==>
      && rows[k].employeeId < |r.employees|
      && rows[k] == AgentRow(r, rows[k].employeeId, source)
      && GetAht(r, rows[k].employeeId, source) == Ok(rows[k].handleTime)
  {
    var joined := JoinedRows(r, source, |r.employees|);
    var rows := Rank(joined);
    RankKeepsDistinct(joined);
    SameElements(rows, joined);
    assert forall e :: 0 <= e < |r.employees| ==> GetAht(r, e, source) == Ok(AgentRow(r, e, source).handleTime);
    assert forall k :: 0 <= k < |rows| ==> rows[k] in joined;
    rows
  }

  // ---------------------------------------------------------------------
  // Queue statistics of every source

  datatype ProjectStats = ProjectStats(sourceId: nat, projectName: string, stats: Queue.QueueStats)

  /** The per-status tally the outer join and the dictionary build for one
      source: each entry bumps its status and the total. */
  function SourceTally(q: Queue.Store, src: nat): (c: Queue.QueueStats)
    ensures c.total == c.pendingCount + c.assignedCount + c.completedCount + c.skippedCount
  {
    if q == [] then Queue.NoEntries
    else
      var rest := SourceTally(q[1..], src);
      if q[0].sourceId == src then Queue.Bump(rest, q[0].status).(total := rest.total + 1) else rest
  }

  /** The tally agrees with `get_queue_stats` for the same source. */
  lemma {:induction false} SourceTallyIsStats(q: Queue.Store, src: nat)
    ensures SourceTally(q, src) == Queue.Stats(q, src)
    decreases |q|
  {
    if q != [] {
      SourceTallyIsStats(q[1..], src);
    }
  }

  /** `get_all_queue_stats`: one row per provisioned source, in registry
      order, sources without entries included with every count zero; each
      row's counts are those `get_queue_stats` reports for its source, so the
      total is the sum of the four counts and the number of entries. */
  function AllQueueStats(sources: seq<Sources.Source>, q: Queue.Store): (rows: seq<ProjectStats>)
    ensures |rows| == |sources|
    ensures forall i :: 0 <= i < |rows| ==>
      && rows[i].sourceId == sources[i].id && rows[i].projectName == sources[i].projectName
      && rows[i].stats.total == rows[i].stats.pendingCount + rows[i].stats.assignedCount
                                + rows[i].stats.completedCount + rows[i].stats.skippedCount
      && rows[i].stats.total == Queue.SourceSize(q, sources[i].id)
      && rows[i].stats.pendingCount == Queue.Depth(q, sources[i].id)
    ensures forall i :: 0 <= i < |rows| ==> rows[i].stats == Queue.Stats(q, sources[i].id)
  {
    assert forall i :: 0 <= i < |sources| ==> SourceTally(q, sources[i].id) == Queue.Stats(q, sources[i].id) by {
      forall i | 0 <= i < |sources| {
        SourceTallyIsStats(q, sources[i].id);
      }
    }
    seq(|sources|, i requires 0 <= i < |sources| =>
      ProjectStats(sources[i].id, sources[i].projectName, SourceTally(q, sources[i].id)))
  }

  /** A source with no queue entries reports all zeros. */
  lemma EmptySourceReportsZeros(sources: seq<Sources.Source>, q: Queue.Store, i: nat)
    requires i < |sources| && forall j :: 0 <= j < |q| ==> q[j].sourceId != sources[i].id
    ensures AllQueueStats(sources, q)[i].stats == Queue.NoEntries
  {
    var src := sources[i].id;
    SourceTallyIsStats(q, src);
    NoEntriesOfSource(q, src);
  }

  lemma {:induction false} NoEntriesOfSource(q: Queue.Store, src: nat)
    requires forall j :: 0 <= j < |q| ==> q[j].sourceId != src
    ensures SourceTally(q, src) == Queue.NoEntries
    decreases |q|
  {
    if q != [] {
      assert forall j :: 0 <= j < |q| - 1 ==> q[1..][j] == q[j + 1];
      NoEntriesOfSource(q[1..], src);
    }
  }
}
