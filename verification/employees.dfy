/** The employee state engine and its task ledger. An employee is always in
    one of four states; every stay in a state is an interval in the state
    log, open while it has no exit time. Tasks are ledger rows that are
    started when assigned and stamped when completed. Employee and task ids
    are positions in their sequences; nothing is ever deleted. Each
    operation is one transaction, modelled as a pure transformer of the
    whole roster; the clock is the `now` argument. */
module Employees {
  import opened Wrappers

  datatype State = Available | InTask | Break | WrapUp

  datatype Employee = Employee(name: string, email: string, currentState: State, createdAt: nat)

  /** One stay of one employee in one state; open while `exitedAt` is None. */
  datatype StateLog = StateLog(employeeId: nat, state: State, enteredAt: nat, exitedAt: Option<nat>)

  /** One task: a record of a source worked by an employee. */
  datatype TaskLog = TaskLog(employeeId: nat, sourceId: nat, recordId: string, startedAt: nat, completedAt: Option<nat>)

  datatype Roster = Roster(employees: seq<Employee>, stateLogs: seq<StateLog>, tasks: seq<TaskLog>)

  /** `NullEmployeeId` is the NOT NULL violation of a state log inserted
      without its employee. */
  datatype Error = EmployeeNotFound(employeeId: nat) | TaskNotFound(taskId: nat) | DuplicateEmail(email: string) | NullEmployeeId

  // ---------------------------------------------------------------------
  // Open intervals

  /** Log `i` is an open interval of employee `e`. */
  predicate IsOpen(logs: seq<StateLog>, e: nat, i: int) {
    0 <= i < |logs| && logs[i].employeeId == e && logs[i].exitedAt.None?
  }

  /** Number of open intervals of employee `e`. */
  function OpenCount(logs: seq<StateLog>, e: nat): (r: nat)
    ensures r <= |logs|
    ensures r == 0 <==> forall i :: 0 <= i < |logs| ==> !IsOpen(logs, e, i)
  {
    if logs == [] then 0
    else
      var init := logs[..|logs| - 1];
      assert forall i :: 0 <= i < |init| ==> (IsOpen(init, e, i) <==> IsOpen(logs, e, i));
      OpenCount(init, e) + (if IsOpen(logs, e, |logs| - 1) then 1 else 0)
  }

  lemma OpenCountAppend(logs: seq<StateLog>, x: StateLog, e: nat)
    ensures OpenCount(logs + [x], e) == OpenCount(logs, e) + (if x.employeeId == e && x.exitedAt.None? then 1 else 0)
  {
    assert (logs + [x])[..|logs|] == logs;
  }

  /** Closing one open interval removes exactly that interval from its
      employee's open count and leaves every other employee's count alone. */
  lemma {:induction false} OpenCountClose(logs: seq<StateLog>, i: nat, now: nat, e: nat)
    requires i < |logs| && logs[i].exitedAt.None?
    ensures OpenCount(logs[i := logs[i].(exitedAt := Some(now))], e)
            == OpenCount(logs, e) - (if logs[i].employeeId == e then 1 else 0)
    decreases |logs|
  {
    var x := logs[i].(exitedAt := Some(now));
    var n := |logs| - 1;
    var init := logs[..n];
    SplitLast(logs);
    OpenCountAppend(init, logs[n], e);
    if i < n {
      UpdateBeforeLast(logs, i, x);
      OpenCountAppend(init[i := x], logs[n], e);
      OpenCountClose(init, i, now, e);
    } else {
      assert logs[i := x] == init + [x];
      OpenCountAppend(init, x, e);
    }
  }

  /** `ORDER BY entered_at DESC LIMIT 1` over the open intervals of `e`
      among the first `n` logs. */
  function LatestOpen(logs: seq<StateLog>, e: nat, n: nat): (r: Option<nat>)
    requires n <= |logs|
    ensures r.None? <==> forall i :: 0 <= i < n ==> !IsOpen(logs, e, i)
    ensures r.Some? ==> r.value < n && IsOpen(logs, e, r.value)
    ensures r.Some? ==> forall i :: 0 <= i < n && IsOpen(logs, e, i) ==> logs[i].enteredAt <= logs[r.value].enteredAt
  {
    if n == 0 then None
    else
      var prev := LatestOpen(logs, e, n - 1);
      if !IsOpen(logs, e, n - 1) then prev
      else if prev.None? || logs[prev.value].enteredAt < logs[n - 1].enteredAt then Some(n - 1)
      else prev
  }

  // ---------------------------------------------------------------------
  // The roster invariant

  /** Every log and task belongs to an existing employee, e-mail addresses
      are unique, and every employee has exactly one open interval, whose
      state is the employee's current state. */
  predicate Valid(r: Roster) {
    && (forall j :: 0 <= j < |r.stateLogs| ==> r.stateLogs[j].employeeId < |r.employees|)
    && (forall t :: 0 <= t < |r.tasks| ==> r.tasks[t].employeeId < |r.employees|)
    && (forall a, b :: 0 <= a < b < |r.employees| ==> r.employees[a].email != r.employees[b].email)
    && (forall e :: 0 <= e < |r.employees| ==> OpenCount(r.stateLogs, e) == 1)
    && (forall e, j :: 0 <= e < |r.employees| && 0 <= j < |r.stateLogs| && IsOpen(r.stateLogs, e, j) ==> r.stateLogs[j].state == r.employees[e].currentState)
  }

  // ---------------------------------------------------------------------
  // create_employee

  /** `create_employee` as the code evidently intends it: a new AVAILABLE
      employee, with one open AVAILABLE interval starting at `now`; a second
      employee with the same e-mail is refused by the unique constraint. As
      written the call always fails (`CreateEmployeeAsWritten`). */
  function CreateEmployee(r: Roster, name: string, email: string, now: nat): (out: Result<Roster, Error>)
    ensures out.Err? <==> exists k :: 0 <= k < |r.employees| && r.employees[k].email == email
    ensures out.Err? ==> out.error == DuplicateEmail(email)
    ensures out.Ok? ==> var e := |r.employees|;
      && |out.value.employees| == e + 1 && out.value.employees[..e] == r.employees
      && out.value.employees[e] == Employee(name, email, Available, now)
      && |out.value.stateLogs| == |r.stateLogs| + 1 && out.value.stateLogs[..|r.stateLogs|] == r.stateLogs
      && IsOpen(out.value.stateLogs, e, |r.stateLogs|) && out.value.stateLogs[|r.stateLogs|].state == Available
      && out.value.tasks == r.tasks
  {
    if exists k :: 0 <= k < |r.employees| && r.employees[k].email == email then Err(DuplicateEmail(email))
    else
      var e := |r.employees|;
      var logs := r.stateLogs + [StateLog(e, Available, now, None)];
      assert logs[..|r.stateLogs|] == r.stateLogs;
      Ok(Roster(r.employees + [Employee(name, email, Available, now)], logs, r.tasks))
  }

  /** A state-log row as the session holds it before the flush; its
      employee id is None until someone sets it. */
  datatype PendingLog = PendingLog(employeeId: Option<nat>, state: State, enteredAt: nat)

  /** The commit of a new employee and its first log: the employee row is
      inserted first, where the unique e-mail constraint may refuse it, and
      then the log row, where the NOT NULL constraint on `employee_id`
      refuses a missing id. Nothing is stored unless both inserts pass. */
  function FlushNewEmployee(r: Roster, emp: Employee, log: PendingLog): (out: Result<Roster, Error>)
    ensures out.Ok? <==> (forall k :: 0 <= k < |r.employees| ==> r.employees[k].email != emp.email) && log.employeeId.Some?
    ensures out.Err? && log.employeeId.Some? ==> out.error == DuplicateEmail(emp.email)
    ensures out.Err? && (forall k :: 0 <= k < |r.employees| ==> r.employees[k].email != emp.email) ==> out.error == NullEmployeeId
    ensures out.Ok? ==>
      && out.value.employees == r.employees + [emp]
      && out.value.stateLogs == r.stateLogs + [StateLog(log.employeeId.value, log.state, log.enteredAt, None)]
      && out.value.tasks == r.tasks
  {
    if exists k :: 0 <= k < |r.employees| && r.employees[k].email == emp.email then Err(DuplicateEmail(emp.email))
    else if log.employeeId.None? then Err(NullEmployeeId)
    else Ok(Roster(r.employees + [emp], r.stateLogs + [StateLog(log.employeeId.value, log.state, log.enteredAt, None)], r.tasks))
  }

  /** `create_employee` as written: the log is built from `emp.id`, which is
      still None, because the `uuid.uuid4` default is applied only when the
      session flushes. The commit therefore never succeeds. */
  function CreateEmployeeAsWritten(r: Roster, name: string, email: string, now: nat): (out: Result<Roster, Error>)
    ensures out.Err?
    ensures out.error == DuplicateEmail(email) <==> exists k :: 0 <= k < |r.employees| && r.employees[k].email == email
  {
    FlushNewEmployee(r, Employee(name, email, Available, now), PendingLog(None, Available, now))
  }

  /** The intended create is the same flush with the new employee's id set
      on the log before it. */
  lemma CreateEmployeeSetsTheId(r: Roster, name: string, email: string, now: nat)
    ensures CreateEmployee(r, name, email, now)
      == FlushNewEmployee(r, Employee(name, email, Available, now), PendingLog(Some(|r.employees|), Available, now))
  {
  }

  /** A fresh e-mail address is accepted by the intended create and refused
      by the code as written, whose log breaks the NOT NULL constraint. */
  lemma CreateEmployeeAsWrittenFails(r: Roster, name: string, email: string, now: nat)
    requires forall k :: 0 <= k < |r.employees| ==> r.employees[k].email != email
    ensures CreateEmployee(r, name, email, now).Ok?
    ensures CreateEmployeeAsWritten(r, name, email, now) == Err(NullEmployeeId)
  {
  }

  /** A created employee's interval is the only log that mentions it, and
      the roster invariant survives the insert. */
  lemma CreatePreservesValid(r: Roster, name: string, email: string, now: nat)
    requires Valid(r)
    ensures var out := CreateEmployee(r, name, email, now);
      out.Ok? ==>
        && Valid(out.value)
        && forall j :: 0 <= j < |out.value.stateLogs| && out.value.stateLogs[j].employeeId == |r.employees| ==> j == |r.stateLogs|
  {
    var out := CreateEmployee(r, name, email, now);
    if out.Ok? {
      var s := out.value;
      var e := |r.employees|;
      assert s.stateLogs == r.stateLogs + [StateLog(e, Available, now, None)];
      forall k | 0 <= k < |s.employees|
        ensures OpenCount(s.stateLogs, k) == 1
      {
        OpenCountAppend(r.stateLogs, StateLog(e, Available, now, None), k);
        if k == e {
          assert forall i :: 0 <= i < |r.stateLogs| ==> !IsOpen(r.stateLogs, k, i);
        }
      }
      forall k, j | 0 <= k < |s.employees| && IsOpen(s.stateLogs, k, j)
        ensures s.stateLogs[j].state == s.employees[k].currentState
      {
        if j < |r.stateLogs| {
          assert IsOpen(r.stateLogs, k, j);
        }
      }
    }
  }

  // ---------------------------------------------------------------------
  // change_state

  /** Log `j` of `e` is the latest-entered open interval and `after` holds
      it closed at `now`. */
  predicate ClosedLatest(before: seq<StateLog>, after: seq<StateLog>, e: nat, j: nat, now: nat)
    requires |before| <= |after|
  {
    IsOpen(before, e, j) && after[j] == before[j].(exitedAt := Some(now))
    && forall k :: 0 <= k < |before| && IsOpen(before, e, k) ==> before[k].enteredAt <= before[j].enteredAt
  }

  /** What a state change does: `e` is now in `s`; of its open intervals
      the latest-entered one, if any, closes at `now` and no other log
      changes; one fresh open interval in `s` starting at `now` is appended,
      even when `s` is the current state; employees other than `e` and all
      tasks are untouched. */
  predicate Transitioned(before: Roster, after: Roster, e: nat, s: State, now: nat)
    requires e < |before.employees|
  {
    && |after.employees| == |before.employees|
    && after.employees[e] == before.employees[e].(currentState := s)
    && (forall k :: 0 <= k < |before.employees| && k != e ==> after.employees[k] == before.employees[k])
    && |after.stateLogs| == |before.stateLogs| + 1
    && after.stateLogs[|before.stateLogs|] == StateLog(e, s, now, None)
    && (forall j :: 0 <= j < |before.stateLogs| ==>
          after.stateLogs[j] == before.stateLogs[j] || ClosedLatest(before.stateLogs, after.stateLogs, e, j, now))
    && OpenCount(after.stateLogs[..|before.stateLogs|], e)
       == (if OpenCount(before.stateLogs, e) == 0 then 0 else OpenCount(before.stateLogs, e) - 1)
    && after.tasks == before.tasks
  }

  /** The state change of a known employee. */
  function Transition(r: Roster, e: nat, s: State, now: nat): (out: Roster)
    requires e < |r.employees|
    ensures Transitioned(r, out, e, s, now)
  {
    var closed := (match LatestOpen(r.stateLogs, e, |r.stateLogs|)
      case None => r.stateLogs
      case Some(i) =>
        OpenCountClose(r.stateLogs, i, now, e);
        r.stateLogs[i := r.stateLogs[i].(exitedAt := Some(now))]);
    var logs := closed + [StateLog(e, s, now, None)];
    assert logs[..|r.stateLogs|] == closed;
    Roster(r.employees[e := r.employees[e].(currentState := s)], logs, r.tasks)
  }

  /** `change_state`: unknown employees are refused and nothing changes;
      otherwise the employee transitions as `Transitioned` describes. */
  function ChangeState(r: Roster, e: nat, s: State, now: nat): (out: Result<Roster, Error>)
    ensures out.Err? <==> e >= |r.employees|
    ensures out.Err? ==> out.error == EmployeeNotFound(e)
    ensures out.Ok? ==> Transitioned(r, out.value, e, s, now)
  {
    if e >= |r.employees| then Err(EmployeeNotFound(e)) else Ok(Transition(r, e, s, now))
  }

  /** A transition keeps the roster invariant, and afterwards the only open
      interval of `e` is the one just appended. */
  lemma TransitionPreservesValid(r: Roster, e: nat, s: State, now: nat)
    requires Valid(r) && e < |r.employees|
    ensures var out := Transition(r, e, s, now);
      && Valid(out)
      && IsOpen(out.stateLogs, e, |r.stateLogs|) && out.stateLogs[|r.stateLogs|].state == s
      && forall j :: IsOpen(out.stateLogs, e, j) ==> j == |r.stateLogs|
  {
    TransitionCounts(r, e, s, now);
    TransitionOnlyOpen(r, e, s, now);
    TransitionStates(r, e, s, now);
  }

  /** After a transition every employee still has exactly one open interval. */
  lemma TransitionCounts(r: Roster, e: nat, s: State, now: nat)
    requires Valid(r) && e < |r.employees|
    ensures var out := Transition(r, e, s, now);
      forall k :: 0 <= k < |out.employees| ==> OpenCount(out.stateLogs, k) == 1
  {
    var out := Transition(r, e, s, now);
    var n := |r.stateLogs|;
    var prefix := out.stateLogs[..n];
    assert out.stateLogs == prefix + [StateLog(e, s, now, None)];
    forall k | 0 <= k < |r.employees|
      ensures OpenCount(out.stateLogs, k) == 1
    {
      OpenCountAppend(prefix, StateLog(e, s, now, None), k);
      if k != e {
        OtherOpenUnchanged(r, out, e, s, now, k);
        OpenCountSame(r.stateLogs, prefix, k);
      }
    }
  }

  /** A transition of `e` changes no open interval of another employee. */
  lemma OtherOpenUnchanged(r: Roster, out: Roster, e: nat, s: State, now: nat, k: nat)
    requires e < |r.employees| && Transitioned(r, out, e, s, now) && k != e
    ensures forall j :: 0 <= j < |r.stateLogs| ==> (IsOpen(out.stateLogs[..|r.stateLogs|], k, j) <==> IsOpen(r.stateLogs, k, j))
  {
  }

  /** After a transition the appended interval is the only open one of `e`. */
  lemma TransitionOnlyOpen(r: Roster, e: nat, s: State, now: nat)
    requires Valid(r) && e < |r.employees|
    ensures var out := Transition(r, e, s, now);
      forall j :: IsOpen(out.stateLogs, e, j) ==> j == |r.stateLogs|
  {
    var out := Transition(r, e, s, now);
    var n := |r.stateLogs|;
    var prefix := out.stateLogs[..n];
    assert forall j :: 0 <= j < n ==> !IsOpen(prefix, e, j);
    assert forall j :: 0 <= j < n ==> (IsOpen(out.stateLogs, e, j) <==> IsOpen(prefix, e, j));
  }

  /** After a transition every open interval is in its employee's current state. */
  lemma TransitionStates(r: Roster, e: nat, s: State, now: nat)
    requires Valid(r) && e < |r.employees|
    ensures var out := Transition(r, e, s, now);
      forall k, j :: 0 <= k < |out.employees| && 0 <= j < |out.stateLogs| && IsOpen(out.stateLogs, k, j) ==>
        out.stateLogs[j].state == out.employees[k].currentState
  {
    var out := Transition(r, e, s, now);
    TransitionOnlyOpen(r, e, s, now);
    forall k, j | 0 <= k < |out.employees| && 0 <= j < |out.stateLogs| && IsOpen(out.stateLogs, k, j)
      ensures out.stateLogs[j].state == out.employees[k].currentState
    {
      if k != e {
        assert IsOpen(r.stateLogs, k, j);
      }
    }
  }

  /** Two logs with the same open intervals of `e` have the same open count. */
  lemma {:induction false} OpenCountSame(a: seq<StateLog>, b: seq<StateLog>, e: nat)
    requires |a| == |b|
    requires forall j :: 0 <= j < |a| ==> (IsOpen(a, e, j) <==> IsOpen(b, e, j))
    ensures OpenCount(a, e) == OpenCount(b, e)
    decreases |a|
  {
    if a != [] {
      var n := |a| - 1;
      assert forall j :: 0 <= j < n ==> (IsOpen(a[..n], e, j) <==> IsOpen(a, e, j));
      assert forall j :: 0 <= j < n ==> (IsOpen(b[..n], e, j) <==> IsOpen(b, e, j));
      OpenCountSame(a[..n], b[..n], e);
    }
  }

  lemma ChangeStatePreservesValid(r: Roster, e: nat, s: State, now: nat)
    requires Valid(r)
    ensures ChangeState(r, e, s, now).Ok? ==> Valid(ChangeState(r, e, s, now).value)
  {
    if e < |r.employees| {
      TransitionPreservesValid(r, e, s, now);
    }
  }

  // ---------------------------------------------------------------------
  // assign_task and complete_task

  /** `assign_task`: unknown employees are refused; otherwise a new open
      task (id = old number of tasks) is appended, and the employee moves to
      IN_TASK unless already there, in which case no interval is logged. */
  function AssignTask(r: Roster, e: nat, src: nat, recordId: string, now: nat): (out: Result<Roster, Error>)
    ensures out.Err? <==> e >= |r.employees|
    ensures out.Err? ==> out.error == EmployeeNotFound(e)
    ensures out.Ok? ==> var t := |r.tasks|;
      && |out.value.employees| == |r.employees|
      && |out.value.tasks| == t + 1 && out.value.tasks[..t] == r.tasks
      && out.value.tasks[t] == TaskLog(e, src, recordId, now, None)
      && out.value.employees[e].currentState == InTask
    ensures out.Ok? && r.employees[e].currentState == InTask ==>
      out.value.employees == r.employees && out.value.stateLogs == r.stateLogs
    ensures out.Ok? && r.employees[e].currentState != InTask ==>
      Transitioned(r.(tasks := out.value.tasks), out.value, e, InTask, now)
  {
    if e >= |r.employees| then Err(EmployeeNotFound(e))
    else
      var withTask := r.(tasks := r.tasks + [TaskLog(e, src, recordId, now, None)]);
      assert withTask.tasks[..|r.tasks|] == r.tasks;
      if r.employees[e].currentState != InTask then Ok(Transition(withTask, e, InTask, now))
      else Ok(withTask)
  }

  /** `complete_task`: unknown tasks are refused; otherwise the task is
      stamped completed at `now` (again, if it already was) and its employee
      moves to WRAP_UP whatever state it was in. An employee missing from
      the roster aborts the whole transaction. */
  function CompleteTask(r: Roster, t: nat, now: nat): (out: Result<Roster, Error>)
    ensures t >= |r.tasks| ==> out == Err(TaskNotFound(t))
    ensures t < |r.tasks| ==> (out.Err? <==> r.tasks[t].employeeId >= |r.employees|)
    ensures t < |r.tasks| && out.Err? ==> out.error == EmployeeNotFound(r.tasks[t].employeeId)
    ensures out.Ok? ==>
      && |out.value.tasks| == |r.tasks|
      && out.value.tasks[t] == r.tasks[t].(completedAt := Some(now))
      && (forall k :: 0 <= k < |r.tasks| && k != t ==> out.value.tasks[k] == r.tasks[k])
      && Transitioned(r.(tasks := out.value.tasks), out.value, r.tasks[t].employeeId, WrapUp, now)
  {
    if t >= |r.tasks| then Err(TaskNotFound(t))
    else
      var stamped := r.(tasks := r.tasks[t := r.tasks[t].(completedAt := Some(now))]);
      var e := r.tasks[t].employeeId;
      if e >= |r.employees| then Err(EmployeeNotFound(e))
      else Ok(Transition(stamped, e, WrapUp, now))
  }

  lemma AssignAndCompletePreserveValid(r: Roster, e: nat, src: nat, recordId: string, t: nat, now: nat)
    requires Valid(r)
    ensures AssignTask(r, e, src, recordId, now).Ok? ==> Valid(AssignTask(r, e, src, recordId, now).value)
    ensures CompleteTask(r, t, now).Ok? ==> Valid(CompleteTask(r, t, now).value)
  {
    if e < |r.employees| {
      var withTask := r.(tasks := r.tasks + [TaskLog(e, src, recordId, now, None)]);
      assert Valid(withTask);
      if r.employees[e].currentState != InTask {
        TransitionPreservesValid(withTask, e, InTask, now);
      }
    }
    if t < |r.tasks| {
      var stamped := r.(tasks := r.tasks[t := r.tasks[t].(completedAt := Some(now))]);
      assert Valid(stamped);
      TransitionPreservesValid(stamped, r.tasks[t].employeeId, WrapUp, now);
    }
  }

  /** In a valid roster completing a known task never fails. */
  lemma CompleteKnownTaskSucceeds(r: Roster, t: nat, now: nat)
    requires Valid(r) && t < |r.tasks|
    ensures CompleteTask(r, t, now).Ok?
  {
  }

  // ---------------------------------------------------------------------
  // Average handle time

  /** An average handle time as the sum of durations and their number. */
  datatype Aht = Aht(totalSeconds: int, count: nat)

  /** The task is completed and passes the optional employee and source filters. */
  predicate Counts(t: TaskLog, employee: Option<nat>, source: Option<nat>) {
    t.completedAt.Some?
    && (employee.None? || t.employeeId == employee.value)
    && (source.None? || t.sourceId == source.value)
  }

  function Duration(t: TaskLog): int
    requires t.completedAt.Some?
  {
    t.completedAt.value - t.startedAt
  }

  /** The `avg(completed_at - started_at)`, `count(id)` aggregate over the
      completed tasks that pass the filters. */
  function HandleTime(tasks: seq<TaskLog>, employee: Option<nat>, source: Option<nat>): (a: Aht)
    ensures a.count <= |tasks|
    ensures a.count == 0 <==> forall i :: 0 <= i < |tasks| ==> !Counts(tasks[i], employee, source)
    ensures a.count == 0 ==> a.totalSeconds == 0
  {
    if tasks == [] then Aht(0, 0)
    else
      var n := |tasks| - 1;
      var rest := HandleTime(tasks[..n], employee, source);
      assert forall i :: 0 <= i < n ==> tasks[..n][i] == tasks[i];
      if Counts(tasks[n], employee, source) then Aht(rest.totalSeconds + Duration(tasks[n]), rest.count + 1)
      else rest
  }

  /** `float(avg or 0)`: the mean in seconds, zero when nothing was counted. */
  function AverageSeconds(a: Aht): (r: real)
    ensures a.count == 0 ==> r == 0.0
    ensures a.count > 0 ==> r * a.count as real == a.totalSeconds as real
  {
    if a.count == 0 then 0.0 else a.totalSeconds as real / a.count as real
  }

  /** `get_aht`: unknown employees are refused; otherwise the handle time of
      that employee's completed tasks, optionally of one source only, and
      zero seconds over zero tasks when none match. */
  function GetAht(r: Roster, e: nat, source: Option<nat>): (out: Result<Aht, Error>)
    ensures out.Err? <==> e >= |r.employees|
    ensures out.Err? ==> out.error == EmployeeNotFound(e)
    ensures out.Ok? ==> out.value.count <= |r.tasks|
    ensures out.Ok? ==> (out.value.count == 0 <==>
      forall i :: 0 <= i < |r.tasks| ==> !(r.tasks[i].employeeId == e && r.tasks[i].completedAt.Some?
                                           && (source.None? || r.tasks[i].sourceId == source.value)))
    ensures out.Ok? && out.value.count == 0 ==> out.value.totalSeconds == 0
  {
    if e >= |r.employees| then Err(EmployeeNotFound(e))
    else
      var a := HandleTime(r.tasks, Some(e), source);
      assert forall i :: 0 <= i < |r.tasks| ==> (Counts(r.tasks[i], Some(e), source) <==>
        (r.tasks[i].employeeId == e && r.tasks[i].completedAt.Some? && (source.None? || r.tasks[i].sourceId == source.value)));
      Ok(a)
  }

  /** An open task contributes nothing to any handle time. */
  lemma HandleTimeIgnoresOpenTask(tasks: seq<TaskLog>, x: TaskLog, employee: Option<nat>, source: Option<nat>)
    requires x.completedAt.None?
    ensures HandleTime(tasks + [x], employee, source) == HandleTime(tasks, employee, source)
  {
    assert (tasks + [x])[..|tasks|] == tasks;
  }

  /** Completing an open task that passes the filters adds exactly its
      duration and one to the count; any other filter sees no change. */
  lemma HandleTimeComplete(tasks: seq<TaskLog>, t: nat, now: nat, employee: Option<nat>, source: Option<nat>)
    requires t < |tasks| && tasks[t].completedAt.None?
    ensures var done := tasks[t].(completedAt := Some(now));
      HandleTime(tasks[t := done], employee, source)
      == if Counts(done, employee, source)
         then Aht(HandleTime(tasks, employee, source).totalSeconds + (now - tasks[t].startedAt),
                  HandleTime(tasks, employee, source).count + 1)
         else HandleTime(tasks, employee, source)
  {
    CompleteBumps(tasks, t, tasks[t].(completedAt := Some(now)), employee, source);
  }

  /** `a` with task `x` counted when it passes the filters. */
  function Bump(a: Aht, x: TaskLog, employee: Option<nat>, source: Option<nat>): Aht {
    if Counts(x, employee, source) then Aht(a.totalSeconds + Duration(x), a.count + 1) else a
  }

  /** Completing task `t` as `done` counts it once more, if at all. */
  lemma {:induction false} CompleteBumps(tasks: seq<TaskLog>, t: nat, done: TaskLog, employee: Option<nat>, source: Option<nat>)
    requires t < |tasks| && !Counts(tasks[t], employee, source)
    ensures HandleTime(tasks[t := done], employee, source) == Bump(HandleTime(tasks, employee, source), done, employee, source)
    decreases |tasks|
  {
    var n := |tasks| - 1;
    var init := tasks[..n];
    var last := tasks[n];
    SplitLast(tasks);
    HandleTimeSnoc(init, last, employee, source);
    if t < n {
      UpdateBeforeLast(tasks, t, done);
      HandleTimeSnoc(init[t := done], last, employee, source);
      CompleteBumps(init, t, done, employee, source);
      BumpsCommute(HandleTime(init, employee, source), done, last, employee, source);
    } else {
      assert tasks[t := done] == init + [done];
      HandleTimeSnoc(init, done, employee, source);
    }
  }

  lemma BumpsCommute(a: Aht, x: TaskLog, y: TaskLog, employee: Option<nat>, source: Option<nat>)
    ensures Bump(Bump(a, x, employee, source), y, employee, source) == Bump(Bump(a, y, employee, source), x, employee, source)
  {
  }

  /** The handle time of one more task. */
  lemma HandleTimeSnoc(tasks: seq<TaskLog>, x: TaskLog, employee: Option<nat>, source: Option<nat>)
    ensures HandleTime(tasks + [x], employee, source) == Bump(HandleTime(tasks, employee, source), x, employee, source)
  {
    assert (tasks + [x])[..|tasks|] == tasks;
  }

  lemma SplitLast<T>(xs: seq<T>)
    requires xs != []
    ensures xs == xs[..|xs| - 1] + [xs[|xs| - 1]]
  {
  }

  lemma UpdateBeforeLast<T>(xs: seq<T>, t: nat, x: T)
    requires t < |xs| - 1
    ensures xs[t := x] == xs[..|xs| - 1][t := x] + [xs[|xs| - 1]]
  {
  }

  /** Assigning a task never changes anyone's handle time. */
  lemma AssignTaskKeepsAht(r: Roster, e: nat, src: nat, recordId: string, now: nat, who: nat, source: Option<nat>)
    requires AssignTask(r, e, src, recordId, now).Ok? && who < |r.employees|
    ensures GetAht(AssignTask(r, e, src, recordId, now).value, who, source) == GetAht(r, who, source)
  {
    var out := AssignTask(r, e, src, recordId, now).value;
    assert out.tasks == r.tasks + [TaskLog(e, src, recordId, now, None)];
    HandleTimeIgnoresOpenTask(r.tasks, TaskLog(e, src, recordId, now, None), Some(who), source);
  }

  /** Completing an employee's open task raises that employee's unfiltered
      count by one and the total by the task's duration. */
  lemma CompleteTaskAddsToAht(r: Roster, t: nat, now: nat)
    requires Valid(r) && t < |r.tasks| && r.tasks[t].completedAt.None?
    ensures var e := r.tasks[t].employeeId;
      var before := GetAht(r, e, None);
      var after := GetAht(CompleteTask(r, t, now).value, e, None);
      before.Ok? && after.Ok?
      && after.value == Aht(before.value.totalSeconds + (now - r.tasks[t].startedAt), before.value.count + 1)
  {
    var e := r.tasks[t].employeeId;
    CompleteKnownTaskSucceeds(r, t, now);
    CompletedTasks(r, t, now);
    HandleTimeComplete(r.tasks, t, now, Some(e), None);
  }

  lemma CompletedTasks(r: Roster, t: nat, now: nat)
    requires CompleteTask(r, t, now).Ok?
    ensures t < |r.tasks|
    ensures CompleteTask(r, t, now).value.tasks == r.tasks[t := r.tasks[t].(completedAt := Some(now))]
  {
  }

  /** Two completed tasks of 60 and 120 seconds average 90 seconds. */
  lemma AhtOfTwoTasks(e: nat, src: nat)
    ensures var tasks := [TaskLog(e, src, "1", 0, Some(60)), TaskLog(e, src, "2", 100, Some(220))];
      HandleTime(tasks, Some(e), None) == Aht(180, 2)
      && AverageSeconds(HandleTime(tasks, Some(e), None)) == 90.0
  {
    var tasks := [TaskLog(e, src, "1", 0, Some(60)), TaskLog(e, src, "2", 100, Some(220))];
    assert tasks[..1] == [tasks[0]] && tasks[..1][..0] == [];
  }
}
