/**
  The task scheduler: a task list mirrored in a storage file, and a table of jobs
  registered for those tasks. Adding a task appends it, saves the list and registers
  it; the startup pass registers every enabled task in list order; a tick fires the
  jobs that are due, stamps `last_run` on the tasks whose command invocation returned,
  saves, and moves each fired job to its next run.
 */
module Scheduling {
  import opened Wrappers
  import opened Tasks
  import opened Recurrence

  /** What invoking a task's command did: the shell returned (with any exit status), or
      the invocation itself raised. */
  datatype Invocation = Returned(stdout: string, stderr: string, exitCode: int) | Raised

  /** A registered job: the position of its task in the task list, the rule registered
      for it, and the moment it is next due. */
  datatype Job = Job(task: nat, rule: Rule, nextRun: Time)

  /** `job` belongs to the task list `ts`: its task exists, is enabled, and its schedule
      fields parse to the job's rule. */
  predicate JobFits(job: Job, ts: seq<Task>) {
    && job.task < |ts|
    && IsEnabled(ts[job.task])
    && ParseRule(ts[job.task].scheduleType, ts[job.task].scheduleTime) == Ok(Some(job.rule))
  }

  predicate JobsFit(js: seq<Job>, ts: seq<Task>) {
    forall j :: 0 <= j < |js| ==> JobFits(js[j], ts)
  }

  /** The jobs `schedule_task` adds for task `t`, found at position `index`, when called
      at moment `now`; or the exception it raises. */
  function Register(index: nat, t: Task, now: Time): (r: Result<seq<Job>, ScheduleError>)
    ensures r.Ok? <==> ParseRule(t.scheduleType, t.scheduleTime).Ok?
    ensures r.Err? ==> r.error == ParseRule(t.scheduleType, t.scheduleTime).error
    ensures r.Ok? ==> |r.value| == (if IsKnownType(t.scheduleType) then 1 else 0)
    ensures r.Ok? ==> forall job <- r.value ::
      job.task == index && ParseRule(t.scheduleType, t.scheduleTime) == Ok(Some(job.rule))
      && job.nextRun == NextRun(job.rule, now)
  {
    match ParseRule(t.scheduleType, t.scheduleTime)
    case Err(e) => Err(e)
    case Ok(None) => Ok([])
    case Ok(Some(rule)) => Ok([Job(index, rule, NextRun(rule, now))])
  }

  // ---------------------------------------------------------------------------
  // The startup pass

  /** The outcome of the registration loop of `run` from position `i` on: the jobs it
      adds, and the position of the task whose registration raised, which ends the
      loop. */
  datatype Startup = Startup(jobs: seq<Job>, failedAt: Option<nat>)

  function StartupPass(ts: seq<Task>, i: nat, now: Time): (r: Startup)
    requires i <= |ts|
    ensures r.failedAt.Some? ==> i <= r.failedAt.value < |ts|
    decreases |ts| - i
  {
    if i == |ts| then Startup([], None)
    else if !IsEnabled(ts[i]) then StartupPass(ts, i + 1, now)
    else
      match Register(i, ts[i], now)
      case Err(_) => Startup([], Some(i))
      case Ok(js) =>
        var rest := StartupPass(ts, i + 1, now);
        Startup(js + rest.jobs, rest.failedAt)
  }

  /** The startup pass stops only at an enabled task whose registration raises, and
      every job it adds belongs to an enabled task whose schedule fields parse to the
      job's rule and is due at that rule's next run. */
  lemma {:induction false} StartupPassFacts(ts: seq<Task>, i: nat, now: Time)
    requires i <= |ts|
    ensures var r := StartupPass(ts, i, now);
      && (r.failedAt.Some? ==> IsEnabled(ts[r.failedAt.value]))
      && (r.failedAt.Some? ==> ParseRule(ts[r.failedAt.value].scheduleType, ts[r.failedAt.value].scheduleTime).Err?)
      && JobsFit(r.jobs, ts)
      && forall job <- r.jobs :: i <= job.task && job.nextRun == NextRun(job.rule, now)
    decreases |ts| - i
  {
    if i < |ts| {
      StartupPassStep(ts, i, now);
      StartupPassFacts(ts, i + 1, now);
      if IsEnabled(ts[i]) && Register(i, ts[i], now).Ok? {
        var js := Register(i, ts[i], now).value;
        var rest := StartupPass(ts, i + 1, now).jobs;
        assert forall j :: 0 <= j < |js| ==> js[j] in js;
        assert forall j :: 0 <= j < |js + rest| ==> (js + rest)[j] in js || (js + rest)[j] in rest;
      }
    }
  }

  /** One step of the registration loop. */
  lemma StartupPassStep(ts: seq<Task>, i: nat, now: Time)
    requires i < |ts|
    ensures !IsEnabled(ts[i]) ==> StartupPass(ts, i, now) == StartupPass(ts, i + 1, now)
    ensures IsEnabled(ts[i]) && Register(i, ts[i], now).Err? ==> StartupPass(ts, i, now) == Startup([], Some(i))
    ensures IsEnabled(ts[i]) && Register(i, ts[i], now).Ok? ==>
      StartupPass(ts, i, now) == Startup(
        Register(i, ts[i], now).value + StartupPass(ts, i + 1, now).jobs,
        StartupPass(ts, i + 1, now).failedAt)
  {
  }

  /** The registration loop's invariant carried over one task: `done` holds the jobs
      registered so far on top of `base`. */
  lemma StartupPassAdvance(ts: seq<Task>, i: nat, now: Time, base: seq<Job>, done: seq<Job>)
    requires i < |ts|
    requires base + StartupPass(ts, 0, now).jobs == done + StartupPass(ts, i, now).jobs
    requires StartupPass(ts, 0, now).failedAt == StartupPass(ts, i, now).failedAt
    ensures !IsEnabled(ts[i]) ==>
      && base + StartupPass(ts, 0, now).jobs == done + StartupPass(ts, i + 1, now).jobs
      && StartupPass(ts, 0, now).failedAt == StartupPass(ts, i + 1, now).failedAt
    ensures IsEnabled(ts[i]) && Register(i, ts[i], now).Ok? ==>
      && base + StartupPass(ts, 0, now).jobs == (done + Register(i, ts[i], now).value) + StartupPass(ts, i + 1, now).jobs
      && StartupPass(ts, 0, now).failedAt == StartupPass(ts, i + 1, now).failedAt
    ensures IsEnabled(ts[i]) && Register(i, ts[i], now).Err? ==>
      && base + StartupPass(ts, 0, now).jobs == done
      && StartupPass(ts, 0, now).failedAt == Some(i)
  {
    StartupPassStep(ts, i, now);
    if IsEnabled(ts[i]) {
      var reg := Register(i, ts[i], now);
      if reg.Ok? {
        var rest := StartupPass(ts, i + 1, now).jobs;
        assert (done + reg.value) + rest == done + (reg.value + rest);
      } else {
        assert done + [] == done;
      }
    }
  }

  /** Where the startup pass stops: at the task that raised, or at the end of the list. */
  function StopsAt(ts: seq<Task>, s: Startup): int {
    if s.failedAt.Some? then s.failedAt.value else |ts|
  }

  /** A task that the startup pass gives a job: enabled, of a known type, and with a
      schedule time that parses. */
  predicate Schedulable(t: Task) {
    IsEnabled(t) && ParseRule(t.scheduleType, t.scheduleTime).Ok? && IsKnownType(t.scheduleType)
  }

  /** The positions in `[lo, hi)` of the schedulable tasks, in list order. */
  function Schedulables(ts: seq<Task>, lo: nat, hi: nat): (r: seq<nat>)
    requires lo <= hi <= |ts|
    ensures forall x :: x in r <==> lo <= x < hi && Schedulable(ts[x])
    ensures forall a, b :: 0 <= a < b < |r| ==> r[a] < r[b]
    decreases hi - lo
  {
    if lo == hi then []
    else
      var rest := Schedulables(ts, lo + 1, hi);
      assert forall a :: 0 <= a < |rest| ==> rest[a] in rest;
      if Schedulable(ts[lo]) then [lo] + rest else rest
  }

  /** The task positions of a job list, in job order. */
  function TaskPositions(js: seq<Job>): (r: seq<nat>)
    ensures |r| == |js| && forall k :: 0 <= k < |js| ==> r[k] == js[k].task
  {
    seq(|js|, k requires 0 <= k < |js| => js[k].task)
  }

  /** The startup pass registers, in list order, exactly the schedulable tasks before
      the place it stops. */
  lemma {:induction false} StartupPassRegisters(ts: seq<Task>, i: nat, now: Time)
    requires i <= |ts|
    ensures TaskPositions(StartupPass(ts, i, now).jobs) == Schedulables(ts, i, StopsAt(ts, StartupPass(ts, i, now)))
    decreases |ts| - i
  {
    var s := StartupPass(ts, i, now);
    var stop := StopsAt(ts, s);
    if i < |ts| {
      StartupPassStep(ts, i, now);
      if !IsEnabled(ts[i]) {
        StartupPassRegisters(ts, i + 1, now);
        SchedulablesStep(ts, i, stop);
      } else if Register(i, ts[i], now).Ok? {
        var js := Register(i, ts[i], now).value;
        var rest := StartupPass(ts, i + 1, now);
        assert stop == StopsAt(ts, rest);
        StartupPassRegisters(ts, i + 1, now);
        SchedulablesStep(ts, i, stop);
        assert TaskPositions(js + rest.jobs) == TaskPositions(js) + TaskPositions(rest.jobs);
        if IsKnownType(ts[i].scheduleType) {
          assert TaskPositions(js) == [i];
        } else {
          assert js + rest.jobs == rest.jobs;
        }
      } else {
        assert stop == i;
        assert Schedulables(ts, i, i) == [];
      }
    } else {
      assert Schedulables(ts, i, i) == [];
    }
  }

  lemma SchedulablesStep(ts: seq<Task>, lo: nat, hi: nat)
    requires lo < hi <= |ts|
    ensures Schedulables(ts, lo, hi) == (if Schedulable(ts[lo]) then [lo] else []) + Schedulables(ts, lo + 1, hi)
  {
  }

  /** The startup pass ends at the first enabled task whose registration raises: every
      enabled task before it registers without error. */
  lemma {:induction false} StartupPassStopsAtFirstError(ts: seq<Task>, i: nat, now: Time)
    requires i <= |ts|
    ensures forall k :: i <= k < StopsAt(ts, StartupPass(ts, i, now)) && IsEnabled(ts[k]) ==>
      ParseRule(ts[k].scheduleType, ts[k].scheduleTime).Ok?
    decreases |ts| - i
  {
    if i < |ts| {
      StartupPassStep(ts, i, now);
      var stop := StopsAt(ts, StartupPass(ts, i, now));
      if !IsEnabled(ts[i]) || Register(i, ts[i], now).Ok? {
        assert stop == StopsAt(ts, StartupPass(ts, i + 1, now));
        StartupPassStopsAtFirstError(ts, i + 1, now);
        forall k | i <= k < stop && IsEnabled(ts[k])
          ensures ParseRule(ts[k].scheduleType, ts[k].scheduleTime).Ok?
        {
          if k == i {
            assert Register(i, ts[i], now).Ok?;
          }
        }
      } else {
        assert stop == i;
      }
    }
  }

  /** The startup pass never registers a disabled task. */
  lemma DisabledTasksGetNoJob(ts: seq<Task>, now: Time, k: nat)
    requires k < |ts| && !IsEnabled(ts[k])
    ensures k !in TaskPositions(StartupPass(ts, 0, now).jobs)
  {
    StartupPassRegisters(ts, 0, now);
  }

  /** With no registration raising, every schedulable task gets exactly one job, in
      list order. */
  lemma StartupPassWithoutErrors(ts: seq<Task>, now: Time)
    requires forall k :: 0 <= k < |ts| && IsEnabled(ts[k]) ==> ParseRule(ts[k].scheduleType, ts[k].scheduleTime).Ok?
    ensures StartupPass(ts, 0, now).failedAt == None
    ensures TaskPositions(StartupPass(ts, 0, now).jobs) == Schedulables(ts, 0, |ts|)
  {
    StartupPassFacts(ts, 0, now);
    StartupPassRegisters(ts, 0, now);
  }

  // ---------------------------------------------------------------------------
  // Firing and the tick

  /** The firing callback's effect on the task list: when the invocation returned, with
      whatever exit status, the task at `i` gets `last_run = now`; when it raised,
      nothing changes. */
  function Stamp(ts: seq<Task>, i: nat, outcome: Invocation, now: Time): (r: seq<Task>)
    requires i < |ts|
    ensures |r| == |ts|
    ensures forall k :: 0 <= k < |ts| && k != i ==> r[k] == ts[k]
    ensures r[i].lastRun == (if outcome.Returned? then Some(now) else ts[i].lastRun)
    ensures r[i].(lastRun := ts[i].lastRun) == ts[i]
  {
    if outcome.Returned? then ts[i := ts[i].(lastRun := Some(now))] else ts
  }

  /** The exit status, stdout and stderr of a returned invocation make no difference. */
  lemma ExitStatusIsIrrelevant(ts: seq<Task>, i: nat, a: Invocation, b: Invocation, now: Time)
    requires i < |ts| && a.Returned? && b.Returned?
    ensures Stamp(ts, i, a, now) == Stamp(ts, i, b, now)
  {
  }

  /** The jobs due at `now` among `js`: their positions, in registration order. */
  function Due(js: seq<Job>, now: Time): (r: seq<nat>)
    ensures forall x :: x in r <==> 0 <= x < |js| && js[x].nextRun <= now
    ensures forall a, b :: 0 <= a < b < |r| ==> r[a] < r[b]
    ensures forall a :: 0 <= a < |r| ==> r[a] < |js|
  {
    if js == [] then []
    else
      var rest := Due(js[..|js| - 1], now);
      assert forall x :: x in rest ==> x < |js| - 1;
      rest + (if js[|js| - 1].nextRun <= now then [|js| - 1] else [])
  }

  /** Some fired job's invocation returned, so the list was saved. */
  ghost predicate AnyReturned(fired: seq<nat>, outcomes: seq<Invocation>) {
    exists k :: 0 <= k < |fired| && fired[k] < |outcomes| && outcomes[fired[k]].Returned?
  }

  /** Task `i` had a fired job whose invocation returned. */
  ghost predicate StampedBy(i: nat, js: seq<Job>, fired: seq<nat>, outcomes: seq<Invocation>) {
    exists k :: 0 <= k < |fired| && fired[k] < |js| && fired[k] < |outcomes|
      && js[fired[k]].task == i && outcomes[fired[k]].Returned?
  }

  /** The task list after the jobs `fired` ran at `now` with the given outcomes. */
  ghost function TickTasks(ts: seq<Task>, js: seq<Job>, fired: seq<nat>, outcomes: seq<Invocation>, now: Time): (r: seq<Task>)
    ensures |r| == |ts|
    ensures forall i :: 0 <= i < |ts| ==> r[i].(lastRun := ts[i].lastRun) == ts[i]
    ensures forall i :: 0 <= i < |ts| && !StampedBy(i, js, fired, outcomes) ==> r[i] == ts[i]
    ensures forall i :: 0 <= i < |ts| && StampedBy(i, js, fired, outcomes) ==> r[i].lastRun == Some(now)
  {
    seq(|ts|, i requires 0 <= i < |ts| =>
      if StampedBy(i, js, fired, outcomes) then ts[i].(lastRun := Some(now)) else ts[i])
  }

  predicate RulesValid(js: seq<Job>) {
    forall j :: 0 <= j < |js| ==> ValidRule(js[j].rule)
  }

  /** The job table after the jobs `fired` ran at `now`: each moves to its rule's next
      run after `now`, the others stay as they were. */
  ghost function Rescheduled(js: seq<Job>, fired: seq<nat>, now: Time): (r: seq<Job>)
    requires RulesValid(js)
    ensures |r| == |js|
    ensures forall j :: 0 <= j < |js| ==> r[j].(nextRun := js[j].nextRun) == js[j]
    ensures forall j :: 0 <= j < |js| && j !in fired ==> r[j] == js[j]
    ensures forall j :: 0 <= j < |js| && j in fired ==> r[j].nextRun == NextRun(js[j].rule, now)
  {
    seq(|js|, j requires 0 <= j < |js| =>
      if j in fired then js[j].(nextRun := NextRun(js[j].rule, now)) else js[j])
  }

  /** A rule whose next run always lies after the moment it is computed from. */
  predicate MovesForward(rule: Rule) {
    !(rule.Every? && rule.minutes <= 0)
  }

  /** A second tick at the same moment fires nothing, provided no job has an interval
      of zero or fewer minutes. */
  lemma NothingDueTwice(js: seq<Job>, now: Time)
    requires RulesValid(js)
    requires forall j :: 0 <= j < |js| ==> MovesForward(js[j].rule)
    ensures Due(Rescheduled(js, Due(js, now), now), now) == []
  {
    var after := Rescheduled(js, Due(js, now), now);
    forall j | 0 <= j < |after|
      ensures after[j].nextRun > now
    {
      if j in Due(js, now) {
        NextRunIsLater(js[j].rule, now);
      }
    }
    if Due(after, now) != [] {
      assert Due(after, now)[0] in Due(after, now);
    }
  }

  /** An interval job of N minutes that fires at `now` is next due exactly N minutes
      later. */
  lemma FiredIntervalMovesByN(js: seq<Job>, j: nat, now: Time)
    requires RulesValid(js) && j < |js| && js[j].rule.Every? && js[j].nextRun <= now
    ensures Rescheduled(js, Due(js, now), now)[j].nextRun == now + js[j].rule.minutes * Minute
  {
    assert j in Due(js, now);
  }

  /** A tick in which every invocation raised changes no task. */
  lemma AllRaisedChangesNothing(ts: seq<Task>, js: seq<Job>, fired: seq<nat>, outcomes: seq<Invocation>, now: Time)
    requires forall j :: 0 <= j < |outcomes| ==> outcomes[j].Raised?
    ensures TickTasks(ts, js, fired, outcomes, now) == ts
    ensures !AnyReturned(fired, outcomes)
  {
    forall i | 0 <= i < |ts|
      ensures TickTasks(ts, js, fired, outcomes, now)[i] == ts[i]
    {
      assert !StampedBy(i, js, fired, outcomes);
    }
  }

  /** Exit statuses and captured output play no part in a tick's effect on the tasks. */
  lemma TickIgnoresExitStatus(ts: seq<Task>, js: seq<Job>, fired: seq<nat>, a: seq<Invocation>, b: seq<Invocation>, now: Time)
    requires |a| == |b| && forall j :: 0 <= j < |a| ==> a[j].Returned? == b[j].Returned?
    ensures TickTasks(ts, js, fired, a, now) == TickTasks(ts, js, fired, b, now)
  {
    forall i | 0 <= i < |ts|
      ensures StampedBy(i, js, fired, a) == StampedBy(i, js, fired, b)
    {
      if StampedBy(i, js, fired, a) {
        var k :| 0 <= k < |fired| && fired[k] < |js| && fired[k] < |a| && js[fired[k]].task == i && a[fired[k]].Returned?;
        assert b[fired[k]].Returned?;
      }
      if StampedBy(i, js, fired, b) {
        var k :| 0 <= k < |fired| && fired[k] < |js| && fired[k] < |b| && js[fired[k]].task == i && b[fired[k]].Returned?;
        assert a[fired[k]].Returned?;
      }
    }
  }

  /** The order in which the due jobs fire makes no difference to the tasks or the job
      table a tick leaves behind: only which jobs fired matters. */
  lemma TickOrderIsIrrelevant(ts: seq<Task>, js: seq<Job>, f: seq<nat>, g: seq<nat>, outcomes: seq<Invocation>, now: Time)
    requires forall x :: x in f <==> x in g
    ensures TickTasks(ts, js, f, outcomes, now) == TickTasks(ts, js, g, outcomes, now)
    ensures AnyReturned(f, outcomes) == AnyReturned(g, outcomes)
    ensures RulesValid(js) ==> Rescheduled(js, f, now) == Rescheduled(js, g, now)
  {
    forall i | 0 <= i < |ts|
      ensures StampedBy(i, js, f, outcomes) == StampedBy(i, js, g, outcomes)
    {
      StampedByMembers(i, js, f, g, outcomes);
      StampedByMembers(i, js, g, f, outcomes);
    }
    AnyReturnedMembers(f, g, outcomes);
    AnyReturnedMembers(g, f, outcomes);
  }

  lemma StampedByMembers(i: nat, js: seq<Job>, f: seq<nat>, g: seq<nat>, outcomes: seq<Invocation>)
    requires forall x :: x in f ==> x in g
    ensures StampedBy(i, js, f, outcomes) ==> StampedBy(i, js, g, outcomes)
  {
    if StampedBy(i, js, f, outcomes) {
      var k :| 0 <= k < |f| && f[k] < |js| && f[k] < |outcomes| && js[f[k]].task == i && outcomes[f[k]].Returned?;
      assert f[k] in g;
      var m :| 0 <= m < |g| && g[m] == f[k];
    }
  }

  lemma AnyReturnedMembers(f: seq<nat>, g: seq<nat>, outcomes: seq<Invocation>)
    requires forall x :: x in f ==> x in g
    ensures AnyReturned(f, outcomes) ==> AnyReturned(g, outcomes)
  {
    if AnyReturned(f, outcomes) {
      var k :| 0 <= k < |f| && f[k] < |outcomes| && outcomes[f[k]].Returned?;
      assert f[k] in g;
      var m :| 0 <= m < |g| && g[m] == f[k];
    }
  }

  /** Firing one more job extends a tick by that firing's stamp. */
  lemma TickStep(ts: seq<Task>, js: seq<Job>, fired: seq<nat>, k: nat, outcomes: seq<Invocation>, now: Time)
    requires k < |fired| && fired[k] < |js| && js[fired[k]].task < |ts| && |outcomes| == |js|
    ensures TickTasks(ts, js, fired[..k + 1], outcomes, now)
      == Stamp(TickTasks(ts, js, fired[..k], outcomes, now), js[fired[k]].task, outcomes[fired[k]], now)
  {
    var before := TickTasks(ts, js, fired[..k], outcomes, now);
    var after := TickTasks(ts, js, fired[..k + 1], outcomes, now);
    var t := js[fired[k]].task;
    var stamped := Stamp(before, t, outcomes[fired[k]], now);
    forall i | 0 <= i < |ts|
      ensures after[i] == stamped[i]
    {
      if i == t && outcomes[fired[k]].Returned? {
        assert fired[..k + 1][k] == fired[k];
        assert StampedBy(i, js, fired[..k + 1], outcomes);
      } else {
        assert StampedBy(i, js, fired[..k + 1], outcomes) == StampedBy(i, js, fired[..k], outcomes) by {
          if StampedBy(i, js, fired[..k], outcomes) {
            var m :| 0 <= m < k && fired[..k][m] < |js| && fired[..k][m] < |outcomes|
              && js[fired[..k][m]].task == i && outcomes[fired[..k][m]].Returned?;
            assert fired[..k + 1][m] == fired[..k][m];
          }
          if StampedBy(i, js, fired[..k + 1], outcomes) {
            var m :| 0 <= m < k + 1 && fired[..k + 1][m] < |js| && fired[..k + 1][m] < |outcomes|
              && js[fired[..k + 1][m]].task == i && outcomes[fired[..k + 1][m]].Returned?;
            assert m < k;
            assert fired[..k][m] == fired[..k + 1][m];
          }
        }
      }
    }
  }

  lemma JobsHaveValidRules(js: seq<Job>, ts: seq<Task>)
    requires JobsFit(js, ts)
    ensures RulesValid(js)
  {
    forall j | 0 <= j < |js| ensures ValidRule(js[j].rule) {
      assert JobFits(js[j], ts);
    }
  }

  /** Moving one more fired job extends the rescheduling by that job. */
  lemma RescheduleStep(js: seq<Job>, fired: seq<nat>, k: nat, now: Time)
    requires RulesValid(js) && k < |fired| && fired[k] < |js|
    ensures var j := fired[k]; var before := Rescheduled(js, fired[..k], now);
      && before[j].rule == js[j].rule && before[j].task == js[j].task
      && Rescheduled(js, fired[..k + 1], now) == before[j := before[j].(nextRun := NextRun(js[j].rule, now))]
  {
    var j := fired[k];
    assert fired[..k + 1] == fired[..k] + [j];
  }

  lemma AnyReturnedStep(fired: seq<nat>, k: nat, outcomes: seq<Invocation>)
    requires k < |fired| && fired[k] < |outcomes|
    ensures AnyReturned(fired[..k + 1], outcomes) == (AnyReturned(fired[..k], outcomes) || outcomes[fired[k]].Returned?)
  {
    if AnyReturned(fired[..k], outcomes) {
      var m :| 0 <= m < k && fired[..k][m] < |outcomes| && outcomes[fired[..k][m]].Returned?;
      assert fired[..k + 1][m] == fired[..k][m];
    }
    if outcomes[fired[k]].Returned? {
      assert fired[..k + 1][k] == fired[k];
    }
    if AnyReturned(fired[..k + 1], outcomes) {
      var m :| 0 <= m < k + 1 && fired[..k + 1][m] < |outcomes| && outcomes[fired[..k + 1][m]].Returned?;
      if m < k {
        assert fired[..k][m] == fired[..k + 1][m];
      }
    }
  }

  lemma JobsHaveTasks(js: seq<Job>, ts: seq<Task>)
    requires JobsFit(js, ts)
    ensures forall j :: 0 <= j < |js| ==> js[j].task < |ts|
  {
    forall j | 0 <= j < |js| ensures js[j].task < |ts| {
      assert JobFits(js[j], ts);
    }
  }

  /** One firing of a tick, stated in the shape `Fire` establishes: the `k`-th due job
      fires on the state left by the previous `k` firings. */
  lemma TickAdvance(ts: seq<Task>, js: seq<Job>, fired: seq<nat>, k: nat, outcomes: seq<Invocation>, now: Time)
    requires RulesValid(js) && |outcomes| == |js|
    requires forall m :: 0 <= m < |js| ==> js[m].task < |ts|
    requires fired == Due(js, now) && k < |fired|
    ensures var j := fired[k]; var tasksK := TickTasks(ts, js, fired[..k], outcomes, now);
      var jobsK := Rescheduled(js, fired[..k], now);
      && j < |jobsK| && jobsK[j].task < |tasksK|
      && TickTasks(ts, js, fired[..k + 1], outcomes, now) == Stamp(tasksK, jobsK[j].task, outcomes[j], now)
      && Rescheduled(js, fired[..k + 1], now) == jobsK[j := jobsK[j].(nextRun := NextRun(jobsK[j].rule, now))]
      && AnyReturned(fired[..k + 1], outcomes) == (AnyReturned(fired[..k], outcomes) || outcomes[j].Returned?)
  {
    var j := fired[k];
    assert j in fired;
    TickStep(ts, js, fired, k, outcomes, now);
    RescheduleStep(js, fired, k, now);
    AnyReturnedStep(fired, k, outcomes);
  }

  // ---------------------------------------------------------------------------
  // The scheduler object

  class TaskScheduler {
    /** The in-memory task list, `self.tasks`. */
    var tasks: seq<Task>
    /** The storage file the list is loaded from and saved to. */
    var disk: Storage
    /** The job table, in registration order. */
    var jobs: seq<Job>

    /** Storage always reloads to the in-memory list, and every job belongs to an
        enabled task whose schedule fields parse to the job's rule. */
    ghost predicate Valid()
      reads this
    {
      LoadTasks(disk) == Ok(tasks) && JobsFit(jobs, tasks)
    }

    /** `__init__` on a readable storage file; `Open` below handles the unreadable one. */
    constructor FromStorage(disk: Storage)
      requires !disk.Corrupt?
      ensures Valid()
      ensures this.disk == disk && Ok(tasks) == LoadTasks(disk) && jobs == []
    {
      this.disk := disk;
      tasks := if disk.Saved? then disk.tasks else [];
      jobs := [];
    }

    /** `save_tasks`: the storage file now holds the whole task list. */
    method SaveTasks()
      modifies this`disk
      ensures disk == Saved(tasks)
      ensures LoadTasks(disk) == Ok(tasks)
    {
      disk := Saved(tasks);
    }

    /** `schedule_task` on the task at position `i`: registers its job, registers
        nothing for an unknown type, or raises without touching the job table. */
    method ScheduleTask(i: nat, now: Time) returns (r: Outcome<ScheduleError>)
      requires Valid() && i < |tasks| && IsEnabled(tasks[i])
      modifies this`jobs
      ensures Valid()
      ensures r.Pass? <==> Register(i, tasks[i], now).Ok?
      ensures r.Pass? ==> jobs == old(jobs) + Register(i, tasks[i], now).value
      ensures r.Fail? ==> jobs == old(jobs) && r.error == Register(i, tasks[i], now).error
    {
      match Register(i, tasks[i], now)
      case Err(e) =>
        r := Fail(e);
      case Ok(js) =>
        forall k | 0 <= k < |js| ensures JobFits(js[k], tasks) {
          assert js[k] in js;
        }
        jobs := jobs + js;
        r := Pass;
    }

    /** `add_task`: appends one enabled, never-run task with the given fields, saves
        the whole list, and only then registers it; a registration that raises leaves
        the task saved but without a job, and the exception reaches the caller. */
    method AddTask(name: string, command: string, scheduleType: string, scheduleTime: string, now: Time)
      returns (r: Outcome<ScheduleError>)
      requires Valid()
      modifies this
      ensures Valid()
      ensures tasks == old(tasks) + [Task(name, command, scheduleType, scheduleTime, Some(true), None)]
      ensures disk == Saved(tasks)
      ensures r.Pass? <==> Register(|old(tasks)|, tasks[|old(tasks)|], now).Ok?
      ensures r.Pass? ==> jobs == old(jobs) + Register(|old(tasks)|, tasks[|old(tasks)|], now).value
      ensures r.Fail? ==> jobs == old(jobs) && r.error == Register(|old(tasks)|, tasks[|old(tasks)|], now).error
    {
      var task := Task(name, command, scheduleType, scheduleTime, Some(true), None);
      tasks := tasks + [task];
      SaveTasks();
      forall j | 0 <= j < |jobs| ensures JobFits(jobs[j], tasks) {
        assert JobFits(jobs[j], old(tasks));
        assert tasks[jobs[j].task] == old(tasks)[jobs[j].task];
      }
      r := ScheduleTask(|tasks| - 1, now);
    }

    /** The registration loop of `run`: schedules each enabled task in list order; the
        first registration that raises ends the loop and reaches the caller. */
    method Run(now: Time) returns (r: Outcome<ScheduleError>)
      requires Valid()
      modifies this`jobs
      ensures Valid()
      ensures jobs == old(jobs) + StartupPass(tasks, 0, now).jobs
      ensures r.Pass? <==> StartupPass(tasks, 0, now).failedAt.None?
      ensures r.Fail? ==> ParseRule(
        tasks[StartupPass(tasks, 0, now).failedAt.value].scheduleType,
        tasks[StartupPass(tasks, 0, now).failedAt.value].scheduleTime) == Err(r.error)
    {
      var i := 0;
      while i < |tasks|
        invariant 0 <= i <= |tasks|
        invariant Valid()
        invariant StartupPass(tasks, 0, now).failedAt == StartupPass(tasks, i, now).failedAt
        invariant old(jobs) + StartupPass(tasks, 0, now).jobs == jobs + StartupPass(tasks, i, now).jobs
        decreases |tasks| - i
      {
        StartupPassAdvance(tasks, i, now, old(jobs), jobs);
        if IsEnabled(tasks[i]) {
          r := ScheduleTask(i, now);
          if r.Fail? {
            assert jobs + [] == jobs;
            return;
          }
        }
        i := i + 1;
      }
      r := Pass;
      assert jobs + [] == jobs;
    }

    /** The `should_run` scan of `run_pending`: the jobs due at `now`, in registration
        order. */
    method DueJobs(now: Time) returns (due: seq<nat>)
      ensures due == Due(jobs, now)
    {
      due := [];
      for k := 0 to |jobs|
        invariant due == Due(jobs[..k], now)
      {
        assert jobs[..k + 1][..k] == jobs[..k];
        if jobs[k].nextRun <= now {
          due := due + [k];
        }
      }
      assert jobs[..|jobs|] == jobs;
    }

    /** The job callback followed by the library's rescheduling: stamps and saves the
        task when the invocation returned, then moves the job to its next run. */
    method Fire(j: nat, outcome: Invocation, now: Time)
      requires Valid() && j < |jobs|
      modifies this
      ensures Valid()
      ensures tasks == Stamp(old(tasks), old(jobs)[j].task, outcome, now)
      ensures jobs == old(jobs)[j := old(jobs)[j].(nextRun := NextRun(old(jobs)[j].rule, now))]
      ensures disk == if outcome.Returned? then Saved(tasks) else old(disk)
    {
      var job := jobs[j];
      if outcome.Returned? {
        tasks := Stamp(tasks, job.task, outcome, now);
        SaveTasks();
      }
      jobs := jobs[j := job.(nextRun := NextRun(job.rule, now))];
      forall m | 0 <= m < |jobs| ensures JobFits(jobs[m], tasks) {
        assert JobFits(old(jobs)[m], old(tasks));
      }
    }

    /** One tick of `run_pending`: every job due at `now` fires, in registration order,
        with the invocation outcome `outcomes[j]` for job `j`. */
    method RunPending(now: Time, outcomes: seq<Invocation>) returns (fired: seq<nat>)
      requires Valid() && |outcomes| == |jobs|
      modifies this
      ensures Valid()
      ensures fired == Due(old(jobs), now)
      ensures RulesValid(old(jobs))
      ensures tasks == TickTasks(old(tasks), old(jobs), fired, outcomes, now)
      ensures jobs == Rescheduled(old(jobs), fired, now)
      ensures disk == if AnyReturned(fired, outcomes) then Saved(tasks) else old(disk)
    {
      fired := DueJobs(now);
      JobsHaveValidRules(jobs, tasks);
      JobsHaveTasks(jobs, tasks);
      ghost var ts0, js0 := tasks, jobs;
      assert tasks == TickTasks(ts0, js0, fired[..0], outcomes, now);
      assert jobs == Rescheduled(js0, fired[..0], now);
      for k := 0 to |fired|
        invariant Valid()
        invariant tasks == TickTasks(ts0, js0, fired[..k], outcomes, now)
        invariant jobs == Rescheduled(js0, fired[..k], now)
        invariant disk == if AnyReturned(fired[..k], outcomes) then Saved(tasks) else old(disk)
      {
        var j := fired[k];
        TickAdvance(ts0, js0, fired, k, outcomes, now);
        Fire(j, outcomes[j], now);
      }
      assert fired[..|fired|] == fired;
    }
  }

  /** `TaskScheduler(config_file)`: loads the task list, or raises when the storage
      file cannot be read; the new scheduler has no jobs yet. */
  method Open(disk: Storage) returns (r: Result<TaskScheduler, LoadError>)
    ensures r.Err? <==> disk.Corrupt?
    ensures r.Ok? ==> fresh(r.value) && r.value.Valid() && r.value.disk == disk && r.value.jobs == []
    ensures r.Ok? ==> LoadTasks(disk) == Ok(r.value.tasks)
  {
    if disk.Corrupt? {
      r := Err(LoadTasks(disk).error);
    } else {
      var s := new TaskScheduler.FromStorage(disk);
      r := Ok(s);
    }
  }

  /** Adding a daily task at "25:99": `.at()` refuses the time, so `add_task` raises
      after the task is already saved, enabled and never run, and no job is added. */
  method AddMistimedTask(s: TaskScheduler, now: Time) returns (r: Outcome<ScheduleError>)
    requires s.Valid()
    modifies s
    ensures s.Valid()
    ensures r == Fail(BadTime("25:99"))
    ensures s.jobs == old(s.jobs)
    ensures s.tasks == old(s.tasks) + [Task("System Backup", "tar -czf backup.tar.gz data", "daily", "25:99", Some(true), None)]
    ensures s.disk == Saved(s.tasks)
  {
    ParseRuleExamples();
    r := s.AddTask("System Backup", "tar -czf backup.tar.gz data", "daily", "25:99", now);
  }
}
