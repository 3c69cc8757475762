# Task scheduler model

This project models the `TaskScheduler` of the Android-server automation scripts in Dafny
(`automation/task-scheduler.py`).

The scheduler keeps a list of named tasks in a JSON file. Each task carries a shell
command and a recurrence given as a `(schedule_type, schedule_time)` pair:

- an interval of N minutes;
- hourly at a minute of the hour;
- daily at a time of day;
- weekly on a weekday at a time of day.

`add_task` appends a task, saves the list and registers the task with the `schedule`
library. `run` registers every enabled task and then polls `schedule.run_pending()`.
When a job fires, its callback runs the command. When the invocation returns, whatever
its exit status, the callback stamps `last_run` on the task and saves the list again.

## Modules

- `Wrappers` defines `Option`, `Result` and `Outcome`. `Outcome` records whether a
  statement returned or raised.
- `PyText` models the Python text operations the scheduler depends on:
  - `str.isspace` and `split()` with no separator;
  - `lower()` on ASCII letters;
  - `int()` applied to a string, allowing one sign, PEP 515 underscores and the
    whitespace `int()` itself skips around the number. That whitespace is narrower than
    `str.isspace`: the ASCII separators U+001C..U+001F are not skipped.
- `Tasks` defines:
  - the task record;
  - the storage file (`Missing`, `Saved(tasks)` or `Corrupt`);
  - `load_tasks`.
- `Recurrence` covers three things:
  - parsing a task's schedule fields into a `Rule`, or into the exception registration
    raises;
  - the time formats the library's `.at()` accepts;
  - when a rule next fires after a given moment. The clock counts whole seconds from a
    Monday at 00:00:00 local time.
- `Scheduling` defines the `TaskScheduler` class. Its fields are:
  - `tasks`, the in-memory list;
  - `disk`, the storage file;
  - `jobs`, the job table in registration order.

  Each job holds its task's position in `tasks`. In the source, the job's closure
  holds the very dictionary that sits at that position. `tasks` is only ever
  appended to, so the position always names the same task. The class's invariant
  `Valid()` says two things:
  - reloading the storage file gives back the in-memory list;
  - every job belongs to an enabled task whose schedule fields parse to the job's rule.

  Every method keeps that invariant.

A firing's command invocation is an input of type `Invocation`: either `Returned(stdout,
stderr, exitCode)` or `Raised`. The current time is a parameter `now`.

Three facts about the source and the `schedule` library shape the model:

- An interval is whatever `int()` returns for its text, so zero and negative intervals
  are modelled. `NextRunIsLater` proves that they are the only case where the next run
  is not strictly later.
- The library's `.at()` accepts `HH:MM:SS` for daily and weekly rules, so the clock
  counts seconds.
- The library fires the due jobs sorted by their next-run time. The model fires them in
  registration order, and `TickOrderIsIrrelevant` proves that the order does not change
  what a tick leaves behind.

## Model

| member | source | states |
|---|---|---|
| Tasks.LoadTasks | automation/task-scheduler.py:19-24 | loading fails exactly when the storage file holds unreadable content; otherwise it yields a task list |
| Tasks.LoadMissing | automation/task-scheduler.py:19-24 | without a storage file the task list is empty |
| Tasks.SaveThenLoad | automation/task-scheduler.py:19-29 | loading what was saved gives back exactly the saved list |
| Scheduling.Open | automation/task-scheduler.py:15-17 | construction fails exactly on an unreadable storage file; otherwise the new scheduler holds the loaded list, satisfies its invariant and has no jobs |
| Scheduling.TaskScheduler.FromStorage | automation/task-scheduler.py:15-17 | on a readable storage file the scheduler starts with the loaded list, its invariant and an empty job table |
| Scheduling.TaskScheduler.SaveTasks | automation/task-scheduler.py:26-29 | afterwards the storage file holds the whole in-memory list, so a reload gives back that list |
| Scheduling.AddMistimedTask | automation/task-scheduler.py:31-43 | adding a daily task at "25:99" raises the `.at()` error after the task is already saved, enabled and never run, and leaves the job table unchanged |
| Scheduling.TaskScheduler.AddTask | automation/task-scheduler.py:31-43 | appends exactly one task with the given fields, `enabled` true and no `last_run`, and saves the list before registering; the rest depends on registration: if it raises, the job table is unchanged and the exception reaches the caller with the task still saved; if it succeeds, the task's job, or none for an unknown type, is appended |
| Scheduling.TaskScheduler.ScheduleTask | automation/task-scheduler.py:45-75 | succeeds exactly when the task's schedule fields parse; on success it appends that task's job (none for an unknown type); on failure it leaves the job table unchanged and returns the parse error |
| Scheduling.Register | automation/task-scheduler.py:64-75 | the jobs registration adds: none for an unknown type and one otherwise, tagged with the task's position, holding the parsed rule, and due at that rule's next run; or the parse error |
| Recurrence.ParseRule | automation/task-scheduler.py:64-75 | every rule it produces is well formed (minute and clock ranges); the result is "nothing registered, nothing raised" exactly for a type outside interval, hourly, daily and weekly |
| Recurrence.UnknownTypeIsIgnored | automation/task-scheduler.py:64-75 | an unknown schedule type registers nothing and raises nothing |
| Recurrence.IntervalNeedsInteger | automation/task-scheduler.py:67-68 | an interval is accepted exactly when `int()` accepts its text, and the rule is then "every that many minutes" |
| PyText.ParseIntOfString | automation/task-scheduler.py:68 | `int(str(n)) == n` for every integer n below Python's conversion digit limit |
| PyText.ParseInt | automation/task-scheduler.py:68 | a text `int()` accepts ends, once its surrounding whitespace is skipped, in a digit, and a negative result needs a leading minus sign |
| PyText.ParseIntIgnoresPadding | automation/task-scheduler.py:68 | whitespace that `int()` skips (space, TAB..CR and non-ASCII Unicode whitespace) placed around the number does not change what `int()` returns |
| PyText.ParseIntSpaceExamples | automation/task-scheduler.py:68 | `int()` reads 60 from a tab, a no-break space, "60" and a newline |
| PyText.ParseIntRejectsSeparator | automation/task-scheduler.py:68 | U+001C counts as whitespace for `str.isspace()`, yet `int()` rejects "\x1c60" |
| PyText.StripIgnoresPadding | automation/task-scheduler.py:68 | skipping the whitespace at both ends removes exactly the `int()` whitespace placed around a word |
| PyText.StripIntSpaceSpec | automation/task-scheduler.py:68 | the text `int()` reads the number from is a contiguous piece of the input that neither starts nor ends with `int()` whitespace, and everything dropped on either side is such whitespace |
| PyText.SkipLeadingSpaceSpec | automation/task-scheduler.py:68 | `int()`'s skipping of leading whitespace leaves a suffix that is empty or starts with a character it does not skip, and everything dropped is whitespace it skips |
| PyText.SkipTrailingSpaceSpec | automation/task-scheduler.py:68 | `int()`'s skipping of trailing whitespace leaves a prefix that is empty or ends with a character it does not skip, and everything dropped is whitespace it skips |
| PyText.IntToString | automation/task-scheduler.py:68 | `str(n)` is nonempty, starts with a minus sign exactly for a negative number, and is digits after the first character |
| Recurrence.ParseMinute | automation/task-scheduler.py:69-70 | an hourly time accepted by `.at(":"+t)` names a minute in 0..59 |
| Recurrence.ParseClock | automation/task-scheduler.py:71-72 | a time accepted by a daily or weekday `.at()` is a valid time of day written in 5 or 8 characters |
| Recurrence.ParseRuleExamples | automation/task-scheduler.py:71-75 | "02:00" daily and "sunday 04:00" weekly parse to those rules; "25:99" and "24:00" daily are rejected |
| PyText.Split | automation/task-scheduler.py:74 | `split()` yields only nonempty words without whitespace |
| PyText.SplitAfterSpaces | automation/task-scheduler.py:74 | `split()` ignores leading whitespace |
| PyText.SplitAfterWord | automation/task-scheduler.py:74 | a word followed by whitespace or the end of the text is the first word `split()` yields, and the rest split as they would alone |
| PyText.SplitTwoWords | automation/task-scheduler.py:74 | two words joined by whitespace split back into exactly those two words |
| Recurrence.WeeklyNeedsDayAndTime | automation/task-scheduler.py:73-75 | a weekly text is accepted exactly when it has two words, the first (lower-cased) naming a weekday and the second a valid time; a different word count raises the unpacking error |
| Recurrence.ParseWeekly | automation/task-scheduler.py:73-75 | an accepted weekly text always yields a weekly rule with a valid time of day |
| PyText.Lower | automation/task-scheduler.py:75 | lower-casing keeps the length and leaves no ASCII capital: each capital becomes its small letter and every other character stays |
| PyText.LowerIsIdempotent | automation/task-scheduler.py:75 | lower-casing twice gives the same text as lower-casing once |
| PyText.LowerMatchesUpToCase | automation/task-scheduler.py:75 | two texts lower-case to the same text exactly when they differ only in the case of ASCII letters |
| Recurrence.WeekdayNamed | automation/task-scheduler.py:75 | a word selects a weekday exactly when it is that weekday's lower-case name |
| Recurrence.WeeklyIgnoresCase | automation/task-scheduler.py:73-75 | any ASCII capitalisation of a weekday name, followed by one space and a valid time written `HH:MM` (`HH:MM:SS` when its seconds are not zero), two digits each, parses to that weekday and time |
| Recurrence.ParseRuleText | automation/task-scheduler.py:64-75 | every rule has a schedule text that parses back to that same rule |
| Recurrence.NextOccurrence | automation/task-scheduler.py:70-75 | the anchored next run is strictly after the reference and at most one period later, lies on the anchor, and no anchored moment comes between them |
| Recurrence.NextRun | automation/task-scheduler.py:69-75 | an hourly, daily or weekly rule's next run lies on its anchor, strictly after the reference moment and at most a week later |
| Recurrence.NextRunIsLater | automation/task-scheduler.py:67-75 | the next run is strictly after the reference moment unless the rule is an interval of zero or fewer minutes |
| Recurrence.NextRunIsSoonest | automation/task-scheduler.py:69-75 | hourly, daily and weekly rules fire at the soonest matching moment after the reference |
| Recurrence.IntervalSpacing | automation/task-scheduler.py:67-68 | successive runs of an N-minute interval are exactly N minutes apart, the first N minutes after registration |
| Recurrence.WeeklyMeansDayAndTime | automation/task-scheduler.py:73-75 | a moment matches a weekly rule exactly when it falls on that weekday at that time of day |
| Recurrence.NextRunExamples | automation/task-scheduler.py:71-75 | seen at Monday 10:00, daily 02:00 fires at Tuesday 02:00 and weekly Sunday 04:00 fires six days later at 04:00; seen on that Sunday at 05:00, the weekly rule fires a week later |
| Scheduling.StartupPass | automation/task-scheduler.py:82-85 | the place where the startup pass stops, if it stops early, is a task at or after its starting position |
| Scheduling.StartupPassFacts | automation/task-scheduler.py:82-85 | the startup pass stops only at an enabled task whose registration raises; every job it adds belongs to an enabled task whose fields parse to the job's rule, and is due at that rule's next run |
| Scheduling.StartupPassRegisters | automation/task-scheduler.py:82-85 | the startup pass registers, in list order, exactly the enabled tasks of a known type with a valid schedule that come before the place it stops |
| Scheduling.StartupPassStopsAtFirstError | automation/task-scheduler.py:82-85 | every enabled task before the place the pass stops registers without error |
| Scheduling.DisabledTasksGetNoJob | automation/task-scheduler.py:83 | a task with `enabled` false never receives a job |
| Scheduling.StartupPassWithoutErrors | automation/task-scheduler.py:82-85 | when no enabled task's registration raises, the pass runs to the end and every schedulable task gets one job in list order |
| Scheduling.TaskScheduler.Run | automation/task-scheduler.py:82-85 | appends exactly the startup pass's jobs; it succeeds exactly when no registration raised, and otherwise returns the first failing task's parse error |
| Scheduling.Stamp | automation/task-scheduler.py:47-62 | a returned invocation sets `last_run` to the firing time, with any exit status; a raised one changes nothing; no other task and no other field changes |
| Scheduling.ExitStatusIsIrrelevant | automation/task-scheduler.py:56-60 | exit status and captured output make no difference to the stamp |
| Scheduling.TaskScheduler.Fire | automation/task-scheduler.py:47-62 | one firing stamps the job's task as `Stamp` says and saves only on a returned invocation; it then moves that job alone to its next run |
| Scheduling.Due | automation/task-scheduler.py:89 | the due jobs are exactly those whose next run is not after `now`, listed in registration order |
| Scheduling.TaskScheduler.DueJobs | automation/task-scheduler.py:89 | the scan before firing returns exactly `Due` of the job table |
| Scheduling.TaskScheduler.RunPending | automation/task-scheduler.py:88-89 | one tick fires exactly the due jobs; afterwards each task with a returned firing has `last_run` set to `now` and all others are unchanged; the fired jobs move to their next run and the others keep theirs; the list is saved exactly when some firing returned |
| Scheduling.TickTasks | automation/task-scheduler.py:47-62 | the tasks after a tick differ from before only in `last_run`, which becomes `now` exactly for the tasks one of whose fired jobs returned |
| Scheduling.Rescheduled | automation/task-scheduler.py:89 | the jobs after a tick differ from before only in their next run: the fired jobs move to their rule's next run after `now` and the rest are unchanged |
| Scheduling.NothingDueTwice | automation/task-scheduler.py:88-89 | when every interval is positive, a second tick at the same moment fires nothing |
| Scheduling.FiredIntervalMovesByN | automation/task-scheduler.py:67-68 | an N-minute interval job that fires at `now` is next due at `now` plus N minutes |
| Scheduling.AllRaisedChangesNothing | automation/task-scheduler.py:49-62 | a tick in which every invocation raised changes no task and saves nothing |
| Scheduling.TickIgnoresExitStatus | automation/task-scheduler.py:56-60 | what a tick does to the tasks depends only on whether each invocation returned, not on its exit status or output |
| Scheduling.TickOrderIsIrrelevant | automation/task-scheduler.py:89 | the tasks, saving and job table after a tick depend only on which jobs fired, not on the order they fired in |

## Left out

- Running the command: `subprocess.run` is replaced by the `Invocation` outcome of each
  firing. The printing of output and errors is not modelled.
- JSON encoding and decoding are not modelled. Three things follow:
  - storage holds task values directly;
  - extra keys and non-string field values are not modelled;
  - a record missing a field (which raises `KeyError` in the source) is not modelled.
- `enabled` is reduced to its truth value. `None` stands for the key being absent.
- Dates, time zones and daylight-saving changes are not modelled. `datetime.now()` is the
  parameter `now`, in whole seconds. `last_run` stores that moment rather than its ISO
  text.
- The `while True` loop, `time.sleep(1)` and `KeyboardInterrupt` are not modelled. The
  model covers single ticks of `run_pending`, each with its own `now`.
- How long a firing takes is not modelled. Every job fired in one tick sees the same
  `now`.
- The example-seeding block under `__main__`, and the remote-control client
  (`pc-client.py`), are not part of this model.
- Failures while writing the storage file are not modelled.
- The library keeps one global job table. The model gives each scheduler its own table.
- Scheduling.TaskScheduler.RunPending: fires the due jobs in registration order. The
  library fires them sorted by next-run time. By `TickOrderIsIrrelevant` the final
  state is the same. The intermediate saves and the order of the commands' side
  effects are not modelled.
- Recurrence.NextRun: a fired job moves to the soonest occurrence after the firing
  moment. Three library behaviours are not modelled:
  - how it reschedules a job fired late;
  - how it computes a first weekly run whose time equals the registration moment
    exactly;
  - its sub-second precision.
- Recurrence.ParseRule: the weekday word is looked up with `getattr` on the library's
  job builder. In the source, a word that names some other builder attribute (such as
  `day` or `hours`) therefore goes on to that attribute's own `.at()` rules instead of
  raising. The model rejects every word that is not a weekday name.
- Recurrence.ParseClock: the library's patterns use Python's `\d` and `$`, which also
  accept non-ASCII decimal digits and a trailing newline. The model accepts ASCII digits
  only.
- PyText.ParseInt: `int()` also accepts non-ASCII decimal digits. The model accepts
  ASCII digits only.
- PyText.ParseInt: Python's conversion digit limit is not modelled. `int()` raises
  `ValueError` for a text of more than 4300 digits (the default `sys.int_max_str_digits`
  in recent CPython releases), and `str(n)` raises for such a number. The model accepts
  and renders digit strings of any length, so PyText.ParseIntOfString holds in Python
  only below that limit.
- Recurrence.ParseMinute: the library checks an hourly time with a pattern using Python's
  `\d` and `$`. It therefore also accepts a non-ASCII decimal digit in second place, and a
  trailing newline: `.at(":30\n")` registers minute 30, because `int("30\n")` is 30. The
  model accepts exactly two ASCII digits.
- Recurrence.NextRun: moments are unbounded integers. Python's `datetime` ends with the
  year 9999, so `now + timedelta(minutes=n)` raises `OverflowError` for a huge interval
  such as `10000000000`. The model registers such an interval, and
  Recurrence.ParseRuleText's statement that every interval rule parses back does not
  cover this overflow at registration.
- PyText.Lower: lower-cases ASCII letters only. This is exact for matching weekday
  names, but not for arbitrary text.
- Duplicate task names are allowed, as in the source. No operation of the source deletes
  or disables a task, and none is modelled.
