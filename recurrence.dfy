/**
  Recurrence rules: how a task's `(schedule_type, schedule_time)` pair becomes a rule
  ("every N minutes", "hourly at :MM", "daily at HH:MM", "weekly on a weekday at
  HH:MM"), which texts are rejected and with which exception, and when a rule next
  fires after a given moment.
 */
module Recurrence {
  import opened Wrappers
  import opened PyText
  import opened Tasks

  const Minute: int := 60
  const Hour: int := 3600
  const Day: int := 86400
  const Week: int := 604800

  datatype Weekday = Monday | Tuesday | Wednesday | Thursday | Friday | Saturday | Sunday

  /** Days since Monday; the clock's time 0 is a Monday. */
  function DayIndex(d: Weekday): (i: nat)
    ensures i < 7
  {
    match d
    case Monday => 0
    case Tuesday => 1
    case Wednesday => 2
    case Thursday => 3
    case Friday => 4
    case Saturday => 5
    case Sunday => 6
  }

  /** The name of the job-builder attribute that selects the weekday. */
  function DayName(d: Weekday): string {
    match d
    case Monday => "monday"
    case Tuesday => "tuesday"
    case Wednesday => "wednesday"
    case Thursday => "thursday"
    case Friday => "friday"
    case Saturday => "saturday"
    case Sunday => "sunday"
  }

  /** The weekday called `word`, if any. */
  function WeekdayNamed(word: string): (r: Option<Weekday>)
    ensures r.Some? ==> DayName(r.value) == word
    ensures r.None? ==> forall d :: DayName(d) != word
  {
    if word == "monday" then Some(Monday)
    else if word == "tuesday" then Some(Tuesday)
    else if word == "wednesday" then Some(Wednesday)
    else if word == "thursday" then Some(Thursday)
    else if word == "friday" then Some(Friday)
    else if word == "saturday" then Some(Saturday)
    else if word == "sunday" then Some(Sunday)
    else None
  }

  /** A time of day. */
  datatype ClockTime = ClockTime(hour: int, minute: int, second: int)

  predicate ValidClock(c: ClockTime) {
    0 <= c.hour < 24 && 0 <= c.minute < 60 && 0 <= c.second < 60
  }

  function SecondOfDay(c: ClockTime): int {
    c.hour * Hour + c.minute * Minute + c.second
  }

  function TwoDigits(a: char, b: char): nat
    requires IsDigit(a) && IsDigit(b)
  {
    10 * DigitValue(a) + DigitValue(b)
  }

  /** `.at(time_str)` on a daily or weekday job: `HH:MM` or `HH:MM:SS`, the first
      hour digit 0-2, minute and second 00-59, and the hour at most 23. */
  function ParseClock(s: string): (r: Option<ClockTime>)
    ensures r.Some? ==> ValidClock(r.value)
    ensures r.Some? ==> |s| == 5 || |s| == 8
  {
    if && (|s| == 5 || (|s| == 8 && s[5] == ':'))
       && '0' <= s[0] <= '2' && IsDigit(s[1]) && s[2] == ':'
       && '0' <= s[3] <= '5' && IsDigit(s[4])
       && (|s| == 8 ==> '0' <= s[6] <= '5' && IsDigit(s[7]))
    then
      var hour := TwoDigits(s[0], s[1]);
      if hour <= 23 then
        Some(ClockTime(hour, TwoDigits(s[3], s[4]), if |s| == 8 then TwoDigits(s[6], s[7]) else 0))
      else None
    else None
  }

  /** `.at(":" + t)` on an hourly job: `t` must be two digits, the first 0-5, and
      names the minute of the hour. */
  function ParseMinute(t: string): (r: Option<int>)
    ensures r.Some? ==> 0 <= r.value < 60
  {
    if |t| == 2 && '0' <= t[0] <= '5' && IsDigit(t[1]) then Some(TwoDigits(t[0], t[1])) else None
  }

  /** A recurrence rule. `Every(n)` keeps whatever integer `int()` produced, zero and
      negative values included. */
  datatype Rule =
    | Every(minutes: int)
    | Hourly(minute: int)
    | Daily(at: ClockTime)
    | Weekly(day: Weekday, at: ClockTime)

  predicate ValidRule(r: Rule) {
    match r
    case Every(_) => true
    case Hourly(m) => 0 <= m < 60
    case Daily(c) => ValidClock(c)
    case Weekly(_, c) => ValidClock(c)
  }

  /** The exceptions registration can raise. */
  datatype ScheduleError =
    | NotAnInteger(text: string)   // ValueError from int()
    | BadTime(text: string)        // the schedule library's ScheduleValueError from .at()
    | TokenCount(count: nat)       // ValueError from unpacking split() into two names
    | NoSuchDay(word: string)      // AttributeError from getattr()

  predicate IsKnownType(scheduleType: string) {
    scheduleType in {"interval", "hourly", "daily", "weekly"}
  }

  /** `schedule_task`'s dispatch on `schedule_type`: the rule it registers, `None` for a
      type it does not know (nothing is registered and nothing raised), or the
      exception it raises. */
  function ParseRule(scheduleType: string, scheduleTime: string): (r: Result<Option<Rule>, ScheduleError>)
    ensures r.Ok? && r.value.Some? ==> ValidRule(r.value.value)
    ensures r.Ok? && r.value.None? <==> !IsKnownType(scheduleType)
  {
    if scheduleType == "interval" then
      match ParseInt(scheduleTime)
      case Some(n) => Ok(Some(Every(n)))
      case None => Err(NotAnInteger(scheduleTime))
    else if scheduleType == "hourly" then
      match ParseMinute(scheduleTime)
      case Some(m) => Ok(Some(Hourly(m)))
      case None => Err(BadTime(":" + scheduleTime))
    else if scheduleType == "daily" then
      match ParseClock(scheduleTime)
      case Some(c) => Ok(Some(Daily(c)))
      case None => Err(BadTime(scheduleTime))
    else if scheduleType == "weekly" then
      match ParseWeekly(scheduleTime)
      case Ok(rule) => Ok(Some(rule))
      case Err(e) => Err(e)
    else Ok(None)
  }

  /** The weekly branch: unpack `split()` into a day word and a time, look the day up
      in lower case, then check the time. */
  function ParseWeekly(scheduleTime: string): (r: Result<Rule, ScheduleError>)
    ensures r.Ok? ==> r.value.Weekly? && ValidRule(r.value)
  {
    var words := Split(scheduleTime);
    if |words| != 2 then Err(TokenCount(|words|))
    else
      match WeekdayNamed(Lower(words[0]))
      case None => Err(NoSuchDay(Lower(words[0])))
      case Some(d) =>
        match ParseClock(words[1])
        case Some(c) => Ok(Weekly(d, c))
        case None => Err(BadTime(words[1]))
  }

  /** An interval is accepted exactly when `int()` accepts the text, and then the rule
      is "every that many minutes". */
  lemma IntervalNeedsInteger(t: string, n: int)
    ensures ParseRule("interval", t).Ok? <==> ParseInt(t).Some?
    ensures ParseRule("interval", t) == Ok(Some(Every(n))) <==> ParseInt(t) == Some(n)
  {
  }

  /** A weekly text is accepted exactly when it is two whitespace-separated words, the
      first of which, lower-cased, is a weekday name and the second a valid time. */
  lemma WeeklyNeedsDayAndTime(t: string)
    ensures ParseRule("weekly", t).Ok? <==>
      && |Split(t)| == 2
      && WeekdayNamed(Lower(Split(t)[0])).Some?
      && ParseClock(Split(t)[1]).Some?
    ensures |Split(t)| != 2 ==> ParseRule("weekly", t) == Err(TokenCount(|Split(t)|))
  {
  }

  /** An unrecognised schedule type registers nothing and raises nothing. */
  lemma UnknownTypeIsIgnored(scheduleType: string, t: string)
    requires !IsKnownType(scheduleType)
    ensures ParseRule(scheduleType, t) == Ok(None)
  {
  }

  // ---------------------------------------------------------------------------
  // Rendering a rule back into the text that selects it

  function Pad2(n: int): (s: string)
    requires 0 <= n < 100
    ensures |s| == 2 && IsDigit(s[0]) && IsDigit(s[1]) && TwoDigits(s[0], s[1]) == n
  {
    [DigitChar(n / 10), DigitChar(n % 10)]
  }

  /** `HH:MM`, with `:SS` appended when the second is not zero. */
  function ClockText(c: ClockTime): string
    requires ValidClock(c)
  {
    Pad2(c.hour) + ":" + Pad2(c.minute) + (if c.second == 0 then "" else ":" + Pad2(c.second))
  }

  function TypeName(r: Rule): string {
    match r
    case Every(_) => "interval"
    case Hourly(_) => "hourly"
    case Daily(_) => "daily"
    case Weekly(_, _) => "weekly"
  }

  /** The `schedule_time` text that selects `r` under `TypeName(r)`. */
  function RuleText(r: Rule): string
    requires ValidRule(r)
  {
    match r
    case Every(n) => IntToString(n)
    case Hourly(m) => Pad2(m)
    case Daily(c) => ClockText(c)
    case Weekly(d, c) => DayName(d) + " " + ClockText(c)
  }

  lemma ParseClockText(c: ClockTime)
    requires ValidClock(c)
    ensures ParseClock(ClockText(c)) == Some(c)
  {
    var s := ClockText(c);
    assert s[0] == Pad2(c.hour)[0] && s[1] == Pad2(c.hour)[1];
    assert s[3] == Pad2(c.minute)[0] && s[4] == Pad2(c.minute)[1];
    if c.second != 0 {
      assert s[6] == Pad2(c.second)[0] && s[7] == Pad2(c.second)[1];
    }
  }

  lemma LowerOfDayName(d: Weekday)
    ensures Lower(DayName(d)) == DayName(d)
  {
    var n := DayName(d);
    assert forall i :: 0 <= i < |n| ==> 'a' <= n[i] <= 'z';
    assert Lower(n) == n;
  }

  lemma DayNameHasNoSpace(d: Weekday)
    ensures DayName(d) != [] && NoSpace(DayName(d))
  {
    var n := DayName(d);
    assert forall i :: 0 <= i < |n| ==> 'a' <= n[i] <= 'z';
  }

  /** The weekday word is matched without regard to the case of its letters. */
  lemma WeeklyIgnoresCase(word: string, d: Weekday, c: ClockTime)
    requires Lower(word) == DayName(d) && NoSpace(word) && ValidClock(c)
    ensures ParseRule("weekly", word + " " + ClockText(c)) == Ok(Some(Weekly(d, c)))
  {
    WeeklyTextParses(word, d, c);
  }

  lemma WeeklyTextParses(word: string, d: Weekday, c: ClockTime)
    requires Lower(word) == DayName(d) && NoSpace(word) && ValidClock(c)
    ensures ParseWeekly(word + " " + ClockText(c)) == Ok(Weekly(d, c))
  {
    var clock := ClockText(c);
    ParseClockText(c);
    ClockTextIsOneWord(c);
    SplitTwoWords(word, " ", clock);
    assert Split(word + " " + clock)[0] == word;
    assert WeekdayNamed(DayName(d)) == Some(d);
  }

  /** A rendered time of day is a single nonempty word. */
  lemma ClockTextIsOneWord(c: ClockTime)
    requires ValidClock(c)
    ensures ClockText(c) != [] && NoSpace(ClockText(c))
  {
    var clock := ClockText(c);
    assert forall i :: 0 <= i < |clock| ==> IsDigit(clock[i]) || clock[i] == ':';
  }

  /** Every rule is registered back from its own text: rendering a rule and parsing it
      again loses nothing. */
  lemma ParseRuleText(r: Rule)
    requires ValidRule(r)
    ensures ParseRule(TypeName(r), RuleText(r)) == Ok(Some(r))
  {
    match r
    case Every(n) =>
      ParseIntOfString(n);
    case Hourly(m) =>
    case Daily(c) =>
      ParseClockText(c);
    case Weekly(d, c) =>
      LowerOfDayName(d);
      DayNameHasNoSpace(d);
      WeeklyIgnoresCase(DayName(d), d, c);
  }

  /** The texts of the example task list, and two that `.at()` refuses. */
  lemma ParseRuleExamples()
    ensures ParseRule("daily", "02:00") == Ok(Some(Daily(ClockTime(2, 0, 0))))
    ensures ParseRule("weekly", "sunday 04:00") == Ok(Some(Weekly(Sunday, ClockTime(4, 0, 0))))
    ensures ParseRule("daily", "25:99").Err?
    ensures ParseRule("daily", "24:00").Err?
  {
    assert ClockText(ClockTime(2, 0, 0)) == "02:00";
    ParseRuleText(Daily(ClockTime(2, 0, 0)));
    assert RuleText(Weekly(Sunday, ClockTime(4, 0, 0))) == "sunday 04:00";
    ParseRuleText(Weekly(Sunday, ClockTime(4, 0, 0)));
  }

  // ---------------------------------------------------------------------------
  // When a rule next fires

  predicate OccursAt(period: int, offset: int, t: Time)
    requires period > 0
  {
    t % period == offset
  }

  lemma MultipleInOpenInterval(p: int, k: int)
    requires p > 0 && -p < p * k < p
    ensures k == 0
  {
    if k >= 1 {
      MultipleAtLeast(p, k);
    } else if k <= -1 {
      MultipleAtLeast(p, -k);
    }
  }

  lemma {:induction false} MultipleAtLeast(p: int, k: int)
    requires p > 0 && k >= 1
    ensures p * k >= p
    decreases k
  {
    if k > 1 {
      MultipleAtLeast(p, k - 1);
      assert p * k == p * (k - 1) + p;
    }
  }

  lemma ModOfMultiplePlus(p: int, q: int, offset: int)
    requires 0 <= offset < p
    ensures (p * q + offset) % p == offset
  {
    var x := p * q + offset;
    assert x == p * (x / p) + x % p;
    assert p * (q - x / p) == x % p - offset;
    MultipleInOpenInterval(p, q - x / p);
  }

  /** The first moment strictly after `ref` whose remainder modulo `period` is
      `offset`. */
  function NextOccurrence(period: int, offset: int, ref: Time): (r: Time)
    requires 0 <= offset < period
    ensures ref < r <= ref + period
    ensures OccursAt(period, offset, r)
    ensures forall t :: ref < t < r ==> !OccursAt(period, offset, t)
  {
    var q := ref / period;
    var k := if period * q + offset > ref then q else q + 1;
    CandidateInWindow(period, offset, ref, q, k);
    OnlyOccurrenceInWindow(period, offset, ref, k);
    period * k + offset
  }

  /** The candidate multiple lies in the window `(ref, ref + period]`. */
  lemma CandidateInWindow(p: int, offset: int, ref: Time, q: int, k: int)
    requires 0 <= offset < p && q == ref / p
    requires k == if p * q + offset > ref then q else q + 1
    ensures ref < p * k + offset <= ref + p
  {
    assert ref == p * q + ref % p;
    assert p * (q + 1) == p * q + p;
  }

  /** Within a window of one period after `ref`, only one moment has remainder
      `offset`. */
  lemma OnlyOccurrenceInWindow(p: int, offset: int, ref: Time, k: int)
    requires 0 <= offset < p && ref < p * k + offset <= ref + p
    ensures OccursAt(p, offset, p * k + offset)
    ensures forall t :: ref < t < p * k + offset ==> !OccursAt(p, offset, t)
  {
    ModOfMultiplePlus(p, k, offset);
    forall t | ref < t < p * k + offset
      ensures !OccursAt(p, offset, t)
    {
      NoOccurrenceBefore(p, offset, k, t);
    }
  }

  lemma NoOccurrenceBefore(p: int, offset: int, k: int, t: int)
    requires 0 <= offset < p && p * k + offset - p < t < p * k + offset
    ensures t % p != offset
  {
    if t % p == offset {
      var m := t / p;
      assert t == p * m + offset;
      assert p * (k - m) == p * k - p * m;
      MultipleInOpenInterval(p, k - m);
    }
  }

  /** The moment after `ref` at which `rule` fires next: `ref` plus the interval for
      `Every`, otherwise the first later moment at the named minute of the hour, time
      of the day, or weekday and time. */
  function NextRun(rule: Rule, ref: Time): (r: Time)
    requires ValidRule(rule)
    ensures !rule.Every? ==> ref < r <= ref + Week && Matches(rule, r)
  {
    match rule
    case Every(n) => ref + n * Minute
    case Hourly(m) => NextOccurrence(Hour, m * Minute, ref)
    case Daily(c) => NextOccurrence(Day, SecondOfDay(c), ref)
    case Weekly(d, c) => NextOccurrence(Week, DayIndex(d) * Day + SecondOfDay(c), ref)
  }

  /** Whether moment `t` is one of the minute-, time- or weekday-anchored moments of
      `rule` (intervals have no anchor and match nothing). */
  predicate Matches(rule: Rule, t: Time) {
    match rule
    case Every(_) => false
    case Hourly(m) => OccursAt(Hour, m * Minute, t)
    case Daily(c) => OccursAt(Day, SecondOfDay(c), t)
    case Weekly(d, c) => OccursAt(Week, DayIndex(d) * Day + SecondOfDay(c), t)
  }

  /** The next run is strictly after the reference moment, except for intervals of
      zero or fewer minutes, which `int()` lets through and which fire again at once. */
  lemma NextRunIsLater(rule: Rule, ref: Time)
    requires ValidRule(rule)
    ensures NextRun(rule, ref) > ref <==> !(rule.Every? && rule.minutes <= 0)
  {
  }

  /** Anchored rules fire at the soonest anchored moment after the reference, never
      later: no anchored moment lies between the two. */
  lemma NextRunIsSoonest(rule: Rule, ref: Time)
    requires ValidRule(rule) && !rule.Every?
    ensures Matches(rule, NextRun(rule, ref))
    ensures forall t :: ref < t < NextRun(rule, ref) ==> !Matches(rule, t)
  {
  }

  /** Successive firings of an interval rule lie exactly N minutes apart. */
  lemma IntervalSpacing(n: int, t0: Time)
    ensures NextRun(Every(n), NextRun(Every(n), t0)) - NextRun(Every(n), t0) == n * Minute
    ensures NextRun(Every(n), t0) - t0 == n * Minute
  {
  }

  /** The day of the week of a moment (0 for Monday). */
  function DayOfWeek(t: Time): int {
    (t / Day) % 7
  }

  /** A weekly anchor is that weekday at that time of day. */
  lemma WeeklyMeansDayAndTime(d: Weekday, c: ClockTime, t: Time)
    requires ValidClock(c)
    ensures Matches(Weekly(d, c), t) <==> DayOfWeek(t) == DayIndex(d) && t % Day == SecondOfDay(c)
  {
    var w := t / Week;
    var s := t % Week;
    assert t == Week * w + s;
    var days := s / Day;
    var sec := s % Day;
    assert s == Day * days + sec;
    assert 0 <= days < 7;
    assert t == Day * (7 * w + days) + sec;
    ModOfMultiplePlus(Day, 7 * w + days, sec);
    assert t / Day == 7 * w + days by {
      assert t == Day * (t / Day) + t % Day;
      assert Day * (t / Day - (7 * w + days)) == 0;
      MultipleInOpenInterval(Day, t / Day - (7 * w + days));
    }
    ModOfMultiplePlus(7, w, days);
    assert DayIndex(d) * Day + SecondOfDay(c) == Day * DayIndex(d) + SecondOfDay(c);
    if DayOfWeek(t) == DayIndex(d) && t % Day == SecondOfDay(c) {
      assert s == Day * DayIndex(d) + SecondOfDay(c);
    }
    if Matches(Weekly(d, c), t) {
      assert s == Day * DayIndex(d) + SecondOfDay(c);
      assert s / Day == DayIndex(d) && s % Day == SecondOfDay(c) by {
        ModOfMultiplePlus(Day, DayIndex(d), SecondOfDay(c));
        assert s == Day * (s / Day) + s % Day;
        assert Day * (s / Day - DayIndex(d)) == SecondOfDay(c) - s % Day;
        MultipleInOpenInterval(Day, s / Day - DayIndex(d));
      }
    }
  }

  /** Daily "02:00" seen at 10:00 on the clock's first day fires at 02:00 the next
      day; weekly "sunday 04:00" seen on that Monday fires six days later, and seen on
      the Sunday after 04:00 it fires a week on. */
  lemma NextRunExamples()
    ensures NextRun(Daily(ClockTime(2, 0, 0)), 10 * Hour) == Day + 2 * Hour
    ensures NextRun(Weekly(Sunday, ClockTime(4, 0, 0)), 10 * Hour) == 6 * Day + 4 * Hour
    ensures NextRun(Weekly(Sunday, ClockTime(4, 0, 0)), 6 * Day + 5 * Hour) == 13 * Day + 4 * Hour
  {
  }
}
