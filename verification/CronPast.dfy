/**
 Jobs that have no run left: the search restarts at the first year, so that the
 job gets a time that has passed and is performed again for it.
 */
module CronPast {

  import opened Calendar
  import opened CronJob
  import CronLimits
  import opened CronQueue
  import opened CronRules
  import opened CronSearch
  import opened CronTheorems
  import opened Instants
  import opened Results

  /** A job performed again for a time that is not later: the performed times of the job no longer increase. */
  lemma FiresOutOfOrder(q: Queue, i: nat, current: int, nexts: seq<int>, current': int, nexts': seq<int>)
    requires Kept(q) && |nexts| == |q.jobs| == |nexts'|
    requires i < |q.jobs| && q.jobs[i].nextTime <= current && nexts[i] <= q.jobs[i].nextTime && nexts[i] <= current'
    ensures |PassOver(q, current, false, nexts).jobs| == |nexts'|
    ensures !FiredInOrder(PassOver(PassOver(q, current, false, nexts), current', false, nexts').fired)
  {
    var once := PassOver(q, current, false, nexts);
    StaysQueued(q, i, current, nexts);
    assert q.jobs[..|nexts|] == q.jobs;
    DueHas(q.jobs, current, i);
    var again := q.jobs[i].(nextTime := nexts[i]);
    var k :| 0 <= k < |once.jobs| && once.jobs[k] == again;
    DueHas(once.jobs, current', k);
    assert once.jobs[..|nexts'|] == once.jobs;
    NotInOrder(once.fired, Due(once.jobs, current'), (again.id, q.jobs[i].nextTime), (again.id, nexts[i]));
  }

  lemma StaysQueued(q: Queue, i: nat, current: int, nexts: seq<int>)
    requires |nexts| == |q.jobs| && i < |q.jobs| && q.jobs[i].nextTime <= current
    ensures var once := PassOver(q, current, false, nexts);
            |once.jobs| == |q.jobs| && q.jobs[i].(nextTime := nexts[i]) in once.jobs
  {
    var jobs := ScanOver(q, current, false, nexts).jobs;
    ScanJobs(q, current, false, nexts);
    SortSorts(jobs);
    assert |Sort(jobs)| == |multiset(Sort(jobs))| == |multiset(jobs)|;
    assert jobs[i] in jobs;
  }

  lemma NotInOrder(f: seq<(int, int)>, g: seq<(int, int)>, a: (int, int), b: (int, int))
    requires a in f && b in g && a.0 == b.0 && b.1 <= a.1
    ensures !FiredInOrder(f + g)
  {
    var i :| 0 <= i < |f| && f[i] == a;
    var j :| 0 <= j < |g| && g[j] == b;
    assert (f + g)[i] == a && (f + g)[|f| + j] == b;
  }

  /** The job has robust rules whose years end before 2099, some instant matches, and none of them lies ahead. */
  ghost predicate HasOnlyPastRuns(spec: Timespec, now: Instant) {
    var rules := MakeRules(spec, now[YEAR]);
    && rules.Success? && Robust(rules.value, now[YEAR]) && rules.value.fields[YEAR].hi < MAX_YEAR
    && (exists m: Instant :: Matches(rules.value, m)) && NoMatchAfter(rules.value, now)
  }

  /** Such a job gets the time of its first match of all, which has passed and is not later than any run it had. */
  lemma GetsFirstMatch(spec: Timespec, clock: Clock, o: Result<Instant, CronError>)
    requires clock.Valid() && HasOnlyPastRuns(spec, clock.civil) && IsOutcome(spec, clock.civil, o)
    ensures o.Success? && Matches(MakeRules(spec, clock.civil[YEAR]).value, o.value)
    ensures Timestamp(o.value, 0) <= clock.Time()
    ensures forall m: Instant :: Matches(MakeRules(spec, clock.civil[YEAR]).value, m) ==>
      Timestamp(o.value, 0) <= Timestamp(m, 0)
  {
    var now := clock.civil;
    RealInCalendar(now);
    var r := MakeRules(spec, now[YEAR]).value;
    var m: Instant :| Matches(r, m);
    var n := ReturnsPastRun(r, now, m);
    var n' :| HaltsWithin(r, now, n') && o == Outcome(After(r, now, n'));
    OutcomeUnique(r, now, n, n');
    var c := After(r, now, n).c;
    FoundInRange(r, now, n);
    MatchIsReal(r, now[YEAR], c);
    MakeTimeEmbedsOrder(now, c, clock.second, 0);
    MakeTimeEmbedsOrder(c, now, 0, clock.second);
    forall x: Instant | Matches(r, x)
      ensures Timestamp(c, 0) <= Timestamp(x, 0)
    {
      MatchIsReal(r, now[YEAR], x);
      MakeTimeEmbedsOrder(x, c, 0, 0);
    }
  }

  lemma MatchIsReal(r: FiveRules, year: int, m: Instant)
    requires WellFormed(r, year) && year >= 1970 && Matches(r, m)
    ensures RealInstant(m) && m[YEAR] >= 1970
  {
    assert forall k :: 0 <= k < 7 ==> RuleValid(r, k, m);
    assert RuleValid(r, 0, m) && RuleValid(r, 1, m) && RuleValid(r, 2, m) && RuleValid(r, 3, m) && RuleValid(r, 4, m)
      && RuleValid(r, 6, m);
  }

  /** The i-th job is due for the match `m` and has no run ahead of a clock reading taken between two passes. */
  ghost predicate PastRunDue(q: Queue, i: nat, m: Instant, clock: Clock, t: int, current: int, current': int) {
    && Kept(q) && i < |q.jobs|
    && clock.Valid() && current <= clock.Time() <= current' && HasOnlyPastRuns(q.jobs[i].spec, clock.civil)
    && Matches(MakeRules(q.jobs[i].spec, clock.civil[YEAR]).value, m)
      && q.jobs[i].nextTime == Timestamp(m, 0) <= current
    && IsNextTime(q.jobs[i], clock, t)
  }

  /**
   The next two passes perform such a job for that run and then for one that is
   not later.
   */
  lemma PastRunFiresAgain(q: Queue, i: nat, m: Instant, clock: Clock, nexts: seq<int>, current: int, current': int,
      nexts': seq<int>)
    requires |nexts| == |q.jobs| == |nexts'| && i < |nexts| && PastRunDue(q, i, m, clock, nexts[i], current, current')
    ensures nexts[i] <= q.jobs[i].nextTime && !Kept(PassOver(q, current, false, nexts))
    ensures |PassOver(q, current, false, nexts).jobs| == |nexts'|
    ensures !FiredInOrder(PassOver(PassOver(q, current, false, nexts), current', false, nexts').fired)
  {
    var x: Instant :| IsOutcome(q.jobs[i].spec, clock.civil, Success(x)) && nexts[i] == Timestamp(x, 0);
    GetsFirstMatch(q.jobs[i].spec, clock, Success(x));
    assert !GetsLater(q, i, false, nexts[i]);
    PassConsistentIff(q, current, false, nexts);
    FiresOutOfOrder(q, i, current, nexts, current', nexts');
  }

  /** A job for every minute of a year, due in the last one, gets the first one. */
  lemma PastRunInstance(year: int)
    requires 1970 <= year < MAX_YEAR
    ensures var now, first := CronLimits.LastMinute(year), CronLimits.FirstMinute(year);
            var last := Timestamp(now, 0);
            var q := Queue([Job(1, CronLimits.EveryMinuteOf(year), last)], 2, []);
            PastRunDue(q, 0, now, Clock(now, 0), Timestamp(first, 0), last, last)
  {
    var now, first := CronLimits.LastMinute(year), CronLimits.FirstMinute(year);
    CronLimits.MatchesOfYear(year);
    var n := CronLimits.ReturnsPastInstant(year);
    assert DaysPerMonth(12, year) == 31;
    assert IsOutcome(CronLimits.EveryMinuteOf(year), now, Success(first));
  }
}
