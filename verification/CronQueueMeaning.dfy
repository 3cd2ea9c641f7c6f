/**
 What the operations of module CronQueue do to the queue, in terms of positions:
 which jobs a pass performs, in which order, and where every job is afterwards.
 */
module CronQueueMeaning {

  import opened Calendar
  import opened CronQueue
  import opened CronRules
  import opened CronSearch
  import opened CronTheorems
  import opened CronJob
  import opened Instants
  import opened Results

  /** Positions in a queue of `n` jobs, in queue order. */
  ghost predicate Positions(idx: seq<nat>, n: nat) {
    && (forall a :: 0 <= a < |idx| ==> idx[a] < n)
    && forall a, b :: 0 <= a < b < |idx| ==> idx[a] < idx[b]
  }

  /** One job more, taken or not. */
  function Taken(idx: seq<nat>, n: nat, take: bool): seq<nat> {
    if take then idx + [n] else idx
  }

  lemma TakenPositions(idx: seq<nat>, n: nat, take: bool)
    requires Positions(idx, n)
    ensures Positions(Taken(idx, n, take), n + 1)
    ensures forall i :: 0 <= i <= n ==> (i in Taken(idx, n, take) <==> if i == n then take else i in idx)
  {
  }

  /** What was performed: the jobs at the positions `due`, each for the time it waited for. */
  ghost predicate Performed(jobs: seq<Job>, due: seq<nat>, fired: seq<(int, int)>) {
    && Positions(due, |jobs|) && |fired| == |due|
    && forall a :: 0 <= a < |due| ==> fired[a] == (jobs[due[a]].id, jobs[due[a]].nextTime)
  }

  /** `Due` lists the jobs whose time has come, in queue order. */
  lemma {:induction false} DueMeans(s: seq<Job>, current: int) returns (due: seq<nat>)
    ensures Performed(s, due, Due(s, current))
    ensures forall i :: 0 <= i < |s| ==> (i in due <==> s[i].nextTime <= current)
  {
    if s == [] {
      due := [];
    } else {
      var n := |s| - 1;
      var before := DueMeans(s[..n], current);
      due := Taken(before, n, s[n].nextTime <= current);
      TakenPositions(before, n, s[n].nextTime <= current);
      DueStep(s, n, current);
      assert s[..n + 1] == s;
    }
  }

  /** The jobs at the positions `idx`. */
  ghost predicate Listed(jobs: seq<Job>, idx: seq<nat>, listed: seq<Job>) {
    && Positions(idx, |jobs|) && |listed| == |idx|
    && forall a :: 0 <= a < |idx| ==> listed[a] == jobs[idx[a]]
  }

  lemma ListedLast(jobs: seq<Job>, idx: seq<nat>, listed: seq<Job>, n: nat, take: bool)
    requires n + 1 == |jobs| && Listed(jobs[..n], idx, listed)
    ensures Listed(jobs, Taken(idx, n, take), listed + (if take then [jobs[n]] else []))
  {
  }

  /** `At` lists the jobs of one time, in queue order. */
  lemma {:induction false} AtMeans(s: seq<Job>, t: int) returns (idx: seq<nat>)
    ensures Listed(s, idx, At(s, t))
    ensures forall i :: 0 <= i < |s| ==> (i in idx <==> s[i].nextTime == t)
  {
    if s == [] {
      idx := [];
    } else {
      var n, take := |s| - 1, s[|s| - 1].nextTime == t;
      var before := AtMeans(s[..n], t);
      idx := Taken(before, n, take);
      TakenPositions(before, n, take);
      ListedLast(s, before, At(s[..n], t), n, take);
      AtLast(s, t);
    }
  }

  lemma AtLast(s: seq<Job>, t: int)
    requires s != []
    ensures At(s, t) == At(s[..|s| - 1], t) + (if s[|s| - 1].nextTime == t then [s[|s| - 1]] else [])
  {
    AtAppend(s[..|s| - 1], s[|s| - 1], t);
    assert s[..|s| - 1] + [s[|s| - 1]] == s;
  }

  /** The job with its new time if it is due. */
  ghost predicate IsMoved(j: Job, current: int, next: int, j': Job) {
    j' == if j.nextTime <= current then Job(j.id, j.spec, next) else j
  }

  /**
   A pass performs the due jobs in queue order, none after a change of the clock,
   gives each its new time and no other, and sorts, which keeps the order of jobs
   with one time.
   */
  lemma PassMeans(q: Queue, current: int, timeChanged: bool, nexts: seq<int>) returns (moved: seq<Job>, due: seq<nat>)
    requires |nexts| == |q.jobs|
    ensures |moved| == |q.jobs| && forall k :: 0 <= k < |moved| ==> IsMoved(q.jobs[k], current, nexts[k], moved[k])
    ensures forall i :: 0 <= i < |q.jobs| ==> (i in due <==> !timeChanged && q.jobs[i].nextTime <= current)
    ensures var q' := PassOver(q, current, timeChanged, nexts);
            && Sorted(q'.jobs) && multiset(q'.jobs) == multiset(moved) && (forall t :: At(q'.jobs, t) == At(moved, t))
            && q'.nextJobId == q.nextJobId
            && q.fired <= q'.fired && Performed(q.jobs, due, q'.fired[|q.fired|..])
  {
    var all := ScanOver(q, current, timeChanged, nexts);
    ScanJobs(q, current, timeChanged, nexts);
    moved := all.jobs;
    SortSorts(moved);
    forall t
      ensures At(Sort(moved), t) == At(moved, t)
    {
      SortIsStable(moved, t);
    }
    assert q.jobs[..|nexts|] == q.jobs;
    due := DueMeans(q.jobs, current);
    if timeChanged {
      due := [];
    }
  }

  /**
   Ending the worker takes out the job at the position reached and sorts nothing:
   the jobs before it have their new times, those after it are as they were.
   */
  lemma QuitMeans(q: Queue, current: int, nexts: seq<int>) returns (due: seq<nat>)
    requires |nexts| < |q.jobs| && UniqueIds(q.jobs)
    ensures forall i :: 0 <= i < |nexts| ==> (i in due <==> q.jobs[i].nextTime <= current)
    ensures var q', n := QuitOver(q, current, nexts), |nexts|;
            && |q'.jobs| == |q.jobs| - 1 && q'.jobs[n..] == q.jobs[n + 1..]
            && (forall k :: 0 <= k < n ==> IsMoved(q.jobs[k], current, nexts[k], q'.jobs[k]))
            && q'.nextJobId == q.nextJobId
            && q.fired <= q'.fired && Performed(q.jobs, due + [n], q'.fired[|q.fired|..])
  {
    var n := |nexts|;
    QuitJobs(q, current, nexts);
    due := DueMeans(q.jobs[..n], current);
    PerformedLast(q.jobs, due, Due(q.jobs[..n], current), n);
    assert QuitOver(q, current, nexts).fired
      == q.fired + Due(q.jobs[..n], current) + [(q.jobs[n].id, q.jobs[n].nextTime)]
      == q.fired + (Due(q.jobs[..n], current) + [(q.jobs[n].id, q.jobs[n].nextTime)]);
  }

  lemma PerformedLast(jobs: seq<Job>, due: seq<nat>, fired: seq<(int, int)>, n: nat)
    requires n < |jobs| && Performed(jobs[..n], due, fired)
    ensures Performed(jobs, due + [n], fired + [(jobs[n].id, jobs[n].nextTime)])
  {
  }

  lemma QuitJobs(q: Queue, current: int, nexts: seq<int>)
    requires |nexts| < |q.jobs| && UniqueIds(q.jobs)
    ensures var jobs, n := QuitOver(q, current, nexts).jobs, |nexts|;
            && |jobs| == |q.jobs| - 1 && jobs[n..] == q.jobs[n + 1..]
            && forall k :: 0 <= k < n ==> IsMoved(q.jobs[k], current, nexts[k], jobs[k])
  {
    var all, n := ScanOver(q, current, false, nexts).jobs, |nexts|;
    ScanJobs(q, current, false, nexts);
    SameIdsUnique(q.jobs, all);
    assert all[n] == q.jobs[n];
    WithoutOne(all, n);
    TakenOut(all, q.jobs, n);
  }

  lemma SameIdsUnique(a: seq<Job>, b: seq<Job>)
    requires UniqueIds(a) && |a| == |b| && forall k :: 0 <= k < |a| ==> a[k].id == b[k].id
    ensures UniqueIds(b)
  {
  }

  /** Two queues that agree from position `n` on agree behind it when the job there is taken out of one. */
  lemma TakenOut(a: seq<Job>, b: seq<Job>, n: nat)
    requires |a| == |b| && n < |a| && forall k :: n <= k < |a| ==> a[k] == b[k]
    ensures var left := a[..n] + a[n + 1..];
            |left| == |a| - 1 && left[n..] == b[n + 1..] && forall k :: 0 <= k < n ==> left[k] == a[k]
  {
  }

  /** `t` is the POSIX time of a whole minute. */
  ghost predicate IsMinute(x: Instant, t: int) {
    var yday := x[MDAY] - 1 + DaysBeforeMonth(ZeroBasedMonth(x[MONTH]), x[YEAR]);
    RealInstant(x) && t == PosixSeconds(x[YEAR] - 1900, yday, x[HOUR], x[MINUTE], 0)
  }

  /** A rescheduled job waits for the whole minute that `calcNext` found, in POSIX seconds. */
  lemma NextTimeMeans(j: Job, reading: Clock, t: int)
    requires reading.Valid() && IsNextTime(j, reading, t)
    ensures exists x: Instant :: IsOutcome(j.spec, reading.civil, Success(x)) && IsMinute(x, t)
  {
    var x: Instant :| IsOutcome(j.spec, reading.civil, Success(x)) && t == Timestamp(x, 0);
    OutcomeIsReal(j.spec, reading, x);
    MinuteOfInstant(x);
  }

  lemma OutcomeIsReal(spec: Timespec, reading: Clock, x: Instant)
    requires reading.Valid() && IsOutcome(spec, reading.civil, Success(x))
    ensures RealInstant(x) && x[YEAR] >= 1970
  {
    var now := reading.civil;
    RealInCalendar(now);
    var r := MakeRules(spec, now[YEAR]).value;
    var n: nat :| HaltsWithin(r, now, n) && Success(x) == Outcome(After(r, now, n));
    FoundInRange(r, now, n);
    RunInv(r, now, n);
  }

  lemma MinuteOfInstant(x: Instant)
    requires RealInstant(x) && x[YEAR] >= 1970
    ensures IsMinute(x, Timestamp(x, 0))
  {
    MakeTimeIsPosix(x[YEAR], x[MONTH], x[MDAY], x[HOUR], x[MINUTE], 0);
  }
}
