/**
 The job queue of CronImpl: `addJob`, `removeJob` and the worker pass over due
 jobs, with the clock read as UTC civil time. States are values, so that runs
 are sequences of events; the class at the end performs the same operations in
 place.
 */
module CronQueue {

  import opened Calendar
  import opened CronRules
  import opened CronSearch
  import opened CronTheorems
  import opened CronJob
  import opened Instants
  import opened Results

  const INVALID_JOB_ID := -1

  datatype Job = Job(id: int, spec: Timespec, nextTime: int)

  /** `fired` lists, oldest first, which job was performed for which scheduled time. */
  datatype Queue = Queue(jobs: seq<Job>, nextJobId: int, fired: seq<(int, int)>)

  // ----- std::list::sort, which is stable

  function Insert(j: Job, s: seq<Job>): seq<Job> {
    if s == [] || j.nextTime <= s[0].nextTime then [j] + s else [s[0]] + Insert(j, s[1..])
  }

  function Sort(s: seq<Job>): seq<Job> {
    if s == [] then [] else Insert(s[0], Sort(s[1..]))
  }

  ghost predicate Sorted(s: seq<Job>) {
    forall i, j :: 0 <= i < j < |s| ==> s[i].nextTime <= s[j].nextTime
  }

  /** The jobs due at one time, in queue order. */
  ghost function At(s: seq<Job>, t: int): seq<Job> {
    if s == [] then [] else (if s[0].nextTime == t then [s[0]] else []) + At(s[1..], t)
  }

  lemma {:induction false} InsertContents(j: Job, s: seq<Job>)
    ensures multiset(Insert(j, s)) == multiset{j} + multiset(s)
    ensures forall k :: k in Insert(j, s) <==> k == j || k in s
  {
    if s != [] && j.nextTime > s[0].nextTime {
      InsertContents(j, s[1..]);
      assert s == [s[0]] + s[1..];
    }
  }

  lemma {:induction false} InsertSorts(j: Job, s: seq<Job>)
    requires Sorted(s)
    ensures Sorted(Insert(j, s))
  {
    if s != [] && j.nextTime > s[0].nextTime {
      InsertSorts(j, s[1..]);
      InsertContents(j, s[1..]);
      ConsSorted(s[0], Insert(j, s[1..]));
    } else {
      ConsSorted(j, s);
    }
  }

  lemma ConsSorted(j: Job, s: seq<Job>)
    requires Sorted(s) && forall k :: k in s ==> j.nextTime <= k.nextTime
    ensures Sorted([j] + s)
  {
  }

  lemma ConsAt(j: Job, s: seq<Job>, t: int)
    ensures At([j] + s, t) == (if j.nextTime == t then [j] else []) + At(s, t)
  {
    assert ([j] + s)[1..] == s;
  }

  lemma {:induction false} InsertIsStable(j: Job, s: seq<Job>, t: int)
    ensures At(Insert(j, s), t) == At([j] + s, t)
  {
    ConsAt(j, s, t);
    if s != [] && j.nextTime > s[0].nextTime {
      InsertIsStable(j, s[1..], t);
      ConsAt(s[0], Insert(j, s[1..]), t);
      ConsAt(j, s[1..], t);
    }
  }

  lemma {:induction false} InsertKeepsIds(j: Job, s: seq<Job>)
    requires UniqueIds(s) && forall k :: k in s ==> k.id != j.id
    ensures UniqueIds(Insert(j, s))
  {
    if s != [] && j.nextTime > s[0].nextTime {
      InsertKeepsIds(j, s[1..]);
      InsertContents(j, s[1..]);
      assert forall k :: k in s[1..] ==> k.id != s[0].id;
    }
  }

  /** Sorting yields the same jobs in time order. */
  lemma {:induction false} SortSorts(s: seq<Job>)
    ensures Sorted(Sort(s)) && multiset(Sort(s)) == multiset(s)
    ensures forall k :: k in Sort(s) <==> k in s
  {
    if s == [] {
    } else {
      SortSorts(s[1..]);
      InsertSorts(s[0], Sort(s[1..]));
      InsertContents(s[0], Sort(s[1..]));
      assert s == [s[0]] + s[1..];
    }
  }

  lemma {:induction false} SortKeepsIds(s: seq<Job>)
    requires UniqueIds(s)
    ensures UniqueIds(Sort(s))
  {
    if s == [] {
    } else {
      SortSorts(s[1..]);
      SortKeepsIds(s[1..]);
      assert forall k :: k in s[1..] ==> k.id != s[0].id;
      InsertKeepsIds(s[0], Sort(s[1..]));
    }
  }

  /** Jobs with equal times keep their order. */
  lemma {:induction false} SortIsStable(s: seq<Job>, t: int)
    ensures At(Sort(s), t) == At(s, t)
  {
    if s == [] {
    } else {
      SortSorts(s[1..]);
      SortIsStable(s[1..], t);
      InsertIsStable(s[0], Sort(s[1..]), t);
      ConsAt(s[0], Sort(s[1..]), t);
    }
  }

  // ----- operations on values

  function AddScheduled(q: Queue, spec: Timespec, time: int): Queue {
    q.(jobs := Sort(q.jobs + [Job(q.nextJobId, spec, time)]), nextJobId := q.nextJobId + 1)
  }

  function Without(s: seq<Job>, id: int): seq<Job> {
    if s == [] then [] else if s[0].id == id then Without(s[1..], id) else [s[0]] + Without(s[1..], id)
  }

  /** Every due job gets its new time. */
  function Rescheduled(s: seq<Job>, current: int, nexts: seq<int>): (s': seq<Job>)
    requires |nexts| == |s|
    ensures |s'| == |s|
    ensures forall i :: 0 <= i < |s| ==> s'[i] == if s[i].nextTime <= current then s[i].(nextTime := nexts[i]) else s[i]
  {
    seq(|s|, i requires 0 <= i < |s| => if s[i].nextTime <= current then s[i].(nextTime := nexts[i]) else s[i])
  }

  function Due(s: seq<Job>, current: int): seq<(int, int)> {
    if s == [] then [] else (if s[0].nextTime <= current then [(s[0].id, s[0].nextTime)] else []) + Due(s[1..], current)
  }

  /** The queue when a pass has handled as many jobs as there are new times; after a clock change none is performed. */
  function ScanOver(q: Queue, current: int, timeChanged: bool, nexts: seq<int>): Queue
    requires |nexts| <= |q.jobs|
  {
    var i := |nexts|;
    q.(jobs := Rescheduled(q.jobs[..i], current, nexts) + q.jobs[i..],
       fired := q.fired + (if timeChanged then [] else Due(q.jobs[..i], current)))
  }

  /** A worker pass whose callbacks return true. */
  function PassOver(q: Queue, current: int, timeChanged: bool, nexts: seq<int>): Queue
    requires |nexts| == |q.jobs|
  {
    var all := ScanOver(q, current, timeChanged, nexts);
    all.(jobs := Sort(all.jobs))
  }

  /**
   A worker pass that ends the worker: the first job without a new time is
   performed, its callback returns false, and it is removed. The queue is not
   sorted.
   */
  function QuitOver(q: Queue, current: int, nexts: seq<int>): Queue
    requires |nexts| < |q.jobs|
  {
    var handled, j := ScanOver(q, current, false, nexts), q.jobs[|nexts|];
    handled.(jobs := Without(handled.jobs, j.id), fired := handled.fired + [(j.id, j.nextTime)])
  }

  datatype Event =
    | Add(spec: Timespec, time: int)
    | AddFails
    | Remove(id: int)
    | WorkerPass(current: int, timeChanged: bool, nexts: seq<int>)
    | WorkerQuits(current: int, nexts: seq<int>)

  /** A pass has a new time for every job; the worker ends at a job that is due. */
  ghost predicate Fits(q: Queue, e: Event) {
    && (e.WorkerPass? ==> |e.nexts| == |q.jobs|)
    && (e.WorkerQuits? ==> |e.nexts| < |q.jobs| && q.jobs[|e.nexts|].nextTime <= e.current)
  }

  function Apply(q: Queue, e: Event): Queue
    requires e.WorkerPass? ==> |e.nexts| == |q.jobs|
    requires e.WorkerQuits? ==> |e.nexts| < |q.jobs|
  {
    match e
    case Add(spec, time) => AddScheduled(q, spec, time)
    case AddFails => q
    case Remove(id) => q.(jobs := Without(q.jobs, id))
    case WorkerPass(current, timeChanged, nexts) => PassOver(q, current, timeChanged, nexts)
    case WorkerQuits(current, nexts) => QuitOver(q, current, nexts)
  }

  ghost predicate UniqueIds(s: seq<Job>) {
    forall i, j :: 0 <= i < j < |s| ==> s[i].id != s[j].id
  }

  /** The times for which one job was performed strictly increase. */
  ghost predicate FiredInOrder(f: seq<(int, int)>) {
    forall i, j :: 0 <= i < j < |f| && f[i].0 == f[j].0 ==> f[i].1 < f[j].1
  }

  /** No job waits for a time at or before one it was performed for. */
  ghost predicate AllBefore(fired: seq<(int, int)>, jobs: seq<Job>) {
    forall f, j :: f in fired && j in jobs && f.0 == j.id ==> f.1 < j.nextTime
  }

  /** What holds of the queue in any order: unique ids below the next id, and performed times that increase. */
  ghost predicate Kept(q: Queue) {
    && 1 <= q.nextJobId
    && UniqueIds(q.jobs)
    && (forall j :: j in q.jobs ==> 1 <= j.id < q.nextJobId)
    && FiredInOrder(q.fired)
    && (forall f :: f in q.fired ==> f.0 < q.nextJobId)
    && AllBefore(q.fired, q.jobs)
  }

  ghost predicate Consistent(q: Queue) {
    Kept(q) && Sorted(q.jobs)
  }

  /**
   Each due job gets a time later than the one it is performed for, or, where it
   is not performed, later than those it was performed for before.
   */
  ghost predicate Later(q: Queue, current: int, timeChanged: bool, nexts: seq<int>)
    requires |nexts| <= |q.jobs|
  {
    forall k :: 0 <= k < |nexts| && q.jobs[k].nextTime <= current ==> GetsLater(q, k, timeChanged, nexts[k])
  }

  ghost predicate GetsLater(q: Queue, k: nat, timeChanged: bool, t: int)
    requires k < |q.jobs|
  {
    if timeChanged then forall f :: f in q.fired && f.0 == q.jobs[k].id ==> f.1 < t else q.jobs[k].nextTime < t
  }

  ghost predicate Possible(q: Queue, e: Event) {
    && Fits(q, e)
    && (e.WorkerPass? ==> Later(q, e.current, e.timeChanged, e.nexts))
    && (e.WorkerQuits? ==> Later(q, e.current, false, e.nexts))
  }

  // ----- what the operations keep

  lemma {:induction false} WithoutContents(s: seq<Job>, id: int)
    ensures forall j :: j in Without(s, id) <==> j in s && j.id != id
  {
    if s == [] {
    } else {
      WithoutContents(s[1..], id);
      assert s == [s[0]] + s[1..];
    }
  }

  lemma {:induction false} WithoutKeeps(s: seq<Job>, id: int)
    ensures Sorted(s) ==> Sorted(Without(s, id))
    ensures UniqueIds(s) ==> UniqueIds(Without(s, id))
  {
    if s == [] {
    } else {
      var t := s[1..];
      WithoutKeeps(t, id);
      WithoutContents(t, id);
      if Sorted(s) {
        assert forall j :: j in t ==> s[0].nextTime <= j.nextTime;
        ConsSorted(s[0], Without(t, id));
      }
      if UniqueIds(s) {
        assert forall j :: j in t ==> s[0].id != j.id;
        ConsUnique(s[0], Without(t, id));
      }
    }
  }

  /** With unique ids removing one takes its job out and leaves the others where they were. */
  lemma RemoveMeans(s: seq<Job>, id: int)
    requires UniqueIds(s)
    ensures !HasId(s, id) ==> Without(s, id) == s
    ensures forall i :: 0 <= i < |s| && s[i].id == id ==> Without(s, id) == s[..i] + s[i + 1..]
  {
    if !HasId(s, id) {
      WithoutNone(s, id);
    }
    forall i | 0 <= i < |s| && s[i].id == id
      ensures Without(s, id) == s[..i] + s[i + 1..]
    {
      WithoutOne(s, i);
    }
  }

  lemma {:induction false} WithoutNone(s: seq<Job>, id: int)
    requires forall j :: j in s ==> j.id != id
    ensures Without(s, id) == s
  {
    if s == [] {
    } else {
      WithoutNone(s[1..], id);
      assert s[0] in s;
    }
  }

  lemma {:induction false} WithoutOne(s: seq<Job>, i: nat)
    requires UniqueIds(s) && i < |s|
    ensures Without(s, s[i].id) == s[..i] + s[i + 1..]
  {
    if i == 0 {
      WithoutNone(s[1..], s[0].id);
    } else {
      WithoutOne(s[1..], i - 1);
      assert s[..i] + s[i + 1..] == [s[0]] + (s[1..][..i - 1] + s[1..][i..]);
    }
  }

  lemma ConsUnique(j: Job, s: seq<Job>)
    requires UniqueIds(s) && forall k :: k in s ==> j.id != k.id
    ensures UniqueIds([j] + s)
  {
  }

  lemma {:induction false} DueLists(s: seq<Job>, current: int)
    ensures forall f :: f in Due(s, current) ==>
      exists k :: 0 <= k < |s| && s[k].nextTime <= current && f == (s[k].id, s[k].nextTime)
  {
    if s == [] {
    } else {
      var t := s[1..];
      DueLists(t, current);
      forall f | f in Due(t, current)
        ensures exists k :: 0 <= k < |s| && s[k].nextTime <= current && f == (s[k].id, s[k].nextTime)
      {
        var k :| 0 <= k < |t| && t[k].nextTime <= current && f == (t[k].id, t[k].nextTime);
        assert s[k + 1] == t[k];
      }
    }
  }

  lemma {:induction false} DueOnce(s: seq<Job>, current: int)
    requires UniqueIds(s)
    ensures forall a, b :: 0 <= a < b < |Due(s, current)| ==> Due(s, current)[a].0 != Due(s, current)[b].0
  {
    if s == [] {
    } else {
      var t := s[1..];
      DueOnce(t, current);
      DueLists(t, current);
      forall b | 0 <= b < |Due(t, current)|
        ensures Due(t, current)[b].0 != s[0].id
      {
        var f := Due(t, current)[b];
        assert f in Due(t, current);
        var k :| 0 <= k < |t| && t[k].nextTime <= current && f == (t[k].id, t[k].nextTime);
        assert s[k + 1] == t[k];
      }
    }
  }

  lemma {:induction false} DueHas(s: seq<Job>, current: int, i: nat)
    requires i < |s| && s[i].nextTime <= current
    ensures (s[i].id, s[i].nextTime) in Due(s, current)
  {
    if i == 0 {
    } else {
      DueHas(s[1..], current, i - 1);
    }
  }

  // ----- every event

  lemma AddConsistent(q: Queue, spec: Timespec, time: int)
    requires Kept(q)
    ensures Consistent(AddScheduled(q, spec, time))
  {
    var jobs := q.jobs + [Job(q.nextJobId, spec, time)];
    SortSorts(jobs);
    SortKeepsIds(jobs);
  }

  /**
   Adding a job puts it among the others in order of time, after those of its own
   time, which stay as they are.
   */
  lemma AddMeans(q: Queue, spec: Timespec, time: int)
    ensures var q', job := AddScheduled(q, spec, time), Job(q.nextJobId, spec, time);
            && Sorted(q'.jobs) && multiset(q'.jobs) == multiset(q.jobs) + multiset{job}
            && (forall t :: At(q'.jobs, t) == At(q.jobs, t) + (if t == time then [job] else []))
            && q'.nextJobId == q.nextJobId + 1 && q'.fired == q.fired
  {
    var job := Job(q.nextJobId, spec, time);
    SortSorts(q.jobs + [job]);
    forall t
      ensures At(Sort(q.jobs + [job]), t) == At(q.jobs, t) + (if t == time then [job] else [])
    {
      SortIsStable(q.jobs + [job], t);
      AtAppend(q.jobs, job, t);
    }
  }

  lemma {:induction false} AtAppend(s: seq<Job>, j: Job, t: int)
    ensures At(s + [j], t) == At(s, t) + (if t == j.nextTime then [j] else [])
  {
    if s == [] {
      assert [] + [j] == [j] && [j][1..] == [];
    } else {
      AtAppend(s[1..], j, t);
      assert (s + [j])[1..] == s[1..] + [j];
    }
  }

  lemma RemoveKept(q: Queue, id: int)
    requires Kept(q)
    ensures Kept(q.(jobs := Without(q.jobs, id))) && (Sorted(q.jobs) ==> Sorted(Without(q.jobs, id)))
  {
    WithoutContents(q.jobs, id);
    WithoutKeeps(q.jobs, id);
  }

  lemma FiredGrows(q: Queue, current: int, due: seq<(int, int)>)
    requires Kept(q) && (due == [] || due == Due(q.jobs, current))
    ensures FiredInOrder(q.fired + due) && forall f :: f in q.fired + due ==> f.0 < q.nextJobId
  {
    DueLists(q.jobs, current);
    DueOnce(q.jobs, current);
    forall f | f in due
      ensures f.0 < q.nextJobId && forall g :: g in q.fired && g.0 == f.0 ==> g.1 < f.1
    {
      var k :| 0 <= k < |q.jobs| && q.jobs[k].nextTime <= current && f == (q.jobs[k].id, q.jobs[k].nextTime);
      assert q.jobs[k] in q.jobs;
    }
    var all := q.fired + due;
    assert forall i, j :: |q.fired| <= i < j < |all| ==> all[i].0 != all[j].0;
    forall i, j | 0 <= i < j < |all| && all[i].0 == all[j].0
      ensures all[i].1 < all[j].1
    {
      if j >= |q.fired| {
        assert all[i] in q.fired && all[j] in due;
      }
    }
  }

  /** The queue with its first `n` jobs only. */
  lemma PrefixKept(q: Queue, n: nat)
    requires Kept(q) && n <= |q.jobs|
    ensures Kept(q.(jobs := q.jobs[..n]))
  {
    assert forall j :: j in q.jobs[..n] ==> j in q.jobs;
  }

  /** A scan changes the times of due jobs, position by position, and nothing else. */
  lemma ScanJobs(q: Queue, current: int, timeChanged: bool, nexts: seq<int>)
    requires |nexts| <= |q.jobs|
    ensures var jobs := ScanOver(q, current, timeChanged, nexts).jobs;
            && |jobs| == |q.jobs|
            && forall k :: 0 <= k < |jobs| ==>
                 jobs[k] == if k < |nexts| && q.jobs[k].nextTime <= current then q.jobs[k].(nextTime := nexts[k])
                            else q.jobs[k]
  {
  }

  /** After the scan, a performed time is before the time its job waits for. */
  lemma FiredBefore(q: Queue, current: int, timeChanged: bool, nexts: seq<int>, f: (int, int), k: nat)
    requires Kept(q) && |nexts| <= |q.jobs| && Later(q, current, timeChanged, nexts) && k < |q.jobs|
    requires f in q.fired || (!timeChanged && f in Due(q.jobs[..|nexts|], current))
    requires f.0 == q.jobs[k].id
    ensures |ScanOver(q, current, timeChanged, nexts).jobs| == |q.jobs|
    ensures f.1 < ScanOver(q, current, timeChanged, nexts).jobs[k].nextTime
  {
    ScanJobs(q, current, timeChanged, nexts);
    assert q.jobs[k] in q.jobs;
    if k < |nexts| && q.jobs[k].nextTime <= current {
      assert GetsLater(q, k, timeChanged, nexts[k]);
    }
    if f !in q.fired {
      PrefixKept(q, |nexts|);
      DueLists(q.jobs[..|nexts|], current);
      var m :| 0 <= m < |nexts| && q.jobs[m].nextTime <= current && f == (q.jobs[m].id, q.jobs[m].nextTime);
      assert m == k;
    }
  }

  lemma LaterKeeps(q: Queue, current: int, timeChanged: bool, nexts: seq<int>)
    requires Kept(q) && |nexts| <= |q.jobs| && Later(q, current, timeChanged, nexts)
    ensures Kept(ScanOver(q, current, timeChanged, nexts))
  {
    var q' := ScanOver(q, current, timeChanged, nexts);
    ScanJobs(q, current, timeChanged, nexts);
    var prefix := q.(jobs := q.jobs[..|nexts|]);
    PrefixKept(q, |nexts|);
    FiredGrows(prefix, current, if timeChanged then [] else Due(prefix.jobs, current));
    forall j | j in q'.jobs
      ensures 1 <= j.id < q.nextJobId && forall f :: f in q'.fired && f.0 == j.id ==> f.1 < j.nextTime
    {
      var k :| 0 <= k < |q'.jobs| && q'.jobs[k] == j;
      assert q.jobs[k] in q.jobs;
      forall f | f in q'.fired && f.0 == j.id
        ensures f.1 < j.nextTime
      {
        FiredBefore(q, current, timeChanged, nexts, f, k);
      }
    }
  }

  /** A job that does not get a later time breaks the promises of every queue that holds it and what was performed. */
  lemma EarlierShows(q: Queue, current: int, timeChanged: bool, nexts: seq<int>, k: nat, q': Queue)
    requires |nexts| <= |q.jobs| && k < |nexts| && q.jobs[k].nextTime <= current
    requires !GetsLater(q, k, timeChanged, nexts[k])
    requires q.jobs[k].(nextTime := nexts[k]) in q'.jobs
    requires forall f :: f in ScanOver(q, current, timeChanged, nexts).fired ==> f in q'.fired
    ensures !Kept(q')
  {
    var j := q.jobs[k].(nextTime := nexts[k]);
    if timeChanged {
      var f :| f in q.fired && f.0 == j.id && nexts[k] <= f.1;
      assert f in q'.fired;
    } else {
      DueHas(q.jobs[..|nexts|], current, k);
      assert (j.id, q.jobs[k].nextTime) in q'.fired;
    }
  }

  /** A pass keeps all promises of the queue if and only if every due job gets a later time. */
  lemma PassConsistentIff(q: Queue, current: int, timeChanged: bool, nexts: seq<int>)
    requires Kept(q) && |nexts| == |q.jobs|
    ensures Sorted(PassOver(q, current, timeChanged, nexts).jobs)
    ensures Consistent(PassOver(q, current, timeChanged, nexts)) <==> Later(q, current, timeChanged, nexts)
  {
    var all := ScanOver(q, current, timeChanged, nexts);
    SortSorts(all.jobs);
    if Later(q, current, timeChanged, nexts) {
      LaterKeeps(q, current, timeChanged, nexts);
      SortKeepsIds(all.jobs);
    } else {
      var k :| 0 <= k < |nexts| && q.jobs[k].nextTime <= current && !GetsLater(q, k, timeChanged, nexts[k]);
      ScanJobs(q, current, timeChanged, nexts);
      assert all.jobs[k] in all.jobs;
      EarlierShows(q, current, timeChanged, nexts, k, PassOver(q, current, timeChanged, nexts));
    }
  }

  /**
   Ending the worker keeps all promises but the order if and only if every job
   rescheduled before got a later time.
   */
  lemma QuitKeptIff(q: Queue, current: int, nexts: seq<int>)
    requires Kept(q) && Fits(q, WorkerQuits(current, nexts))
    ensures Kept(QuitOver(q, current, nexts)) <==> Later(q, current, false, nexts)
  {
    var all, j := ScanOver(q, current, false, nexts), q.jobs[|nexts|];
    ScanJobs(q, current, false, nexts);
    if Later(q, current, false, nexts) {
      LaterKeeps(q, current, false, nexts);
      assert all.jobs[|nexts|] == j;
      QuitKeeps(all, |nexts|);
    } else {
      var k :| 0 <= k < |nexts| && q.jobs[k].nextTime <= current && !GetsLater(q, k, false, nexts[k]);
      assert all.jobs[k] in all.jobs && all.jobs[k].id != j.id;
      WithoutContents(all.jobs, j.id);
      EarlierShows(q, current, false, nexts, k, QuitOver(q, current, nexts));
    }
  }

  /** Performing a job for the time it waits for and removing it. */
  lemma QuitKeeps(q: Queue, i: nat)
    requires Kept(q) && i < |q.jobs|
    ensures var j := q.jobs[i]; Kept(q.(jobs := Without(q.jobs, j.id), fired := q.fired + [(j.id, j.nextTime)]))
  {
    var j := q.jobs[i];
    assert j in q.jobs;
    RemoveKept(q, j.id);
    WithoutContents(q.jobs, j.id);
    FiredOnce(q.fired, j.id, j.nextTime);
  }

  lemma FiredOnce(fired: seq<(int, int)>, id: int, t: int)
    requires FiredInOrder(fired) && forall f :: f in fired && f.0 == id ==> f.1 < t
    ensures FiredInOrder(fired + [(id, t)])
  {
    var all := fired + [(id, t)];
    forall i, j | 0 <= i < j < |all| && all[i].0 == all[j].0
      ensures all[i].1 < all[j].1
    {
      assert all[i] in fired;
    }
  }

  /** An event keeps the promises of the queue if and only if the due jobs it reschedules get later times. */
  lemma ApplyKeptIff(q: Queue, e: Event)
    requires Kept(q) && Fits(q, e)
    ensures Kept(Apply(q, e)) <==> Possible(q, e)
    ensures e.Add? || e.WorkerPass? || (!e.WorkerQuits? && Sorted(q.jobs)) ==> Sorted(Apply(q, e).jobs)
  {
    match e
    case Add(spec, time) => AddConsistent(q, spec, time);
    case AddFails =>
    case Remove(id) => RemoveKept(q, id);
    case WorkerPass(current, timeChanged, nexts) => PassConsistentIff(q, current, timeChanged, nexts);
    case WorkerQuits(current, nexts) => QuitKeptIff(q, current, nexts);
  }

  // ----- every run

  /** `states` is the run of the queue through `events`, whatever times the jobs get. */
  ghost predicate IsRun(states: seq<Queue>, events: seq<Event>) {
    && |states| == |events| + 1
    && states[0] == Queue([], 1, [])
    && forall i :: 0 <= i < |events| ==> Fits(states[i], events[i]) && states[i + 1] == Apply(states[i], events[i])
  }

  /** The worker has not ended since the queue was last sorted. */
  ghost predicate InOrder(events: seq<Event>, n: nat)
    requires n <= |events|
  {
    n == 0 ||
    match events[n - 1]
    case Add(_, _) => true
    case WorkerPass(_, _, _) => true
    case WorkerQuits(_, _) => false
    case _ => InOrder(events, n - 1)
  }

  /**
   While due jobs get later times, ids are unique and performed times increase; the
   queue is sorted up to an end of the worker.
   */
  lemma {:induction false} RunsAreConsistent(states: seq<Queue>, events: seq<Event>, n: nat)
    requires IsRun(states, events) && n < |states|
    requires forall i :: 0 <= i < n ==> Possible(states[i], events[i])
    ensures Kept(states[n]) && (InOrder(events, n) ==> Consistent(states[n]))
  {
    if n == 0 {
    } else {
      RunsAreConsistent(states, events, n - 1);
      assert Possible(states[n - 1], events[n - 1]);
      ApplyKeptIff(states[n - 1], events[n - 1]);
    }
  }

  /** A run keeps all promises at every moment if and only if every due job it reschedules gets a later time. */
  lemma RunsAreConsistentIff(states: seq<Queue>, events: seq<Event>)
    requires IsRun(states, events)
    ensures (forall n :: 0 <= n < |states| ==> Kept(states[n]))
            <==> forall i :: 0 <= i < |events| ==> Possible(states[i], events[i])
  {
    if forall i :: 0 <= i < |events| ==> Possible(states[i], events[i]) {
      forall n | 0 <= n < |states|
        ensures Kept(states[n])
      {
        RunsAreConsistent(states, events, n);
      }
    } else {
      var i :| 0 <= i < |events| && !Possible(states[i], events[i]);
      assert states[i + 1] == Apply(states[i], events[i]);
      if Kept(states[i]) {
        ApplyKeptIff(states[i], events[i]);
      }
    }
  }

  // ----- the clock

  /** A reading of the clock: UTC civil time and second. */
  datatype Clock = Clock(civil: Instant, second: int) {
    ghost predicate Valid() {
      RealInstant(civil) && civil[YEAR] >= 1970 && 0 <= second < 60
    }

    ghost function Time(): int {
      Timestamp(civil, second)
    }
  }

  /** Some instant after the reading and before 2099 satisfies the rules of the job. */
  ghost predicate HasRunAhead(spec: Timespec, now: Instant) {
    && MakeRules(spec, now[YEAR]).Success?
    && exists m: Instant :: IsMatchAfter(MakeRules(spec, now[YEAR]).value, now, m) && m[YEAR] < MAX_YEAR
  }

  /** The search ends with an instant for the job, be it ahead or in the past. */
  ghost predicate GetsTime(spec: Timespec, now: Instant) {
    && MakeRules(spec, now[YEAR]).Success?
    && exists n: nat :: After(MakeRules(spec, now[YEAR]).value, now, n).status == Found
  }

  lemma RunAheadGetsTime(spec: Timespec, now: Instant)
    requires RealInstant(now) && HasRunAhead(spec, now)
    ensures GetsTime(spec, now)
  {
    RealInCalendar(now);
    var r := MakeRules(spec, now[YEAR]).value;
    var m: Instant :| IsMatchAfter(r, now, m) && m[YEAR] < MAX_YEAR;
    var n := FindsNextRun(r, now, m);
  }

  lemma RealInCalendar(x: Instant)
    requires RealInstant(x)
    ensures InCalendar(x)
  {
  }

  /** A job that can still run is rescheduled strictly after the clock reading. */
  lemma RescheduledLater(spec: Timespec, clock: Clock, o: Result<Instant, CronError>)
    requires clock.Valid() && HasRunAhead(spec, clock.civil) && IsOutcome(spec, clock.civil, o)
    ensures o.Success? && RealInstant(o.value) && clock.Time() < Timestamp(o.value, 0)
  {
    var now := clock.civil;
    RealInCalendar(now);
    var r := MakeRules(spec, now[YEAR]).value;
    var m: Instant :| IsMatchAfter(r, now, m) && m[YEAR] < MAX_YEAR;
    var n := FindsNextRun(r, now, m);
    var n' :| HaltsWithin(r, now, n') && o == Outcome(After(r, now, n'));
    OutcomeUnique(r, now, n, n');
    FoundInRange(r, now, n);
    var c := After(r, now, n).c;
    LessFields(now, c);
    MakeTimeEmbedsOrder(now, c, clock.second, 0);
  }

  // ----- the object

  class Cron {
    var jobQueue: seq<Job>
    var nextJobId: int
    ghost var fired: seq<(int, int)>

    ghost function State(): Queue
      reads this
    {
      Queue(jobQueue, nextJobId, fired)
    }

    constructor ()
      ensures State() == Queue([], 1, []) && Consistent(State())
    {
      jobQueue, nextJobId, fired := [], 1, [];
    }

    /** Returns the id of the new job, or the invalid id and no change at all. */
    method AddJob(spec: Timespec, callback: bool, clock: Clock, ghost steps: nat) returns (id: int)
      requires Kept(State()) && clock.Valid()
      requires MakeRules(spec, clock.civil[YEAR]).Success? ==>
                 HaltsWithin(MakeRules(spec, clock.civil[YEAR]).value, clock.civil, steps)
      modifies this
      ensures Kept(State())
      ensures id == INVALID_JOB_ID <==>
        || !callback
        || IsOutcome(spec, clock.civil, Failure(InvalidRule)) || IsOutcome(spec, clock.civil, Failure(Unsatisfiable))
      ensures id == INVALID_JOB_ID ==> id == -1 && State() == old(State())
      ensures id != INVALID_JOB_ID ==>
        && id == old(nextJobId) && nextJobId == id + 1 && fired == old(fired) && Consistent(State())
        && exists x: Instant ::
          var job := Job(id, spec, Timestamp(x, 0));
          && IsOutcome(spec, clock.civil, Success(x)) && State() == old(AddScheduled(State(), spec, job.nextTime))
          && multiset(jobQueue) == old(multiset(jobQueue)) + multiset{job}
          && forall t :: At(jobQueue, t) == old(At(jobQueue, t)) + (if t == job.nextTime then [job] else [])
    {
      id := INVALID_JOB_ID;
      if !callback {
        return;
      }
      var next := CalcNext(spec, clock.civil, steps);
      OutcomesAgree(spec, clock.civil, next);
      if next.Failure? {
        return;
      }
      var x := next.value;
      var time := MakeTime(x[YEAR], x[MONTH], x[MDAY], x[HOUR], x[MINUTE], 0);
      AddMeans(State(), spec, time);
      id := Enqueue(spec, time);
    }

    /** `emplace_back` and `sort`. */
    method Enqueue(spec: Timespec, time: int) returns (id: int)
      requires Kept(State())
      modifies this
      ensures id == old(nextJobId) && State() == old(AddScheduled(State(), spec, time)) && Consistent(State())
    {
      AddConsistent(State(), spec, time);
      jobQueue := jobQueue + [Job(nextJobId, spec, time)];
      id := nextJobId;
      jobQueue := Sort(jobQueue);
      nextJobId := nextJobId + 1;
    }

    method RemoveJob(id: int)
      requires Kept(State())
      modifies this
      ensures Kept(State()) && State() == old(Apply(State(), Remove(id)))
      ensures old(Sorted(jobQueue)) ==> Consistent(State())
      ensures nextJobId == old(nextJobId) && fired == old(fired)
      ensures !HasId(old(jobQueue), id) ==> jobQueue == old(jobQueue)
      ensures forall i :: 0 <= i < |old(jobQueue)| && old(jobQueue)[i].id == id ==>
        jobQueue == old(jobQueue)[..i] + old(jobQueue)[i + 1..]
    {
      RemoveKept(State(), id);
      RemoveMeans(jobQueue, id);
      jobQueue := Without(jobQueue, id);
    }

    /** Reschedules the job at position `i`, which is due, by its own rule. */
    method Reschedule(i: nat, now: int, reading: Clock) returns (next: int)
      requires i < |jobQueue| && CanStep(jobQueue[i], now, reading) && jobQueue[i].nextTime <= now
      modifies this`jobQueue
      ensures IsNextAfter(old(jobQueue)[i], now, reading, next)
      ensures jobQueue == old(jobQueue)[i := old(jobQueue)[i].(nextTime := next)]
    {
      var j := jobQueue[i];
      ghost var steps := StepsToTime(j.spec, reading.civil);
      var o := CalcNext(j.spec, reading.civil, steps);
      FoundOutcome(j.spec, reading.civil, steps, o);
      if HasRunAhead(j.spec, reading.civil) {
        RescheduledLater(j.spec, reading, o);
      }
      var c := o.value;
      next := MakeTime(c[YEAR], c[MONTH], c[MDAY], c[HOUR], c[MINUTE], 0);
      jobQueue := jobQueue[i := j.(nextTime := next)];
    }

    /** Performs and reschedules the job at position `i` if it is due; false when its callback returns false. */
    method WorkerStep(i: nat, now: int, reading: Clock, timeChanged: bool, reply: bool) returns (alive: bool, next: int)
      requires i < |jobQueue|
      requires !Refuses(jobQueue[i], now, timeChanged, reply) ==> CanStep(jobQueue[i], now, reading)
      modifies this
      ensures nextJobId == old(nextJobId)
      ensures var j := old(jobQueue)[i];
              && alive == !Refuses(j, now, timeChanged, reply)
              && fired == old(fired) + (if j.nextTime <= now && !timeChanged then [(j.id, j.nextTime)] else [])
              && if !alive then jobQueue == Without(old(jobQueue), j.id)
                 else if j.nextTime <= now then
                   IsNextAfter(j, now, reading, next) && jobQueue == old(jobQueue)[i := j.(nextTime := next)]
                 else jobQueue == old(jobQueue)
    {
      alive, next := true, 0;
      var j := jobQueue[i];
      if j.nextTime <= now {
        if !timeChanged {
          fired := fired + [(j.id, j.nextTime)];
          if !reply {
            jobQueue := Without(jobQueue, j.id);
            return false, 0;
          }
        }
        next := Reschedule(i, now, reading);
      }
    }

    /** One turn of the loop of a worker pass, which has handled the jobs before position `i`. */
    method ScanStep(i: nat, now: int, readings: seq<Clock>, timeChanged: bool, replies: seq<bool>,
        ghost before: Queue, ghost nexts: seq<int>)
      returns (alive: bool, ghost nexts': seq<int>)
      requires i == |nexts| < |before.jobs| == |replies| == |readings|
      requires Handled(before, State(), now, timeChanged, readings, nexts)
      requires i <= FirstRefusal(before.jobs, now, timeChanged, replies)
      requires CanScan(before.jobs, now, readings, FirstRefusal(before.jobs, now, timeChanged, replies))
      modifies this
      ensures alive == (i < FirstRefusal(before.jobs, now, timeChanged, replies))
      ensures if alive then |nexts'| == i + 1 && Handled(before, State(), now, timeChanged, readings, nexts')
              else nexts' == nexts && ScanEnds(before, State(), now, timeChanged, readings, replies, false, nexts)
    {
      ghost var middle := State();
      ScannedAt(before, middle, now, timeChanged, nexts);
      BeforeRefusal(before.jobs, now, readings, timeChanged, replies, i);
      var next;
      alive, next := WorkerStep(i, now, readings[i], timeChanged, replies[i]);
      if alive {
        HandledStep(before, middle, State(), now, timeChanged, readings, nexts, next);
        nexts' := nexts + [next];
      } else {
        QuitHere(before, middle, State(), now, timeChanged, readings, replies, nexts);
        nexts' := nexts;
      }
    }

    /**
     The loop of a worker pass. A callback that returns false ends the loop and
     the worker, and its job is removed.
     */
    method ScanQueue(now: int, readings: seq<Clock>, timeChanged: bool, replies: seq<bool>)
      returns (alive: bool, ghost nexts: seq<int>)
      requires |replies| == |jobQueue|
      requires CanScan(jobQueue, now, readings, FirstRefusal(jobQueue, now, timeChanged, replies))
      modifies this
      ensures ScanEnds(old(State()), State(), now, timeChanged, readings, replies, alive, nexts)
    {
      ghost var before := State();
      nexts := [];
      HandledNone(before, now, timeChanged, readings);
      for i := 0 to |jobQueue|
        invariant |nexts| == i <= FirstRefusal(before.jobs, now, timeChanged, replies)
        invariant Handled(before, State(), now, timeChanged, readings, nexts)
      {
        alive, nexts := ScanStep(i, now, readings, timeChanged, replies, before, nexts);
        if !alive {
          return;
        }
      }
      AllHandled(before, State(), now, timeChanged, readings, replies, nexts);
      return true, nexts;
    }

    /**
     One pass of the worker over the queue. `current` is the reading that
     decides which jobs are due; `calcNext` reads the clock again for each, and
     `replies` says what each callback returns.
     */
    method Worker(current: Clock, readings: seq<Clock>, timeChanged: bool, replies: seq<bool>)
      returns (alive: bool, ghost nexts: seq<int>)
      requires Kept(State()) && current.Valid() && |replies| == |jobQueue|
      requires CanScan(jobQueue, current.Time(), readings, FirstRefusal(jobQueue, current.Time(), timeChanged, replies))
      modifies this
      ensures alive <==> timeChanged || forall k :: 0 <= k < |old(jobQueue)| ==>
        old(jobQueue)[k].nextTime <= current.Time() ==> replies[k]
      ensures if alive then |nexts| == |old(jobQueue)| else
        && |nexts| < |old(jobQueue)| && old(jobQueue)[|nexts|].nextTime <= current.Time() && !replies[|nexts|]
        && forall k :: 0 <= k < |nexts| ==> old(jobQueue)[k].nextTime <= current.Time() ==> replies[k]
      ensures AllNext(old(jobQueue), current.Time(), readings, nexts, |nexts|)
      ensures State() == if alive then old(PassOver(State(), current.Time(), timeChanged, nexts))
                         else old(QuitOver(State(), current.Time(), nexts))
      ensures alive ==> Sorted(jobQueue)
      ensures Kept(State()) <==> Later(old(State()), current.Time(), timeChanged && alive, nexts)
      ensures RunsAhead(old(jobQueue), current.Time(), readings, |nexts|) ==> Kept(State())
    {
      var x := current.civil;
      var now := MakeTime(x[YEAR], x[MONTH], x[MDAY], x[HOUR], x[MINUTE], current.second);
      ghost var before := State();
      alive, nexts := ScanQueue(now, readings, timeChanged, replies);
      RefusalDecides(before.jobs, now, timeChanged, replies);
      PassResult(before, State(), now, timeChanged, readings, replies, alive, nexts);
      if alive {
        jobQueue := Sort(jobQueue);
      }
    }
  }

  // ----- the scan

  /** The job is performed and its callback returns false. */
  predicate Refuses(j: Job, current: int, timeChanged: bool, reply: bool) {
    j.nextTime <= current && !timeChanged && !reply
  }

  /** A job with a run ahead gets a later time. */
  lemma RunsAheadIsLater(q: Queue, current: int, timeChanged: bool, readings: seq<Clock>, nexts: seq<int>)
    requires Kept(q) && |nexts| <= |q.jobs| && AllNext(q.jobs, current, readings, nexts, |nexts|)
    ensures RunsAhead(q.jobs, current, readings, |nexts|) ==> Later(q, current, timeChanged, nexts)
  {
    if RunsAhead(q.jobs, current, readings, |nexts|) {
      forall k | 0 <= k < |nexts| && q.jobs[k].nextTime <= current
        ensures GetsLater(q, k, timeChanged, nexts[k])
      {
        assert HasRunAhead(q.jobs[k].spec, readings[k].civil);
        assert IsNextAfter(q.jobs[k], current, readings[k], nexts[k]);
        assert q.jobs[k] in q.jobs;
      }
    }
  }

  /** What a scan leaves, sorted if the worker stays alive, keeps the promises if the new times are later. */
  lemma PassResult(before: Queue, q: Queue, current: int, timeChanged: bool, readings: seq<Clock>, replies: seq<bool>,
      alive: bool, nexts: seq<int>)
    requires Kept(before) && ScanEnds(before, q, current, timeChanged, readings, replies, alive, nexts)
    ensures var q' := if alive then q.(jobs := Sort(q.jobs)) else q;
            && q' == (if alive then PassOver(before, current, timeChanged, nexts) else QuitOver(before, current, nexts))
            && (alive ==> Sorted(q'.jobs))
            && (Kept(q') <==> Later(before, current, timeChanged && alive, nexts))
            && (RunsAhead(before.jobs, current, readings, |nexts|) ==> Kept(q'))
  {
    RunsAheadIsLater(before, current, timeChanged && alive, readings, nexts);
    if alive {
      PassConsistentIff(before, current, timeChanged, nexts);
    } else {
      RefusalDecides(before.jobs, current, timeChanged, replies);
      QuitKeptIff(before, current, nexts);
    }
  }

  /** Where every due job has a run ahead and the clock does not go back, the pass can be made. */
  lemma RunsAheadCanScan(jobs: seq<Job>, current: int, readings: seq<Clock>, n: nat)
    requires n <= |jobs| && RunsAhead(jobs, current, readings, n)
    requires forall k :: 0 <= k < n ==> readings[k].Valid() && current <= readings[k].Time()
    ensures CanScan(jobs, current, readings, n)
  {
    forall k | 0 <= k < n
      ensures CanStep(jobs[k], current, readings[k])
    {
      if jobs[k].nextTime <= current {
        assert HasRunAhead(jobs[k].spec, readings[k].civil);
        RunAheadGetsTime(jobs[k].spec, readings[k].civil);
      }
    }
  }

  /** How many jobs are handled before the first that is performed and returns false. */
  function FirstRefusal(s: seq<Job>, current: int, timeChanged: bool, replies: seq<bool>): (n: nat)
    requires |replies| == |s|
    ensures n <= |s|
  {
    if s == [] || Refuses(s[0], current, timeChanged, replies[0]) then 0
    else 1 + FirstRefusal(s[1..], current, timeChanged, replies[1..])
  }

  lemma {:induction false} FirstRefusalIsFirst(s: seq<Job>, current: int, timeChanged: bool, replies: seq<bool>, k: nat)
    requires |replies| == |s| && k < |s|
    ensures var n := FirstRefusal(s, current, timeChanged, replies);
            && (k < n ==> !Refuses(s[k], current, timeChanged, replies[k]))
            && (k == n ==> Refuses(s[k], current, timeChanged, replies[k]))
  {
    if k > 0 && !Refuses(s[0], current, timeChanged, replies[0]) {
      FirstRefusalIsFirst(s[1..], current, timeChanged, replies[1..], k - 1);
    }
  }

  /**
   Every job is handled if and only if the clock has changed or every callback of a
   due job returns true; otherwise the scan ends at the first that does not.
   */
  lemma RefusalDecides(s: seq<Job>, current: int, timeChanged: bool, replies: seq<bool>)
    requires |replies| == |s|
    ensures var n := FirstRefusal(s, current, timeChanged, replies);
            && (n == |s| <==> timeChanged || forall k :: 0 <= k < |s| ==> s[k].nextTime <= current ==> replies[k])
            && (n < |s| ==>
                 && !timeChanged && s[n].nextTime <= current && !replies[n]
                 && forall k :: 0 <= k < n ==> s[k].nextTime <= current ==> replies[k])
  {
    forall k | 0 <= k < |s|
      ensures var n := FirstRefusal(s, current, timeChanged, replies);
              && (k < n ==> !Refuses(s[k], current, timeChanged, replies[k]))
              && (k == n ==> Refuses(s[k], current, timeChanged, replies[k]))
    {
      FirstRefusalIsFirst(s, current, timeChanged, replies, k);
    }
  }

  lemma QuitHere(before: Queue, middle: Queue, q: Queue, current: int, timeChanged: bool,
      readings: seq<Clock>, replies: seq<bool>, nexts: seq<int>)
    requires |nexts| < |before.jobs| == |replies| && Handled(before, middle, current, timeChanged, readings, nexts)
    requires Refuses(before.jobs[|nexts|], current, timeChanged, replies[|nexts|])
    requires |nexts| == FirstRefusal(before.jobs, current, timeChanged, replies)
    requires var j := before.jobs[|nexts|];
             && q.nextJobId == middle.nextJobId && q.jobs == Without(middle.jobs, j.id)
             && q.fired == middle.fired + (if j.nextTime <= current && !timeChanged then [(j.id, j.nextTime)] else [])
    ensures ScanEnds(before, q, current, timeChanged, readings, replies, false, nexts)
  {
    DueStep(before.jobs, |nexts|, current);
  }

  lemma AllHandled(before: Queue, q: Queue, current: int, timeChanged: bool,
      readings: seq<Clock>, replies: seq<bool>, nexts: seq<int>)
    requires |nexts| == |before.jobs| == |replies| && Handled(before, q, current, timeChanged, readings, nexts)
    requires |nexts| <= FirstRefusal(before.jobs, current, timeChanged, replies)
    ensures ScanEnds(before, q, current, timeChanged, readings, replies, true, nexts)
  {
  }

  /** How a scan ends: with every job handled, or at the first that refuses. */
  ghost predicate ScanEnds(before: Queue, q: Queue, current: int, timeChanged: bool,
      readings: seq<Clock>, replies: seq<bool>, alive: bool, nexts: seq<int>)
  {
    && |replies| == |before.jobs| && |nexts| == FirstRefusal(before.jobs, current, timeChanged, replies)
    && alive == (|nexts| == |before.jobs|)
    && AllNext(before.jobs, current, readings, nexts, |nexts|)
    && q == if alive then ScanOver(before, current, timeChanged, nexts) else QuitOver(before, current, nexts)
  }

  ghost predicate HasId(s: seq<Job>, id: int) {
    exists j :: j in s && j.id == id
  }

  /** Ending the worker removes the refusing job and nothing else. */
  lemma QuitRemovesOne(q: Queue, current: int, nexts: seq<int>)
    requires |nexts| < |q.jobs|
    ensures forall id :: HasId(QuitOver(q, current, nexts).jobs, id) <==> HasId(q.jobs, id) && id != q.jobs[|nexts|].id
  {
    var all := ScanOver(q, current, false, nexts).jobs;
    ScanJobs(q, current, false, nexts);
    WithoutContents(all, q.jobs[|nexts|].id);
    forall id
      ensures HasId(all, id) <==> HasId(q.jobs, id)
    {
      if HasId(all, id) {
        SameIds(all, q.jobs, id);
      }
      if HasId(q.jobs, id) {
        SameIds(q.jobs, all, id);
      }
    }
  }

  lemma SameIds(a: seq<Job>, b: seq<Job>, id: int)
    requires |a| == |b| && (forall k :: 0 <= k < |b| ==> a[k].id == b[k].id) && HasId(a, id)
    ensures HasId(b, id)
  {
    var k :| 0 <= k < |a| && a[k].id == id;
    assert b[k] in b;
  }

  /** The first `n` jobs, where due, have the times `calcNext` computes. */
  ghost predicate AllNext(jobs: seq<Job>, now: int, readings: seq<Clock>, nexts: seq<int>, n: nat) {
    && n <= |jobs| && n <= |readings| && n <= |nexts|
    && forall k {:trigger IsNextAfter(jobs[k], now, readings[k], nexts[k])} ::
         0 <= k < n && jobs[k].nextTime <= now ==> IsNextAfter(jobs[k], now, readings[k], nexts[k])
  }

  /** `t` is what `calcNext` computes for the job at a clock reading. */
  ghost predicate IsNextTime(j: Job, reading: Clock, t: int) {
    exists x: Instant :: IsOutcome(j.spec, reading.civil, Success(x)) && t == Timestamp(x, 0)
  }

  /** The computed time, which is later than `now` where a run lies ahead. */
  ghost predicate IsNextAfter(j: Job, now: int, reading: Clock, t: int) {
    IsNextTime(j, reading, t) && (HasRunAhead(j.spec, reading.civil) ==> now < t)
  }

  /** Every due job among the first `n` has a run ahead. */
  ghost predicate RunsAhead(jobs: seq<Job>, now: int, readings: seq<Clock>, n: nat) {
    && |readings| == |jobs| && n <= |jobs|
    && forall k {:trigger HasRunAhead(jobs[k].spec, readings[k].civil)} ::
         0 <= k < n && jobs[k].nextTime <= now ==> HasRunAhead(jobs[k].spec, readings[k].civil)
  }

  /**
   What the worker may rely on for one job: a later reading of the clock, and a
   search that ends if the job is due.
   */
  ghost predicate CanStep(j: Job, current: int, reading: Clock) {
    && reading.Valid() && current <= reading.Time()
    && (j.nextTime <= current ==> GetsTime(j.spec, reading.civil))
  }

  ghost predicate CanScan(jobs: seq<Job>, current: int, readings: seq<Clock>, n: nat)
    requires n <= |jobs|
  {
    && |readings| == |jobs|
    && forall i {:trigger CanStep(jobs[i], current, readings[i])} :: 0 <= i < n ==>
      CanStep(jobs[i], current, readings[i])
  }

  ghost predicate Handled(before: Queue, q: Queue, current: int, timeChanged: bool, readings: seq<Clock>,
      nexts: seq<int>) {
    && |nexts| <= |before.jobs| && |nexts| <= |readings|
    && Scanned(before, q, current, timeChanged, nexts) && AllNext(before.jobs, current, readings, nexts, |nexts|)
  }

  lemma HandledNone(before: Queue, current: int, timeChanged: bool, readings: seq<Clock>)
    ensures Handled(before, before, current, timeChanged, readings, [])
  {
    assert before.jobs[..0] == [] && before.jobs[0..] == before.jobs;
    assert Rescheduled([], current, []) + before.jobs == before.jobs;
    assert before.fired + [] == before.fired;
  }

  lemma BeforeRefusal(jobs: seq<Job>, current: int, readings: seq<Clock>, timeChanged: bool, replies: seq<bool>, i: nat)
    requires |replies| == |jobs| && i < |jobs| && i <= FirstRefusal(jobs, current, timeChanged, replies)
    requires CanScan(jobs, current, readings, FirstRefusal(jobs, current, timeChanged, replies))
    ensures Refuses(jobs[i], current, timeChanged, replies[i]) <==>
      i == FirstRefusal(jobs, current, timeChanged, replies)
    ensures !Refuses(jobs[i], current, timeChanged, replies[i]) ==> CanStep(jobs[i], current, readings[i])
  {
    FirstRefusalIsFirst(jobs, current, timeChanged, replies, i);
    assert Refuses(jobs[i], current, timeChanged, replies[i]) || CanStep(jobs[i], current, readings[i]);
  }

  lemma HandledStep(before: Queue, q: Queue, q': Queue, current: int, timeChanged: bool, readings: seq<Clock>,
      nexts: seq<int>, next: int)
    requires Handled(before, q, current, timeChanged, readings, nexts)
    requires |nexts| < |before.jobs| && |nexts| < |readings| && q'.nextJobId == q.nextJobId
    requires var i, j := |nexts|, before.jobs[|nexts|];
             && |q.jobs| == |before.jobs|
             && q'.fired == q.fired + (if j.nextTime <= current && !timeChanged then [(j.id, j.nextTime)] else [])
             && if j.nextTime <= current then
                  IsNextAfter(j, current, readings[i], next) && q'.jobs == q.jobs[i := j.(nextTime := next)]
                else q'.jobs == q.jobs
    ensures Handled(before, q', current, timeChanged, readings, nexts + [next])
  {
    assert q.fired + [] == q.fired;
    ScannedStep(before, q, q', current, timeChanged, nexts, next);
    AllNextStep(before.jobs, current, readings, nexts, next);
  }

  lemma ScannedAt(before: Queue, q: Queue, current: int, timeChanged: bool, nexts: seq<int>)
    requires |nexts| < |before.jobs| && Scanned(before, q, current, timeChanged, nexts)
    ensures |q.jobs| == |before.jobs| && q.jobs[|nexts|] == before.jobs[|nexts|]
  {
  }

  lemma AllNextStep(jobs: seq<Job>, now: int, readings: seq<Clock>, nexts: seq<int>, next: int)
    requires |nexts| < |jobs| && |nexts| < |readings| && AllNext(jobs, now, readings, nexts, |nexts|)
    requires var i := |nexts|; jobs[i].nextTime <= now ==> IsNextAfter(jobs[i], now, readings[i], next)
    ensures AllNext(jobs, now, readings, nexts + [next], |nexts| + 1)
  {
    forall k | 0 <= k < |nexts| + 1 && jobs[k].nextTime <= now
      ensures IsNextAfter(jobs[k], now, readings[k], (nexts + [next])[k])
    {
      if k < |nexts| {
        assert IsNextAfter(jobs[k], now, readings[k], nexts[k]);
      }
    }
  }

  ghost predicate Scanned(before: Queue, q: Queue, current: int, timeChanged: bool, nexts: seq<int>)
    requires |nexts| <= |before.jobs|
  {
    q == ScanOver(before, current, timeChanged, nexts)
  }

  /** Handling one more job. */
  lemma ScannedStep(before: Queue, q: Queue, q': Queue, current: int, timeChanged: bool, nexts: seq<int>, next: int)
    requires |nexts| < |before.jobs| && Scanned(before, q, current, timeChanged, nexts)
    requires q'.nextJobId == q.nextJobId
    requires var i, j := |nexts|, before.jobs[|nexts|];
             if j.nextTime <= current
             then q'.jobs == q.jobs[i := j.(nextTime := next)]
               && q'.fired == q.fired + (if timeChanged then [] else [(j.id, j.nextTime)])
             else q'.jobs == q.jobs && q'.fired == q.fired
    ensures Scanned(before, q', current, timeChanged, nexts + [next])
  {
    var i := |nexts|;
    DueStep(before.jobs, i, current);
    RescheduledStep(before.jobs, current, nexts, next);
  }

  lemma RescheduledStep(s: seq<Job>, current: int, nexts: seq<int>, next: int)
    requires |nexts| < |s|
    ensures var i := |nexts|;
            var before := Rescheduled(s[..i], current, nexts) + s[i..];
            Rescheduled(s[..i + 1], current, nexts + [next]) + s[i + 1..]
            == before[i := if s[i].nextTime <= current then s[i].(nextTime := next) else s[i]]
            && before[i] == s[i] && before[i := s[i]] == before
  {
  }

  /** A given outcome is the only one. */
  lemma OutcomesAgree(spec: Timespec, now: Instant, o: Result<Instant, CronError>)
    requires IsOutcome(spec, now, o)
    ensures forall o' :: IsOutcome(spec, now, o') ==> o' == o
  {
    forall o' | IsOutcome(spec, now, o')
      ensures o' == o
    {
      var rules := MakeRules(spec, now[YEAR]);
      if rules.Success? {
        var m: nat :| HaltsWithin(rules.value, now, m) && o == Outcome(After(rules.value, now, m));
        var n: nat :| HaltsWithin(rules.value, now, n) && o' == Outcome(After(rules.value, now, n));
        OutcomeUnique(rules.value, now, m, n);
      }
    }
  }

  lemma StepsToTime(spec: Timespec, now: Instant) returns (n: nat)
    requires GetsTime(spec, now)
    ensures After(MakeRules(spec, now[YEAR]).value, now, n).status == Found
  {
    n :| After(MakeRules(spec, now[YEAR]).value, now, n).status == Found;
  }

  lemma FoundOutcome(spec: Timespec, now: Instant, n: nat, o: Result<Instant, CronError>)
    requires MakeRules(spec, now[YEAR]).Success? && IsOutcome(spec, now, o)
    requires After(MakeRules(spec, now[YEAR]).value, now, n).status == Found
    ensures o.Success?
  {
    var r := MakeRules(spec, now[YEAR]).value;
    var m: nat :| HaltsWithin(r, now, m) && o == Outcome(After(r, now, m));
    OutcomeUnique(r, now, m, n);
  }

  lemma {:induction false} DueStep(s: seq<Job>, i: nat, current: int)
    requires i < |s|
    ensures Due(s[..i + 1], current)
      == Due(s[..i], current) + (if s[i].nextTime <= current then [(s[i].id, s[i].nextTime)] else [])
  {
    if i == 0 {
      assert s[..1] == [s[0]];
    } else {
      DueStep(s[1..], i - 1, current);
      assert s[..i + 1][1..] == s[1..][..i] && s[..i][1..] == s[1..][..i - 1];
    }
  }
}
