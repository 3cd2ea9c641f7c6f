/**
 The migration manager: an ordered multiset of tasks, the changeset between the
 stored version and a target, and its application up to the first failure.
 */
module Migration {

  import opened Results

  datatype Version = Version(gen: int, major: int, minor: int, build: int) {
    /** Comparison ignores minor and build. */
    predicate Less(v: Version) {
      if gen == v.gen then major < v.major else gen < v.gen
    }

    predicate Same(v: Version) {
      gen == v.gen && major == v.major
    }

    predicate AtMost(v: Version) {
      Less(v) || Same(v)
    }
  }

  datatype Action = Update | Rollback

  /** What a callback does when it runs. */
  datatype Reply = Returns(ok: bool) | Throws

  datatype Task = Task(version: Version, hasUpdate: bool, hasRollback: bool, id: int) {
    /** A missing function succeeds; an exception counts as failure. */
    predicate Apply(action: Action, reply: Reply) {
      (if action.Update? then hasUpdate else hasRollback) ==> reply == Returns(true)
    }
  }

  datatype Error = NullTask | NoFunctions | NoVersion | NoCallback

  // ----- order

  lemma VersionOrder(a: Version, b: Version, c: Version)
    ensures a.AtMost(b) <==> !b.Less(a)
    ensures a.Less(b) && b.Less(c) ==> a.Less(c)
    ensures a.AtMost(b) && b.Less(c) ==> a.Less(c)
    ensures a.Less(b) && b.AtMost(c) ==> a.Less(c)
    ensures a.AtMost(b) && b.AtMost(c) ==> a.AtMost(c)
    ensures a.AtMost(b) && b.AtMost(a) <==> a.Same(b)
  {
  }

  /** The generation decides before the major number; minor and build never do. */
  lemma VersionMeans(a: Version, b: Version)
    ensures a.Less(b) <==> a.gen < b.gen || (a.gen == b.gen && a.major < b.major)
    ensures a.Same(b) <==> a.gen == b.gen && a.major == b.major
    ensures a.AtMost(b) <==> a.gen < b.gen || (a.gen == b.gen && a.major <= b.major)
  {
  }

  ghost predicate Sorted(ts: seq<Task>) {
    forall i, j :: 0 <= i < j < |ts| ==> ts[i].version.AtMost(ts[j].version)
  }

  /** Ordered, and of tasks with one version only the first has an update function, so only it can fail. */
  ghost predicate Retryable(ts: seq<Task>) {
    forall i, j :: 0 <= i < j < |ts| ==> MayFollow(ts[i], ts[j])
  }

  predicate MayFollow(t: Task, u: Task) {
    t.version.Less(u.version) || (t.version.Same(u.version) && !u.hasUpdate)
  }

  /** No two tasks share a version. */
  ghost predicate StrictlySorted(ts: seq<Task>) {
    forall i, j :: 0 <= i < j < |ts| ==> ts[i].version.Less(ts[j].version)
  }

  /** std::multiset insertion: after the tasks of equal version. */
  function Insert(ts: seq<Task>, t: Task): seq<Task> {
    if ts == [] || t.version.Less(ts[0].version) then [t] + ts else [ts[0]] + Insert(ts[1..], t)
  }

  lemma {:induction false} InsertKeepsSorted(ts: seq<Task>, t: Task)
    requires Sorted(ts)
    ensures Sorted(Insert(ts, t)) && multiset(Insert(ts, t)) == multiset(ts) + multiset{t}
    ensures forall x :: x in Insert(ts, t) <==> x == t || x in ts
  {
    if ts != [] && !t.version.Less(ts[0].version) {
      InsertKeepsSorted(ts[1..], t);
      assert ts == [ts[0]] + ts[1..];
      ConsSorted(ts[0], Insert(ts[1..], t));
    } else if ts != [] {
      ConsSorted(t, ts);
    }
  }

  /** A new task goes behind those of its own version and before every later one. */
  lemma {:induction false} InsertPosition(ts: seq<Task>, t: Task) returns (i: nat)
    requires Sorted(ts)
    ensures i <= |ts| && Insert(ts, t) == ts[..i] + [t] + ts[i..]
    ensures forall k :: 0 <= k < i ==> ts[k].version.AtMost(t.version)
    ensures forall k :: i <= k < |ts| ==> t.version.Less(ts[k].version)
  {
    if ts == [] || t.version.Less(ts[0].version) {
      i := 0;
    } else {
      var j := InsertPosition(ts[1..], t);
      i := j + 1;
      assert ts[..i] + [t] + ts[i..] == [ts[0]] + (ts[1..][..j] + [t] + ts[1..][j..]);
    }
  }

  lemma ConsSorted(t: Task, ts: seq<Task>)
    requires Sorted(ts) && forall x :: x in ts ==> t.version.AtMost(x.version)
    ensures Sorted([t] + ts)
  {
  }

  // ----- the changeset

  /** The tasks above `lo` and not above `hi`, ascending. */
  function Between(ts: seq<Task>, lo: Version, hi: Version): seq<Task> {
    if ts == [] then []
    else (if lo.Less(ts[0].version) && ts[0].version.AtMost(hi) then [ts[0]] else []) + Between(ts[1..], lo, hi)
  }

  /** The tasks from `hi` down to `lo`, both included, descending. */
  function Down(ts: seq<Task>, lo: Version, hi: Version): seq<Task> {
    if ts == [] then []
    else Down(ts[1..], lo, hi) + (if lo.AtMost(ts[0].version) && ts[0].version.AtMost(hi) then [ts[0]] else [])
  }

  function Changeset(ts: seq<Task>, current: Version, next: Version): seq<Task> {
    if next.Less(current) then Down(ts, next, current) else Between(ts, current, next)
  }

  function ActionFor(current: Version, next: Version): Action {
    if next.Less(current) then Rollback else Update
  }

  /** In an ordered sequence, selection is a slice. */
  lemma {:induction false} BetweenIsSlice(ts: seq<Task>, lo: Version, hi: Version, a: nat, b: nat)
    requires a <= b <= |ts|
    requires forall i :: 0 <= i < a ==> ts[i].version.AtMost(lo)
    requires forall i :: a <= i < b ==> lo.Less(ts[i].version) && ts[i].version.AtMost(hi)
    requires forall i :: b <= i < |ts| ==> hi.Less(ts[i].version)
    ensures Between(ts, lo, hi) == ts[a..b]
  {
    if ts == [] {
    } else {
      if a > 0 {
        BetweenIsSlice(ts[1..], lo, hi, a - 1, b - 1);
      } else if b > 0 {
        BetweenIsSlice(ts[1..], lo, hi, 0, b - 1);
        assert ts[0..b] == [ts[0]] + ts[1..][0..b - 1];
      } else {
        BetweenIsSlice(ts[1..], lo, hi, 0, 0);
      }
    }
  }

  /** The selected tasks are a slice of the ordered ones, upwards as it is and downwards in reverse. */
  lemma ChangesetIsSlice(ts: seq<Task>, current: Version, next: Version) returns (a: nat, b: nat)
    requires Sorted(ts)
    ensures a <= b <= |ts|
    ensures next.Less(current) ==>
      && Changeset(ts, current, next) == Reverse(ts[a..b])
      && (forall i :: 0 <= i < |ts| ==>
           (a <= i < b <==> next.AtMost(ts[i].version) && ts[i].version.AtMost(current)))
    ensures !next.Less(current) ==>
      && Changeset(ts, current, next) == ts[a..b]
      && (forall i :: 0 <= i < |ts| ==>
           (a <= i < b <==> current.Less(ts[i].version) && ts[i].version.AtMost(next)))
  {
    if next.Less(current) {
      b := CountUpTo(ts, current);
      a := CountBelow(ts, next);
      DownIsSlice(ts, next, current, a, b);
    } else {
      a := CountUpTo(ts, current);
      b := CountUpTo(ts, next);
      BetweenIsSlice(ts, current, next, a, b);
    }
  }

  lemma {:induction false} CountUpTo(ts: seq<Task>, v: Version) returns (n: nat)
    requires Sorted(ts)
    ensures n <= |ts| && (n < |ts| ==> v.Less(ts[n].version))
    ensures forall i :: 0 <= i < |ts| ==> (i < n <==> ts[i].version.AtMost(v))
  {
    if ts == [] || v.Less(ts[0].version) {
      n := 0;
    } else {
      var m := CountUpTo(ts[1..], v);
      n := m + 1;
      assert forall i :: 0 < i < |ts| ==> ts[i] == ts[1..][i - 1];
    }
  }

  lemma {:induction false} CountBelow(ts: seq<Task>, v: Version) returns (n: nat)
    requires Sorted(ts)
    ensures n <= |ts| && (n < |ts| ==> v.AtMost(ts[n].version))
    ensures forall i :: 0 <= i < |ts| ==> (i < n <==> ts[i].version.Less(v))
  {
    if ts == [] || v.AtMost(ts[0].version) {
      n := 0;
    } else {
      var m := CountBelow(ts[1..], v);
      n := m + 1;
      assert forall i :: 0 < i < |ts| ==> ts[i] == ts[1..][i - 1];
    }
  }

  function Reverse(ts: seq<Task>): (r: seq<Task>)
    ensures |r| == |ts| && forall i :: 0 <= i < |ts| ==> r[i] == ts[|ts| - 1 - i]
  {
    if ts == [] then [] else Reverse(ts[1..]) + [ts[0]]
  }

  lemma {:induction false} DownIsSlice(ts: seq<Task>, lo: Version, hi: Version, a: nat, b: nat)
    requires a <= b <= |ts|
    requires forall i :: 0 <= i < a ==> ts[i].version.Less(lo)
    requires forall i :: a <= i < b ==> lo.AtMost(ts[i].version) && ts[i].version.AtMost(hi)
    requires forall i :: b <= i < |ts| ==> hi.Less(ts[i].version)
    ensures Down(ts, lo, hi) == Reverse(ts[a..b])
  {
    if ts == [] {
    } else {
      if a > 0 {
        DownIsSlice(ts[1..], lo, hi, a - 1, b - 1);
        assert ts[1..][a - 1..b - 1] == ts[a..b];
      } else if b > 0 {
        DownIsSlice(ts[1..], lo, hi, 0, b - 1);
        assert ts[0..b][1..] == ts[1..][0..b - 1];
      } else {
        DownIsSlice(ts[1..], lo, hi, 0, 0);
      }
    }
  }

  /** std::upper_bound: the first task above `v`, by halving. */
  method UpperBound(ts: seq<Task>, v: Version) returns (first: nat)
    requires Sorted(ts)
    ensures first <= |ts|
    ensures forall i :: 0 <= i < first ==> ts[i].version.AtMost(v)
    ensures forall i :: first <= i < |ts| ==> v.Less(ts[i].version)
  {
    first := 0;
    var len: nat := |ts|;
    while len > 0
      invariant 0 <= len && first + len <= |ts|
      invariant forall i :: 0 <= i < first ==> ts[i].version.AtMost(v)
      invariant forall i :: first + len <= i < |ts| ==> v.Less(ts[i].version)
      decreases len
    {
      var half := len / 2;
      var mid := first + half;
      if v.Less(ts[mid].version) {
        len := half;
      } else {
        first := mid + 1;
        len := len - half - 1;
      }
    }
  }

  /** std::lower_bound over the reversed order: how many tasks at the end lie above `v`. */
  method LowerBoundInReverse(ts: seq<Task>, v: Version) returns (first: nat)
    requires Sorted(ts)
    ensures first <= |ts|
    ensures forall i :: 0 <= i < |ts| - first ==> ts[i].version.AtMost(v)
    ensures forall i :: |ts| - first <= i < |ts| ==> v.Less(ts[i].version)
  {
    first := 0;
    var len: nat := |ts|;
    while len > 0
      invariant 0 <= len && first + len <= |ts|
      invariant forall i :: |ts| - first <= i < |ts| ==> v.Less(ts[i].version)
      invariant forall i :: 0 <= i < |ts| - first - len ==> ts[i].version.AtMost(v)
      decreases len
    {
      var half := len / 2;
      var mid := first + half;
      if v.Less(ts[|ts| - 1 - mid].version) {
        first := mid + 1;
        len := len - half - 1;
      } else {
        len := half;
      }
    }
  }

  /** Both branches of `checkout` that select tasks. */
  method SelectTasks(ts: seq<Task>, current: Version, next: Version) returns (changeset: seq<Task>)
    requires Sorted(ts)
    ensures changeset == Changeset(ts, current, next)
  {
    changeset := [];
    if next.Less(current) {
      var above := LowerBoundInReverse(ts, current);
      var bound := |ts| - above;
      var i := bound;
      while i > 0 && !ts[i - 1].version.Less(next)
        invariant 0 <= i <= bound
        invariant forall k :: i <= k < bound ==> next.AtMost(ts[k].version)
        invariant changeset == Reverse(ts[i..bound])
      {
        ReverseStep(ts, i, bound);
        changeset := changeset + [ts[i - 1]];
        i := i - 1;
      }
      DownIsSlice(ts, next, current, i, bound);
    } else {
      var bound := UpperBound(ts, current);
      var i := bound;
      while i < |ts| && !next.Less(ts[i].version)
        invariant bound <= i <= |ts|
        invariant forall k :: bound <= k < i ==> ts[k].version.AtMost(next)
        invariant changeset == ts[bound..i]
      {
        changeset := changeset + [ts[i]];
        i := i + 1;
      }
      BetweenIsSlice(ts, current, next, bound, i);
    }
  }

  lemma ReverseStep(ts: seq<Task>, i: nat, bound: nat)
    requires 0 < i <= bound <= |ts|
    ensures Reverse(ts[i - 1..bound]) == Reverse(ts[i..bound]) + [ts[i - 1]]
  {
    assert ts[i - 1..bound][1..] == ts[i..bound];
  }

  // ----- application

  /** How many tasks of the changeset succeed before the first failure; `replies` says what the k-th callback does. */
  function Successes(cs: seq<Task>, action: Action, replies: nat -> Reply): (n: nat)
    ensures n <= |cs|
    ensures forall k: nat :: k < n ==> cs[k].Apply(action, replies(k))
    ensures n < |cs| ==> !cs[n].Apply(action, replies(n))
  {
    SuccessesFrom(cs, action, replies, 0)
  }

  function SuccessesFrom(cs: seq<Task>, action: Action, replies: nat -> Reply, i: nat): (n: nat)
    requires i <= |cs|
    ensures i <= n <= |cs|
    ensures forall k: nat :: i <= k < n ==> cs[k].Apply(action, replies(k))
    ensures n < |cs| ==> !cs[n].Apply(action, replies(n))
    decreases |cs| - i
  {
    if i < |cs| && cs[i].Apply(action, replies(i)) then SuccessesFrom(cs, action, replies, i + 1) else i
  }

  /** The application as seen from outside: the stored version and every task passed. */
  datatype App = App(stored: Version, log: seq<(Action, Task)>)

  function Logged(action: Action, cs: seq<Task>): (l: seq<(Action, Task)>)
    ensures |l| == |cs| && forall i :: 0 <= i < |cs| ==> l[i] == (action, cs[i])
  {
    seq(|cs|, i requires 0 <= i < |cs| => (action, cs[i]))
  }

  /**
   A checkout passes a task that has no function for the action, or whose callback
   returns true, and stops at the first that returns false or throws. It logs the
   tasks passed and stores the version of the last of them.
   */
  lemma CheckoutPasses(ts: seq<Task>, app: App, next: Version, replies: nat -> Reply) returns (passed: nat)
    requires !next.Same(app.stored)
    ensures var cs, down := Changeset(ts, app.stored, next), next.Less(app.stored);
            && passed <= |cs|
            && (forall k: nat :: k < passed ==>
                 (if down then cs[k].hasRollback else cs[k].hasUpdate) ==> replies(k) == Returns(true))
            && (passed < |cs| ==>
                 (if down then cs[passed].hasRollback else cs[passed].hasUpdate) && replies(passed) != Returns(true))
            && CheckoutFrom(ts, app, next, replies)
               == App(if passed == 0 then app.stored else cs[passed - 1].version,
                      app.log + Logged(if down then Rollback else Update, cs[..passed]))
  {
    passed := Successes(Changeset(ts, app.stored, next), ActionFor(app.stored, next), replies);
  }

  /**
   A checkout leaves the stored version and the log as they were if and only if
   nothing is selected or the first selected task has a function that returns
   false or throws.
   */
  lemma NothingPassedIff(ts: seq<Task>, app: App, next: Version, replies: nat -> Reply)
    requires !next.Same(app.stored)
    ensures var cs := Changeset(ts, app.stored, next);
            CheckoutFrom(ts, app, next, replies) == app
            <==> cs == [] || ((if next.Less(app.stored) then cs[0].hasRollback else cs[0].hasUpdate)
                              && (replies(0) == Throws || replies(0) == Returns(false)))
  {
    var cs := Changeset(ts, app.stored, next);
    var passed := CheckoutPasses(ts, app, next, replies);
    if passed == 0 {
      assert app.log + [] == app.log;
    } else {
      assert |CheckoutFrom(ts, app, next, replies).log| == |app.log| + passed;
    }
  }

  function CheckoutFrom(ts: seq<Task>, app: App, next: Version, replies: nat -> Reply): App {
    if next.Same(app.stored) then app
    else
      var action := ActionFor(app.stored, next);
      var cs := Changeset(ts, app.stored, next);
      var n := Successes(cs, action, replies);
      App(if n == 0 then app.stored else cs[n - 1].version, app.log + Logged(action, cs[..n]))
  }

  lemma {:induction false} BetweenContents(ts: seq<Task>, lo: Version, hi: Version)
    ensures forall t :: t in Between(ts, lo, hi) <==> t in ts && lo.Less(t.version) && t.version.AtMost(hi)
  {
    if ts == [] {
    } else {
      BetweenContents(ts[1..], lo, hi);
      assert forall t :: t in ts <==> t == ts[0] || t in ts[1..];
    }
  }

  lemma {:induction false} BetweenKeepsOrder(ts: seq<Task>, lo: Version, hi: Version)
    requires Retryable(ts)
    ensures Retryable(Between(ts, lo, hi))
  {
    if ts == [] {
    } else {
      var rest := Between(ts[1..], lo, hi);
      BetweenKeepsOrder(ts[1..], lo, hi);
      BetweenContents(ts[1..], lo, hi);
      assert forall x :: x in ts[1..] ==> MayFollow(ts[0], x);
      ConsRetryable(ts[0], rest);
      assert [] + rest == rest;
    }
  }

  lemma ConsRetryable(t: Task, ts: seq<Task>)
    requires Retryable(ts) && forall x :: x in ts ==> MayFollow(t, x)
    ensures Retryable([t] + ts)
  {
  }

  lemma {:induction false} BetweenKeepsStrict(ts: seq<Task>, lo: Version, hi: Version)
    requires StrictlySorted(ts)
    ensures StrictlySorted(Between(ts, lo, hi))
  {
    if ts == [] {
    } else {
      var rest := Between(ts[1..], lo, hi);
      BetweenKeepsStrict(ts[1..], lo, hi);
      BetweenContents(ts[1..], lo, hi);
      assert forall x :: x in ts[1..] ==> ts[0].version.Less(x.version);
      ConsStrict(ts[0], rest);
      assert [] + rest == rest;
    }
  }

  lemma ConsStrict(t: Task, ts: seq<Task>)
    requires StrictlySorted(ts) && forall x :: x in ts ==> t.version.Less(x.version)
    ensures StrictlySorted([t] + ts)
  {
  }

  lemma {:induction false} DownContents(ts: seq<Task>, lo: Version, hi: Version)
    ensures forall t :: t in Down(ts, lo, hi) <==> t in ts && lo.AtMost(t.version) && t.version.AtMost(hi)
    ensures Sorted(ts) ==> forall i, j :: 0 <= i < j < |Down(ts, lo, hi)| ==>
      Down(ts, lo, hi)[j].version.AtMost(Down(ts, lo, hi)[i].version)
  {
    if ts == [] {
    } else {
      var rest := Down(ts[1..], lo, hi);
      DownContents(ts[1..], lo, hi);
      assert forall t :: t in ts <==> t == ts[0] || t in ts[1..];
      assert rest + [] == rest;
      assert forall i :: 0 <= i < |rest| ==> rest[i] in rest;
    }
  }

  /** The stored version moves towards the target and never past it. */
  lemma StoredStaysBetween(ts: seq<Task>, app: App, next: Version, replies: nat -> Reply)
    ensures var v := CheckoutFrom(ts, app, next, replies).stored;
            if next.Less(app.stored) then next.AtMost(v) && v.AtMost(app.stored)
            else app.stored.AtMost(v) && v.AtMost(next)
  {
    var cs := Changeset(ts, app.stored, next);
    var n := Successes(cs, ActionFor(app.stored, next), replies);
    BetweenContents(ts, app.stored, next);
    DownContents(ts, next, app.stored);
    if n > 0 {
      assert cs[n - 1] in cs;
    }
  }

  // ----- upward runs

  /** A sequence of checkouts, none below the version stored at its time. */
  ghost predicate IsUpwardRun(ts: seq<Task>, start: App, targets: seq<Version>, replies: seq<nat -> Reply>,
      apps: seq<App>)
  {
    && |apps| == |targets| + 1 && |replies| == |targets| && apps[0] == start
    && forall i :: 0 <= i < |targets| ==>
         apps[i].stored.AtMost(targets[i]) && apps[i + 1] == CheckoutFrom(ts, apps[i], targets[i], replies[i])
  }

  /** Tasks up to `mid` followed by tasks above it. */
  lemma {:induction false} BetweenSplits(ts: seq<Task>, lo: Version, mid: Version, hi: Version)
    requires Sorted(ts) && lo.AtMost(mid) && mid.AtMost(hi)
    ensures Between(ts, lo, mid) + Between(ts, mid, hi) == Between(ts, lo, hi)
  {
    if ts == [] {
    } else {
      BetweenSplits(ts[1..], lo, mid, hi);
      if mid.Less(ts[0].version) {
        NoneUpTo(ts, lo, mid);
      }
    }
  }

  lemma {:induction false} NoneUpTo(ts: seq<Task>, lo: Version, hi: Version)
    requires forall i :: 0 <= i < |ts| ==> hi.Less(ts[i].version)
    ensures Between(ts, lo, hi) == []
  {
    if ts == [] {
    } else {
      NoneUpTo(ts[1..], lo, hi);
    }
  }

  /**
   Where the changeset is cut between two versions, the tasks that succeeded are
   those up to the version then stored.
   */
  lemma PrefixIsBetween(ts: seq<Task>, lo: Version, hi: Version, n: nat)
    requires Sorted(ts) && 0 < n <= |Between(ts, lo, hi)|
    requires n < |Between(ts, lo, hi)| ==> Between(ts, lo, hi)[n - 1].version.Less(Between(ts, lo, hi)[n].version)
    ensures Between(ts, lo, hi)[..n] == Between(ts, lo, Between(ts, lo, hi)[n - 1].version)
  {
    var cs := Between(ts, lo, hi);
    var mid := cs[n - 1].version;
    BetweenContents(ts, lo, hi);
    assert cs[n - 1] in cs;
    BetweenSplits(ts, lo, mid, hi);
    BetweenContents(ts, lo, mid);
    BetweenContents(ts, mid, hi);
    var a, b := Between(ts, lo, mid), Between(ts, mid, hi);
    forall i | 0 <= i < |a|
      ensures a[i].version.AtMost(mid)
    {
      assert a[i] in a;
    }
    forall i | 0 <= i < |b|
      ensures mid.Less(b[i].version)
    {
      assert b[i] in b;
    }
    SplitPoint(a, b, mid, n);
  }

  /** A sequence cut at a version, its first part not above and its second above, is cut where the version changes. */
  lemma SplitPoint(a: seq<Task>, b: seq<Task>, mid: Version, n: nat)
    requires 0 < n <= |a + b| && (a + b)[n - 1].version == mid
    requires n < |a + b| ==> mid.Less((a + b)[n].version)
    requires forall i :: 0 <= i < |a| ==> a[i].version.AtMost(mid)
    requires forall i :: 0 <= i < |b| ==> mid.Less(b[i].version)
    ensures (a + b)[..n] == a
  {
    var cs := a + b;
    assert forall i :: |a| <= i < |cs| ==> mid.Less(cs[i].version);
    assert n - 1 < |a|;
    assert forall i :: 0 <= i < |a| ==> cs[i].version.AtMost(mid);
    assert |a| <= n;
  }

  lemma LoggedConcat(log: seq<(Action, Task)>, action: Action, a: seq<Task>, b: seq<Task>)
    ensures log + Logged(action, a) + Logged(action, b) == log + Logged(action, a + b)
  {
  }

  /**
   Over every upward run, with arbitrary failures and retries, the updates that
   succeeded are exactly the tasks above the starting version up to the stored
   one, once each and in order (see BetweenKeepsStrict).
   */
  lemma {:induction false} UpwardRunLogsExactly(ts: seq<Task>, start: App, targets: seq<Version>,
      replies: seq<nat -> Reply>, apps: seq<App>, n: nat)
    requires Retryable(ts) && IsUpwardRun(ts, start, targets, replies, apps) && n < |apps|
    ensures start.stored.AtMost(apps[n].stored)
    ensures apps[n].log == start.log + Logged(Update, Between(ts, start.stored, apps[n].stored))
  {
    if n == 0 {
      NothingBetween(ts, start.stored);
      assert start.log + [] == start.log;
    } else {
      UpwardRunLogsExactly(ts, start, targets, replies, apps, n - 1);
      var app, next := apps[n - 1], targets[n - 1];
      assert app.stored.AtMost(next) && apps[n] == CheckoutFrom(ts, app, next, replies[n - 1]);
      UpwardStep(ts, start.stored, app, next, replies[n - 1]);
      VersionOrder(start.stored, app.stored, apps[n].stored);
      LoggedConcat(start.log, Update, Between(ts, start.stored, app.stored), Between(ts, app.stored, apps[n].stored));
    }
  }

  lemma {:induction false} NothingBetween(ts: seq<Task>, v: Version)
    ensures Between(ts, v, v) == []
  {
    if ts == [] {
    } else {
      NothingBetween(ts[1..], v);
    }
  }

  lemma UpwardStep(ts: seq<Task>, start: Version, app: App, next: Version, replies: nat -> Reply)
    requires Retryable(ts) && start.AtMost(app.stored) && app.stored.AtMost(next)
    ensures var app' := CheckoutFrom(ts, app, next, replies);
            && app.stored.AtMost(app'.stored)
            && app'.log == app.log + Logged(Update, Between(ts, app.stored, app'.stored))
            && Between(ts, start, app.stored) + Between(ts, app.stored, app'.stored) == Between(ts, start, app'.stored)
  {
    var app' := CheckoutFrom(ts, app, next, replies);
    StoredStaysBetween(ts, app, next, replies);
    BetweenSplits(ts, start, app.stored, app'.stored);
    NothingBetween(ts, app.stored);
    if !next.Same(app.stored) {
      var cs := Between(ts, app.stored, next);
      var n := Successes(cs, Update, replies);
      if n > 0 {
        BetweenKeepsOrder(ts, app.stored, next);
        PrefixIsBetween(ts, app.stored, next, n);
      }
    } else {
      assert app.log + [] == app.log;
    }
  }

  /** One upward checkout logs exactly the tasks up to the version it stores. */
  ghost predicate LogsExactly(ts: seq<Task>, app: App, next: Version, replies: nat -> Reply) {
    var app' := CheckoutFrom(ts, app, next, replies);
    app'.log == app.log + Logged(Update, Between(ts, app.stored, app'.stored))
  }

  /**
   Upward checkouts log exactly, whatever fails, if and only if tasks that share a
   version cannot fail after the first.
   */
  lemma LogsExactlyIffRetryable(ts: seq<Task>)
    requires Sorted(ts)
    ensures (forall app: App, next: Version, replies: nat -> Reply :: app.stored.AtMost(next) ==>
      LogsExactly(ts, app, next, replies))
            <==> Retryable(ts)
  {
    if Retryable(ts) {
      forall app: App, next: Version, replies: nat -> Reply | app.stored.AtMost(next)
        ensures LogsExactly(ts, app, next, replies)
      {
        UpwardStep(ts, app.stored, app, next, replies);
      }
    } else {
      var i, j :| 0 <= i < j < |ts| && !MayFollow(ts[i], ts[j]);
      SecondCanFail(ts, i, j);
    }
  }

  lemma {:induction false} SelectedAfter(ts: seq<Task>, lo: Version, hi: Version, i: nat, j: nat) returns (q: nat)
    requires i <= j < |ts|
    requires lo.Less(ts[i].version) && ts[i].version.AtMost(hi) && lo.Less(ts[j].version) && ts[j].version.AtMost(hi)
    ensures q < |Between(ts, lo, hi)| && Between(ts, lo, hi)[q] == ts[j] && (i < j ==> q > 0)
  {
    var rest := Between(ts[1..], lo, hi);
    var first := if lo.Less(ts[0].version) && ts[0].version.AtMost(hi) then [ts[0]] else [];
    if j == 0 {
      q := 0;
    } else {
      var k := if i == 0 then j - 1 else i - 1;
      var q' := SelectedAfter(ts[1..], lo, hi, k, j - 1);
      q := |first| + q';
      assert Between(ts, lo, hi)[q] == rest[q'];
    }
  }

  function FailsAt(q: nat): nat -> Reply {
    k => Returns(k != q)
  }

  lemma StopsAt(cs: seq<Task>, q: nat)
    requires q < |cs| && cs[q].hasUpdate
    ensures Successes(cs, Update, FailsAt(q)) == q
  {
    var n := Successes(cs, Update, FailsAt(q));
    assert !cs[q].Apply(Update, FailsAt(q)(q));
    assert n < |cs| && !cs[n].Apply(Update, FailsAt(q)(n));
  }

  /** When the second of two tasks of one version fails, the version is stored although it was not reached. */
  lemma SecondCanFail(ts: seq<Task>, i: nat, j: nat)
    requires Sorted(ts) && i < j < |ts| && ts[i].version.Same(ts[j].version) && ts[j].hasUpdate
    ensures exists app: App, next: Version, replies: nat -> Reply ::
      app.stored.AtMost(next) && !LogsExactly(ts, app, next, replies)
  {
    var v := ts[j].version;
    var app := App(Version(v.gen, v.major - 1, 0, 0), []);
    var cs := Between(ts, app.stored, v);
    var q := SelectedAfter(ts, app.stored, v, i, j);
    var replies := FailsAt(q);
    StopsAt(cs, q);
    BetweenContents(ts, app.stored, v);
    assert cs[q - 1] in cs;
    var app' := CheckoutFrom(ts, app, v, replies);
    assert app'.stored == cs[q - 1].version && app'.stored.Same(v);
    SameBound(ts, app.stored, v, app'.stored);
    assert |app'.log| == q < |cs|;
    assert app.stored.AtMost(v) && !LogsExactly(ts, app, v, replies);
  }

  lemma {:induction false} SameBound(ts: seq<Task>, lo: Version, hi: Version, hi': Version)
    requires hi.Same(hi')
    ensures Between(ts, lo, hi) == Between(ts, lo, hi')
  {
    if ts == [] {
    } else {
      SameBound(ts[1..], lo, hi, hi');
    }
  }

  // ----- what the manager does not promise

  function At(major: int): Version {
    Version(0, major, 0, 0)
  }

  const ALWAYS: nat -> Reply := k => Returns(true)

  /**
   Two tasks of one version: when the second fails, the version is stored as
   reached and the second is never tried again.
   */
  lemma EqualVersionsAreSkipped()
    ensures var a, b := Task(At(1), true, false, 1), Task(At(1), true, false, 2);
            var failsSecond := k => Returns(k == 0);
            var once := CheckoutFrom([a, b], App(At(0), []), At(1), failsSecond);
            && once == App(At(1), [(Update, a)])
            && CheckoutFrom([a, b], once, At(1), ALWAYS) == once
  {
    var a, b := Task(At(1), true, false, 1), Task(At(1), true, false, 2);
    var failsSecond := k => Returns(k == 0);
    BetweenIsSlice([a, b], At(0), At(1), 0, 2);
    var cs := Between([a, b], At(0), At(1));
    assert cs == [a, b];
    assert SuccessesFrom(cs, Update, failsSecond, 1) == 1;
    assert cs[..1] == [a];
    assert Logged(Update, [a]) == [(Update, a)];
  }

  // ----- the object

  class Manager {
    var tasks: seq<Task>
    /** The version behind the load and save callbacks, where these are set. */
    var stored: Version
    var hasLoad: bool
    var hasSave: bool
    ghost var log: seq<(Action, Task)>

    ghost function State(): App
      reads this
    {
      App(stored, log)
    }

    constructor (stored: Version, hasLoad: bool, hasSave: bool)
      ensures tasks == [] && State() == App(stored, []) && this.hasLoad == hasLoad && this.hasSave == hasSave
    {
      tasks, log := [], [];
      this.stored, this.hasLoad, this.hasSave := stored, hasLoad, hasSave;
    }

    /** A task without any function is refused only when it is given as functions. */
    method AddTask(task: Option<Task>, asFunctions: bool) returns (r: Result<(), Error>)
      requires Sorted(tasks)
      modifies this`tasks
      ensures Sorted(tasks)
      ensures r == match task
                   case None => Failure(NullTask)
                   case Some(t) =>
                     if asFunctions && !t.hasUpdate && !t.hasRollback then Failure(NoFunctions) else Success(())
      ensures r.Success? ==> multiset(tasks) == old(multiset(tasks)) + multiset{task.value}
      ensures r.Success? ==> exists i ::
        && 0 <= i <= |old(tasks)| && tasks == old(tasks)[..i] + [task.value] + old(tasks)[i..]
        && (forall k :: 0 <= k < i ==> old(tasks)[k].version.AtMost(task.value.version))
        && forall k :: i <= k < |old(tasks)| ==> task.value.version.Less(old(tasks)[k].version)
      ensures r.Failure? ==> tasks == old(tasks)
    {
      match task
      case None => return Failure(NullTask);
      case Some(t) =>
        if asFunctions && !t.hasUpdate && !t.hasRollback {
          return Failure(NoFunctions);
        }
        InsertKeepsSorted(tasks, t);
        ghost var i := InsertPosition(tasks, t);
        tasks := Insert(tasks, t);
        return Success(());
    }

    method LatestVersion() returns (r: Result<Version, Error>)
      requires Sorted(tasks)
      ensures tasks == [] ==> r == Failure(NoVersion)
      ensures tasks != [] ==>
        && r.Success? && (exists t :: t in tasks && t.version == r.value)
        && forall t :: t in tasks ==> t.version.AtMost(r.value)
    {
      if tasks == [] {
        return Failure(NoVersion);
      }
      var last := tasks[|tasks| - 1];
      assert last in tasks;
      return Success(last.version);
    }

    /** Selects, applies until the first failure, and saves the last version that succeeded. */
    method Checkout(next: Version, replies: nat -> Reply) returns (r: Result<Version, Error>, ghost passed: nat)
      requires Sorted(tasks)
      modifies this`stored, this`log
      ensures !hasLoad || !hasSave ==> r == Failure(NoCallback) && State() == old(State())
      ensures hasLoad && hasSave ==> State() == old(CheckoutFrom(tasks, State(), next, replies)) && r == Success(stored)
      ensures hasLoad && hasSave && !next.Same(old(stored)) ==>
        var cs, down := old(Changeset(tasks, stored, next)), next.Less(old(stored));
        && passed <= |cs|
        && (forall k: nat :: k < passed ==>
             (if down then cs[k].hasRollback else cs[k].hasUpdate) ==> replies(k) == Returns(true))
        && (passed < |cs| ==>
             (if down then cs[passed].hasRollback else cs[passed].hasUpdate) && replies(passed) != Returns(true))
        && stored == (if passed == 0 then old(stored) else cs[passed - 1].version)
        && log == old(log) + Logged(if down then Rollback else Update, cs[..passed])
    {
      if !hasLoad || !hasSave {
        return Failure(NoCallback), 0;
      }
      var current := stored;
      if next.Same(current) {
        stored := current;
        return Success(current), 0;
      }
      passed := CheckoutPasses(tasks, State(), next, replies);
      var changeset := SelectTasks(tasks, current, next);
      var last := ApplyUntilFailure(changeset, ActionFor(current, next), replies);
      stored := last;
      r := Success(last);
    }

    /** The loop over the changeset; the stored version is that of the last task that succeeded. */
    method ApplyUntilFailure(changeset: seq<Task>, action: Action, replies: nat -> Reply) returns (last: Version)
      modifies this`log
      ensures var n := Successes(changeset, action, replies);
              && last == (if n == 0 then stored else changeset[n - 1].version)
              && log == old(log) + Logged(action, changeset[..n])
    {
      last := stored;
      var k := 0;
      var status := true;
      assert log + Logged(action, changeset[..0]) == log;
      while k < |changeset| && status
        invariant 0 <= k <= |changeset|
        invariant status ==> Successes(changeset, action, replies) == SuccessesFrom(changeset, action, replies, k)
        invariant !status ==> Successes(changeset, action, replies) == k
        invariant last == if k == 0 then stored else changeset[k - 1].version
        invariant log == old(log) + Logged(action, changeset[..k])
        decreases |changeset| - k, status
      {
        status := changeset[k].Apply(action, replies(k));
        if status {
          last := changeset[k].version;
          LoggedStep(old(log), action, changeset, k);
          log := log + [(action, changeset[k])];
          k := k + 1;
        }
      }
    }
  }

  lemma LoggedStep(l: seq<(Action, Task)>, action: Action, cs: seq<Task>, k: nat)
    requires k < |cs|
    ensures l + Logged(action, cs[..k]) + [(action, cs[k])] == l + Logged(action, cs[..k + 1])
  {
    assert Logged(action, cs[..k]) + [(action, cs[k])] == Logged(action, cs[..k + 1]);
  }
}
