/**
 Downward checkouts of the migration manager: what they log, what updating back
 restores, and what a second downward checkout undoes again. A task counts as
 undone when it is passed downwards, as it does for the manager, also when it
 has no rollback function.
 */
module MigrationRollback {

  import opened Migration

  /** The tasks one checkout passes, in order: their callback succeeds or they have none. */
  function Performed(ts: seq<Task>, app: App, next: Version, replies: nat -> Reply): seq<Task> {
    if next.Same(app.stored) then []
    else
      var cs := Changeset(ts, app.stored, next);
      cs[..Successes(cs, ActionFor(app.stored, next), replies)]
  }

  lemma CheckoutLogsPerformed(ts: seq<Task>, app: App, next: Version, replies: nat -> Reply)
    ensures CheckoutFrom(ts, app, next, replies).log
            == app.log + Logged(ActionFor(app.stored, next), Performed(ts, app, next, replies))
    ensures Performed(ts, app, next, replies) == [] ==> CheckoutFrom(ts, app, next, replies) == app
  {
    assert app.log + [] == app.log;
  }

  // ----- the shape of a downward changeset

  /** The tasks from `lo` up to but not at `hi`, descending. */
  function DownBelow(ts: seq<Task>, lo: Version, hi: Version): seq<Task> {
    if ts == [] then []
    else DownBelow(ts[1..], lo, hi) + (if lo.AtMost(ts[0].version) && ts[0].version.Less(hi) then [ts[0]] else [])
  }

  lemma {:induction false} DownBelowContents(ts: seq<Task>, lo: Version, hi: Version)
    ensures forall t :: t in DownBelow(ts, lo, hi) ==> t in ts && t.version.Less(hi)
  {
    if ts == [] {
    } else {
      DownBelowContents(ts[1..], lo, hi);
      assert forall t :: t in ts[1..] ==> t in ts;
    }
  }

  lemma {:induction false} NoneBelow(ts: seq<Task>, lo: Version, hi: Version)
    requires forall t :: t in ts ==> hi.AtMost(t.version)
    ensures DownBelow(ts, lo, hi) == []
  {
    if ts == [] {
    } else {
      assert forall t :: t in ts[1..] ==> t in ts;
      NoneBelow(ts[1..], lo, hi);
    }
  }

  lemma SortedHead(ts: seq<Task>)
    requires Sorted(ts) && ts != []
    ensures Sorted(ts[1..])
    ensures forall t :: t in ts ==> ts[0].version.AtMost(t.version)
  {
  }

  lemma {:induction false} DownSplits(ts: seq<Task>, lo: Version, mid: Version, hi: Version)
    requires Sorted(ts) && lo.AtMost(mid) && mid.AtMost(hi)
    ensures Down(ts, mid, hi) + DownBelow(ts, lo, mid) == Down(ts, lo, hi)
  {
    if ts == [] {
    } else {
      SortedHead(ts);
      DownSplits(ts[1..], lo, mid, hi);
      var above, below := Down(ts[1..], mid, hi), DownBelow(ts[1..], lo, mid);
      if ts[0].version.Less(mid) {
        assert above + (below + [ts[0]]) == above + below + [ts[0]];
      } else {
        NoneBelow(ts, lo, mid);
        NoneBelow(ts[1..], lo, mid);
        assert above + [] == above;
      }
    }
  }

  /** Where the changeset is cut between two versions, the tasks undone are those down to the version then stored. */
  lemma PrefixIsDown(ts: seq<Task>, lo: Version, hi: Version, n: nat)
    requires Sorted(ts) && 0 < n <= |Down(ts, lo, hi)|
    requires n < |Down(ts, lo, hi)| ==> Down(ts, lo, hi)[n].version.Less(Down(ts, lo, hi)[n - 1].version)
    ensures Down(ts, lo, hi)[..n] == Down(ts, Down(ts, lo, hi)[n - 1].version, hi)
  {
    var cs := Down(ts, lo, hi);
    var mid := cs[n - 1].version;
    DownContents(ts, lo, hi);
    assert cs[n - 1] in cs;
    DownSplits(ts, lo, mid, hi);
    DownContents(ts, mid, hi);
    DownBelowContents(ts, lo, mid);
    var a, b := Down(ts, mid, hi), DownBelow(ts, lo, mid);
    CutPoint(a, b, mid, n);
  }

  lemma CutPoint(a: seq<Task>, b: seq<Task>, mid: Version, n: nat)
    requires 0 < n <= |a + b| && (a + b)[n - 1].version == mid
    requires n < |a + b| ==> (a + b)[n].version.Less(mid)
    requires forall t :: t in a ==> mid.AtMost(t.version)
    requires forall t :: t in b ==> t.version.Less(mid)
    ensures (a + b)[..n] == a
  {
    var cs := a + b;
    assert forall i :: 0 <= i < |b| ==> b[i] in b;
    assert forall i :: |a| <= i < |cs| ==> cs[i].version.Less(mid);
    assert n - 1 < |a|;
    assert forall i :: 0 <= i < |a| ==> a[i] in a;
    assert forall i :: 0 <= i < |a| ==> mid.AtMost(cs[i].version);
    assert |a| <= n;
  }

  // ----- what a downward checkout logs

  /**
   Ordered, and of tasks with one version only the last has a rollback function, so
   only the first to be undone can fail.
   */
  ghost predicate RollbackRetryable(ts: seq<Task>) {
    forall i, j :: 0 <= i < j < |ts| ==> MayPrecede(ts[i], ts[j])
  }

  predicate MayPrecede(t: Task, u: Task) {
    t.version.Less(u.version) || (t.version.Same(u.version) && !t.hasRollback)
  }

  lemma {:induction false} DownKeepsRetryable(ts: seq<Task>, lo: Version, hi: Version)
    requires RollbackRetryable(ts)
    ensures forall i, j :: 0 <= i < j < |Down(ts, lo, hi)| ==> MayPrecede(Down(ts, lo, hi)[j], Down(ts, lo, hi)[i])
  {
    if ts == [] {
    } else {
      var rest := Down(ts[1..], lo, hi);
      DownKeepsRetryable(ts[1..], lo, hi);
      DownContents(ts[1..], lo, hi);
      assert forall x :: x in ts[1..] ==> MayPrecede(ts[0], x);
      assert forall i :: 0 <= i < |rest| ==> rest[i] in rest;
      assert rest + [] == rest;
    }
  }

  /**
   One downward checkout changes nothing, or undoes exactly the tasks from the old
   stored version down to the new one.
   */
  ghost predicate UndoesExactly(ts: seq<Task>, app: App, next: Version, replies: nat -> Reply) {
    var after := CheckoutFrom(ts, app, next, replies);
    after == app || after.log == app.log + Logged(Rollback, Down(ts, after.stored, app.stored))
  }

  lemma DownwardStep(ts: seq<Task>, app: App, next: Version, replies: nat -> Reply)
    requires RollbackRetryable(ts) && next.Less(app.stored)
    ensures UndoesExactly(ts, app, next, replies)
    ensures var undone := Performed(ts, app, next, replies);
            undone != [] ==> undone == Down(ts, CheckoutFrom(ts, app, next, replies).stored, app.stored)
  {
    var cs := Down(ts, next, app.stored);
    var n := Successes(cs, Rollback, replies);
    CheckoutLogsPerformed(ts, app, next, replies);
    if n > 0 {
      DownKeepsRetryable(ts, next, app.stored);
      PrefixIsDown(ts, next, app.stored, n);
    }
  }

  /**
   Downward checkouts undo exactly the tasks down to the version they store,
   whatever fails, if and only if of tasks that share a version only the first
   to be undone can fail.
   */
  lemma UndoesExactlyIffRetryable(ts: seq<Task>)
    requires Sorted(ts)
    ensures (forall app: App, next: Version, replies: nat -> Reply :: next.Less(app.stored) ==>
      UndoesExactly(ts, app, next, replies))
            <==> RollbackRetryable(ts)
  {
    if RollbackRetryable(ts) {
      forall app: App, next: Version, replies: nat -> Reply | next.Less(app.stored)
        ensures UndoesExactly(ts, app, next, replies)
      {
        DownwardStep(ts, app, next, replies);
      }
    } else {
      var i, j :| 0 <= i < j < |ts| && !MayPrecede(ts[i], ts[j]);
      FirstCanFail(ts, i, j);
    }
  }

  /** Position of the i-th task in a changeset that also selects the later j-th. */
  lemma {:induction false} SelectedBefore(ts: seq<Task>, lo: Version, hi: Version, i: nat, j: nat) returns (q: nat)
    requires i < j < |ts|
    requires lo.AtMost(ts[i].version) && ts[i].version.AtMost(hi) && lo.AtMost(ts[j].version)
      && ts[j].version.AtMost(hi)
    ensures 0 < q < |Down(ts, lo, hi)| && Down(ts, lo, hi)[q] == ts[i]
  {
    var rest := Down(ts[1..], lo, hi);
    if i > 0 {
      q := SelectedBefore(ts[1..], lo, hi, i - 1, j - 1);
      assert Down(ts, lo, hi)[q] == rest[q];
    } else {
      q := |rest|;
      DownContents(ts[1..], lo, hi);
      assert ts[1..][j - 1] in ts[1..];
      assert ts[j] in rest;
    }
  }

  lemma RollbackStopsAt(cs: seq<Task>, q: nat)
    requires q < |cs| && cs[q].hasRollback
    ensures Successes(cs, Rollback, FailsAt(q)) == q
  {
    var n := Successes(cs, Rollback, FailsAt(q));
    assert !cs[q].Apply(Rollback, FailsAt(q)(q));
    assert n < |cs| && !cs[n].Apply(Rollback, FailsAt(q)(n));
  }

  lemma {:induction false} SameLowerBound(ts: seq<Task>, lo: Version, lo': Version, hi: Version)
    requires lo.Same(lo')
    ensures Down(ts, lo, hi) == Down(ts, lo', hi)
  {
    if ts == [] {
    } else {
      SameLowerBound(ts[1..], lo, lo', hi);
    }
  }

  /** A task of the greatest selected version is among those of that version, which come first. */
  lemma LiesAtTop(ts: seq<Task>, lo: Version, v: Version, q: nat)
    requires Sorted(ts) && lo.Less(v) && q < |Down(ts, lo, v)| && Down(ts, lo, v)[q].version.Same(v)
    ensures q < |Down(ts, v, v)|
  {
    DownSplits(ts, lo, v, v);
    DownBelowContents(ts, lo, v);
    var all, below := Down(ts, v, v), DownBelow(ts, lo, v);
    assert forall i :: 0 <= i < |below| ==> below[i] in below;
    assert forall i :: |all| <= i < |all + below| ==> (all + below)[i].version.Less(v);
  }

  /**
   When the earlier of two tasks of one version fails to roll back, the version is
   stored although part of it is undone.
   */
  lemma FirstCanFail(ts: seq<Task>, i: nat, j: nat)
    requires Sorted(ts) && i < j < |ts| && ts[i].version.Same(ts[j].version) && ts[i].hasRollback
    ensures exists app: App, next: Version, replies: nat -> Reply ::
      next.Less(app.stored) && !UndoesExactly(ts, app, next, replies)
  {
    var v := ts[i].version;
    var next := Version(v.gen, v.major - 1, 0, 0);
    var app := App(v, []);
    var cs := Down(ts, next, v);
    var q := SelectedBefore(ts, next, v, i, j);
    var replies := FailsAt(q);
    RollbackStopsAt(cs, q);
    DownContents(ts, next, v);
    var after := CheckoutFrom(ts, app, next, replies);
    assert after.stored == cs[q - 1].version && cs[q - 1] in cs && after.stored.Same(v);
    SameLowerBound(ts, v, after.stored, v);
    LiesAtTop(ts, next, v, q);
    assert |after.log| == q < |Down(ts, v, v)|;
    assert next.Less(app.stored) && !UndoesExactly(ts, app, next, replies);
  }

  // ----- updating back

  lemma {:induction false} DownIsReversedBetween(ts: seq<Task>, lo: Version, hi: Version)
    requires Sorted(ts) && lo.AtMost(hi)
    ensures Down(ts, lo, hi) == Reverse(Between(ts, lo, hi)) + Down(ts, lo, lo)
  {
    if ts == [] {
    } else {
      SortedHead(ts);
      DownIsReversedBetween(ts[1..], lo, hi);
      if lo.Less(ts[0].version) {
        AboveIsReversed(ts, lo, hi);
      } else {
        assert [] + Between(ts[1..], lo, hi) == Between(ts[1..], lo, hi);
      }
    }
  }

  lemma AboveIsReversed(ts: seq<Task>, lo: Version, hi: Version)
    requires ts != [] && forall t :: t in ts ==> lo.Less(t.version)
    requires Down(ts[1..], lo, hi) == Reverse(Between(ts[1..], lo, hi)) + Down(ts[1..], lo, lo)
    ensures Down(ts, lo, hi) == Reverse(Between(ts, lo, hi)) + Down(ts, lo, lo)
  {
    var t, rest := ts[0], ts[1..];
    NoneAt(ts, lo);
    NoneAt(rest, lo);
    var b := Between(rest, lo, hi);
    assert ([t] + b)[1..] == b && [] + b == b;
    assert Reverse(b) + [] == Reverse(b);
  }

  lemma {:induction false} NoneAt(ts: seq<Task>, v: Version)
    requires forall t :: t in ts ==> v.Less(t.version)
    ensures Down(ts, v, v) == []
  {
    if ts == [] {
    } else {
      assert forall t :: t in ts[1..] ==> t in ts;
      NoneAt(ts[1..], v);
    }
  }

  /**
   Whatever the rollback reached and whatever the later update tries, the last
   task undone is not among the tasks the update selects: an update redoes all
   undone tasks if and only if none was undone.
   */
  lemma UpdateRestoresIffNothingUndone(ts: seq<Task>, app: App, next: Version, replies: nat -> Reply, target: Version)
    requires next.Less(app.stored)
    ensures var undone := Performed(ts, app, next, replies);
            var down := CheckoutFrom(ts, app, next, replies);
            && (undone != [] ==> down.stored == undone[|undone| - 1].version)
            && ((forall t :: t in undone ==> t in Between(ts, down.stored, target)) <==> undone == [])
  {
    var undone := Performed(ts, app, next, replies);
    var down := CheckoutFrom(ts, app, next, replies);
    BetweenContents(ts, down.stored, target);
    assert undone != [] ==> undone[|undone| - 1] in undone && undone[|undone| - 1] !in Between(ts, down.stored, target);
  }

  /**
   An update back in which every callback succeeds redoes, in order, what was
   undone except the tasks of the version stored.
   */
  lemma UpdateBackSkipsStored(ts: seq<Task>, app: App, next: Version, replies: nat -> Reply, again: nat -> Reply)
    requires RollbackRetryable(ts) && next.Less(app.stored)
    requires forall k :: again(k) == Returns(true)
    ensures var undone := Performed(ts, app, next, replies);
            var down := CheckoutFrom(ts, app, next, replies);
            var redone := Performed(ts, down, app.stored, again);
            undone == if undone == [] then [] else Reverse(redone) + Down(ts, down.stored, down.stored)
  {
    var undone := Performed(ts, app, next, replies);
    var down := CheckoutFrom(ts, app, next, replies);
    DownwardStep(ts, app, next, replies);
    if undone != [] {
      StoredStaysBetween(ts, app, next, replies);
      DownIsReversedBetween(ts, down.stored, app.stored);
      var up := Between(ts, down.stored, app.stored);
      if app.stored.Same(down.stored) {
        SameBound(ts, down.stored, app.stored, down.stored);
        NothingBetween(ts, down.stored);
      } else {
        assert Successes(up, Update, again) == |up|;
        assert up[..|up|] == up;
      }
    }
  }

  // ----- a second downward checkout

  /**
   Two downward checkouts in a row have an undone task in common if and only if
   each undoes something: the task of the version stored is undone twice.
   */
  lemma RollbacksRepeatIffBothUndo(ts: seq<Task>, app: App, next: Version, next': Version, replies: nat -> Reply,
      replies': nat -> Reply)
    requires Sorted(ts) && next.Less(app.stored)
    requires next'.Less(CheckoutFrom(ts, app, next, replies).stored)
    ensures var undone := Performed(ts, app, next, replies);
            var again := Performed(ts, CheckoutFrom(ts, app, next, replies), next', replies');
            && ((exists t :: t in undone && t in again) <==> undone != [] && again != [])
            && (undone != [] && again != [] ==> again[0] in undone)
  {
    var undone := Performed(ts, app, next, replies);
    var down := CheckoutFrom(ts, app, next, replies);
    var again := Performed(ts, down, next', replies');
    if undone != [] && again != [] {
      var cs, n := Down(ts, next, app.stored), |undone|;
      assert undone == cs[..n] && down.stored == cs[n - 1].version;
      DownContents(ts, next, app.stored);
      assert cs[n - 1] in cs;
      FirstDownIsReached(ts, next, app.stored, n, next');
      assert again[0] in undone;
    }
  }

  /**
   The first task of a changeset that starts at the version of the n-th task of
   another is among the first n of that other.
   */
  lemma FirstDownIsReached(ts: seq<Task>, lo: Version, hi: Version, n: nat, lo': Version)
    requires Sorted(ts) && 0 < n <= |Down(ts, lo, hi)|
    requires lo'.Less(Down(ts, lo, hi)[n - 1].version)
    ensures var first := Down(ts, lo', Down(ts, lo, hi)[n - 1].version);
            first != [] && first[0] in Down(ts, lo, hi)[..n]
  {
    var cs := Down(ts, lo, hi);
    var mid := cs[n - 1].version;
    var at := Down(ts, mid, mid);
    DownContents(ts, lo, hi);
    assert cs[n - 1] in cs;
    DownContents(ts, mid, mid);
    assert cs[n - 1] in at;
    DownSplits(ts, lo', mid, mid);
    var p := StartOf(ts, lo, mid, hi, n);
    assert cs[..n][p] == at[0];
  }

  /** Where the tasks of version `mid` start in a changeset whose n-th task is of that version. */
  lemma StartOf(ts: seq<Task>, lo: Version, mid: Version, hi: Version, n: nat) returns (p: nat)
    requires Sorted(ts) && 0 < n <= |Down(ts, lo, hi)| && Down(ts, lo, hi)[n - 1].version == mid
    requires lo.AtMost(mid) && mid.AtMost(hi) && Down(ts, mid, mid) != []
    ensures p < n && Down(ts, lo, hi)[p] == Down(ts, mid, mid)[0]
  {
    var cs, above, at := Down(ts, lo, hi), Between(ts, mid, hi), Down(ts, mid, mid);
    DownSplits(ts, lo, mid, hi);
    DownIsReversedBetween(ts, mid, hi);
    assert cs == Reverse(above) + at + DownBelow(ts, lo, mid);
    BetweenContents(ts, mid, hi);
    assert forall i :: 0 <= i < |above| ==> above[i] in above;
    assert forall i :: 0 <= i < |above| ==> cs[i] == above[|above| - 1 - i] && mid.Less(cs[i].version);
    p := |above|;
  }

  // ----- downward runs

  /** A sequence of checkouts, each below the version stored at its time. */
  ghost predicate IsDownwardRun(ts: seq<Task>, start: App, targets: seq<Version>, replies: seq<nat -> Reply>,
      apps: seq<App>)
  {
    && |apps| == |targets| + 1 && |replies| == |targets| && apps[0] == start
    && forall i :: 0 <= i < |targets| ==>
         targets[i].Less(apps[i].stored) && apps[i + 1] == CheckoutFrom(ts, apps[i], targets[i], replies[i])
  }

  /** What a log holds beyond the first `from` calls. */
  ghost predicate Undid(app: App, from: nat, t: Task) {
    exists k :: from <= k < |app.log| && app.log[k] == (Rollback, t)
  }

  /**
   Over every downward run, whatever fails, either nothing changed or the tasks
   undone, some of them repeatedly, are those from the starting version down to
   the stored one.
   */
  lemma {:induction false} DownwardRunUndoes(ts: seq<Task>, start: App, targets: seq<Version>,
      replies: seq<nat -> Reply>, apps: seq<App>, n: nat)
    requires RollbackRetryable(ts) && IsDownwardRun(ts, start, targets, replies, apps) && n < |apps|
    ensures apps[n].stored.AtMost(start.stored) && |start.log| <= |apps[n].log|
    ensures apps[n] == start || forall t :: Undid(apps[n], |start.log|, t) <==>
      t in Down(ts, apps[n].stored, start.stored)
  {
    if n == 0 {
    } else {
      DownwardRunUndoes(ts, start, targets, replies, apps, n - 1);
      var app, next := apps[n - 1], targets[n - 1];
      assert next.Less(app.stored) && apps[n] == CheckoutFrom(ts, app, next, replies[n - 1]);
      DownwardStep(ts, app, next, replies[n - 1]);
      CheckoutLogsPerformed(ts, app, next, replies[n - 1]);
      StoredStaysBetween(ts, app, next, replies[n - 1]);
      VersionOrder(apps[n].stored, app.stored, start.stored);
      if apps[n] != app {
        DownRunStep(ts, start, app, apps[n]);
      }
    }
  }

  lemma DownRunStep(ts: seq<Task>, start: App, app: App, after: App)
    requires app.stored.AtMost(start.stored) && after.stored.AtMost(app.stored) && |start.log| <= |app.log|
    requires app == start || forall t :: Undid(app, |start.log|, t) <==> t in Down(ts, app.stored, start.stored)
    requires after.log == app.log + Logged(Rollback, Down(ts, after.stored, app.stored))
    ensures forall t :: Undid(after, |start.log|, t) <==> t in Down(ts, after.stored, start.stored)
  {
    forall t
      ensures Undid(after, |start.log|, t) <==> t in Down(ts, after.stored, start.stored)
    {
      UndidMore(app, after, |start.log|, Down(ts, after.stored, app.stored), t);
      if app != start {
        DownJoins(ts, after.stored, app.stored, start.stored, t);
      }
    }
  }

  lemma UndidMore(app: App, after: App, from: nat, more: seq<Task>, t: Task)
    requires from <= |app.log| && after.log == app.log + Logged(Rollback, more)
    ensures Undid(after, from, t) <==> Undid(app, from, t) || t in more
  {
    if t in more {
      var k :| 0 <= k < |more| && more[k] == t;
      assert after.log[|app.log| + k] == (Rollback, t);
    } else if Undid(app, from, t) {
      var k :| from <= k < |app.log| && app.log[k] == (Rollback, t);
      assert after.log[k] == (Rollback, t);
    }
  }

  lemma DownJoins(ts: seq<Task>, lo: Version, mid: Version, hi: Version, t: Task)
    requires lo.AtMost(mid) && mid.AtMost(hi)
    ensures t in Down(ts, lo, hi) <==> t in Down(ts, mid, hi) || t in Down(ts, lo, mid)
  {
    DownContents(ts, lo, mid);
    DownContents(ts, mid, hi);
    DownContents(ts, lo, hi);
  }

  // ----- instances

  const FIRST := Task(At(1), true, true, 1)
  const SECOND := Task(At(2), true, true, 2)

  lemma BothDown()
    ensures Down([FIRST, SECOND], At(1), At(2)) == [SECOND, FIRST]
  {
    DownIsSlice([FIRST, SECOND], At(1), At(2), 0, 2);
    assert [FIRST, SECOND][0..2][1..] == [SECOND];
  }

  /** A rollback in which both callbacks succeed. */
  lemma BothUndone(log: seq<(Action, Task)>)
    ensures CheckoutFrom([FIRST, SECOND], App(At(2), log), At(1), ALWAYS)
            == App(At(1), log + [(Rollback, SECOND), (Rollback, FIRST)])
  {
    BothDown();
    var cs := [SECOND, FIRST];
    assert Successes(cs, Rollback, ALWAYS) == 2 && cs[..2] == cs;
    assert Logged(Rollback, cs) == [(Rollback, SECOND), (Rollback, FIRST)];
  }

  /** Rolling back to a version also undoes the task of that version, and updating again does not redo it. */
  lemma RollbackUndoesTarget()
    ensures var tasks := [FIRST, SECOND];
            var up := App(At(2), [(Update, FIRST), (Update, SECOND)]);
            var down := CheckoutFrom(tasks, up, At(1), ALWAYS);
            && down == App(At(1), up.log + [(Rollback, SECOND), (Rollback, FIRST)])
            && CheckoutFrom(tasks, down, At(2), ALWAYS) == App(At(2), down.log + [(Update, SECOND)])
  {
    BothUndone([(Update, FIRST), (Update, SECOND)]);
    BetweenIsSlice([FIRST, SECOND], At(1), At(2), 1, 2);
    var cs := [SECOND];
    assert [FIRST, SECOND][1..2] == cs;
    assert Successes(cs, Update, ALWAYS) == 1 && cs[..1] == cs;
    assert Logged(Update, cs) == [(Update, SECOND)];
  }

  /**
   A rollback whose second callback fails stores the version it started from
   although the task of that version is undone; trying again undoes it again.
   */
  lemma FailedRollbackRepeats()
    ensures var tasks := [FIRST, SECOND];
            var once := CheckoutFrom(tasks, App(At(2), []), At(1), FailsAt(1));
            && once == App(At(2), [(Rollback, SECOND)])
            && CheckoutFrom(tasks, once, At(1), ALWAYS)
              == App(At(1), once.log + [(Rollback, SECOND), (Rollback, FIRST)])
  {
    OneUndone();
    BothUndone([(Rollback, SECOND)]);
  }

  lemma OneUndone()
    ensures CheckoutFrom([FIRST, SECOND], App(At(2), []), At(1), FailsAt(1)) == App(At(2), [(Rollback, SECOND)])
  {
    BothDown();
    var cs := [SECOND, FIRST];
    RollbackStopsAt(cs, 1);
    assert cs[..1] == [SECOND];
    assert Logged(Rollback, [SECOND]) == [(Rollback, SECOND)];
    assert [] + [(Rollback, SECOND)] == [(Rollback, SECOND)];
  }
}
