/**
 What `calcNext` returns: for every rule set, every starting instant and every
 number of steps of the search.
 */
module CronTheorems {

  import opened Calendar
  import opened CronRules
  import opened CronSearch
  import opened Instants

  /** The outcome of a run does not depend on how long one watches it. */
  lemma OutcomeUnique(r: FiveRules, now: Instant, m: nat, n: nat)
    requires HaltsWithin(r, now, m) && HaltsWithin(r, now, n)
    ensures After(r, now, m) == After(r, now, n)
  {
    var s := Start(r, now);
    if m <= n {
      IterateAdd(r, s, m, n - m);
      HaltedStays(r, Iterate(r, s, m), n - m);
    } else {
      IterateAdd(r, s, n, m - n);
      HaltedStays(r, Iterate(r, s, n), m - n);
    }
  }

  // ----- soundness

  /** Every returned candidate is in range, on an allowed weekday, a real date and before 2099. */
  lemma FoundInRange(r: FiveRules, now: Instant, n: nat)
    requires WellFormed(r, now[YEAR]) && InCalendar(now)
    requires After(r, now, n).status == Found
    ensures var c := After(r, now, n).c;
            && (forall p :: 1 <= p < 5 ==> r.fields[p].lo <= c[p] <= r.fields[p].hi)
            && RuleValid(r, 5, c) && RuleValid(r, 6, c) && c[YEAR] < MAX_YEAR
  {
    RunInv(r, now, n);
    var s := After(r, now, n);
    forall p | 1 <= p < 5
      ensures r.fields[p].lo <= s.c[p] <= r.fields[p].hi
    {
      assert p <= s.moved ==> RuleValid(r, 4 - p, s.c);
    }
  }

  /** Counted in days since Thursday 1970-01-01, a returned date falls on an allowed weekday. */
  lemma FoundOnWeekday(r: FiveRules, now: Instant, n: nat)
    requires WellFormed(r, now[YEAR]) && InCalendar(now) && now[YEAR] >= 1970
    requires After(r, now, n).status == Found
    ensures var c := After(r, now, n).c;
            RealInstant(c) && (DayNumber(c[YEAR], c[MONTH], c[MDAY]) + 4) % 7 in r.days
  {
    RunInv(r, now, n);
    FoundInRange(r, now, n);
    var c := After(r, now, n).c;
    WeekDayIsDayCount(c[MDAY], c[MONTH], c[YEAR]);
  }

  /**
   A returned candidate satisfies the rules exactly when the parts below the
   last one its own rule had to move in the accepting pass are aligned.
   */
  lemma FoundMatchesIffAligned(r: FiveRules, now: Instant, n: nat)
    requires WellFormed(r, now[YEAR]) && InCalendar(now)
    requires After(r, now, n).status == Found
    ensures var s := After(r, now, n);
            (forall p :: 1 <= p < 5 && s.moved < p ==> r.fields[p].Aligned()) <==> Matches(r, s.c)
  {
    RunInv(r, now, n);
    var s := After(r, now, n);
    forall p | s.moved < p < 5 && 1 <= p
      ensures RuleValid(r, 4 - p, s.c) == r.fields[p].Aligned()
    {
      assert s.c[p] == r.fields[p].lo;
    }
    if forall p :: 1 <= p < 5 && s.moved < p ==> r.fields[p].Aligned() {
      forall k | 0 <= k < 7
        ensures RuleValid(r, k, s.c)
      {
        if k < 5 && s.moved < 4 - k {
          assert RuleValid(r, 4 - (4 - k), s.c) == r.fields[4 - k].Aligned();
        }
      }
    } else {
      var p :| 1 <= p < 5 && s.moved < p && !r.fields[p].Aligned();
      assert !RuleValid(r, 4 - p, s.c);
    }
  }

  /** With robust rules whatever is returned satisfies all seven rules. */
  lemma FoundIsSound(r: FiveRules, now: Instant, n: nat)
    requires WellFormed(r, now[YEAR]) && InCalendar(now) && Robust(r, now[YEAR])
    requires After(r, now, n).status == Found
    ensures Matches(r, After(r, now, n).c)
  {
    RunInv(r, now, n);
    FoundMatchesIffAligned(r, now, n);
  }

  // ----- order and minimality

  /** Without a year wrap the result is later than `now` and no match lies between; after one, no match lies ahead. */
  lemma FoundIsMinimal(r: FiveRules, now: Instant, n: nat)
    requires WellFormed(r, now[YEAR]) && InCalendar(now)
    requires After(r, now, n).status == Found
    ensures var s := After(r, now, n);
            if s.wrapped then NoMatchAfter(r, now) && NoMatchBelow(r, s.c)
            else Less(now, s.c) && NoMatchBetween(r, now, s.c)
  {
    RunInv(r, now, n);
  }

  /** Unsatisfiable is thrown only when nothing after `now` and before 2099 matches, wrapped or not. */
  lemma ExhaustedIsTruthful(r: FiveRules, now: Instant, n: nat, x: Instant)
    requires WellFormed(r, now[YEAR]) && InCalendar(now)
    requires After(r, now, n).status == Exhausted
    requires Less(now, x) && x[YEAR] < MAX_YEAR
    ensures !Matches(r, x)
  {
    RunInv(r, now, n);
    LessFields(x, After(r, now, n).c);
  }

  // ----- termination

  /** Minutes, in a calendar of 32-day months and 13-month years, left until the end of `year`. */
  ghost function Room(year: int, c: Instant): int {
    ((((year - c[YEAR]) * 13 + 12 - c[MONTH]) * 32 + 31 - c[MDAY]) * 24 + 23 - c[HOUR]) * 60 + 59 - c[MINUTE]
  }

  lemma LaterHasLessRoom(year: int, a: Instant, b: Instant)
    requires InCalendar(a) && InCalendar(b) && Less(a, b) && a[YEAR] <= year
    ensures Room(year, b) < Room(year, a) && Room(year, a) >= 0
  {
    LessFields(a, b);
    assert NaturalLow(MONTH) <= a[MONTH] <= NaturalHigh(MONTH) && NaturalLow(MONTH) <= b[MONTH] <= NaturalHigh(MONTH);
    assert NaturalLow(MDAY) <= a[MDAY] <= NaturalHigh(MDAY) && NaturalLow(MDAY) <= b[MDAY] <= NaturalHigh(MDAY);
    assert NaturalLow(HOUR) <= a[HOUR] <= NaturalHigh(HOUR) && NaturalLow(HOUR) <= b[HOUR] <= NaturalHigh(HOUR);
    assert NaturalLow(MINUTE) <= a[MINUTE] <= NaturalHigh(MINUTE)
      && NaturalLow(MINUTE) <= b[MINUTE] <= NaturalHigh(MINUTE);
  }

  /** A step that does not wrap advances the candidate, or the position in the passes at the same candidate. */
  lemma NextClimbs(r: FiveRules, now: Instant, s: Search, year: int)
    requires WellFormed(r, now[YEAR]) && Inv(r, now, s) && s.status == Running && s.c[YEAR] <= year
    ensures var t := Next(r, s);
            || (t.wrapped && !s.wrapped)
            || (s.wrapped && NoMatch(r))
            || (t.wrapped == s.wrapped && 0 <= Room(year, s.c) && Room(year, t.c) < Room(year, s.c))
            || (t.wrapped == s.wrapped && t.c == s.c
                && (t.status != Running || (!s.valid && t.valid) || (t.valid == s.valid && t.k == s.k + 1 <= 7)))
  {
    if s.k < 7 && !RuleValid(r, s.k, s.c) {
      PositionIncr(r, now, s);
      if Less(s.c, Next(r, s).c) {
        LaterHasLessRoom(year, s.c, Next(r, s).c);
      }
    }
  }

  lemma RoomIsNat(year: int, c: Instant)
    requires InCalendar(c) && c[YEAR] <= year
    ensures Room(year, c) >= 0
  {
    assert NaturalLow(MONTH) <= c[MONTH] <= NaturalHigh(MONTH) && NaturalLow(MDAY) <= c[MDAY] <= NaturalHigh(MDAY);
    assert NaturalLow(HOUR) <= c[HOUR] <= NaturalHigh(HOUR) && NaturalLow(MINUTE) <= c[MINUTE] <= NaturalHigh(MINUTE);
  }

  /** What a step that climbs, or goes on in the pass, uses up. */
  ghost function Left(year: int, s: Search): int {
    if s.status != Running then 0 else 18 * Room(year, s.c) + (if s.valid then 0 else 9) + (8 - s.k)
  }

  /** A step wraps, which happens once, or uses something up. */
  ghost predicate Descends(r: FiveRules, year: int, s: Search) {
    s.status == Running ==>
      var t := Next(r, s);
      0 <= Left(year, s) && ((t.wrapped && !s.wrapped) || (t.wrapped == s.wrapped && Left(year, t) < Left(year, s)))
  }

  /** A search whose every step descends ends. */
  lemma {:induction false} DescentEnds(r: FiveRules, year: int, s: Search, n: nat) returns (m: nat)
    requires forall i: nat {:trigger Iterate(r, s, i)} :: Descends(r, year, Iterate(r, s, i))
    ensures Iterate(r, s, m).status != Running
    decreases !Iterate(r, s, n).wrapped, Left(year, Iterate(r, s, n)), Iterate(r, s, n).status == Running
  {
    var t := Iterate(r, s, n);
    if t.status != Running {
      m := n;
    } else {
      IterateAdd(r, s, n, 1);
      assert Iterate(r, t, 1) == Iterate(r, Next(r, t), 0) == Next(r, t);
      m := DescentEnds(r, year, s, n + 1);
    }
  }

  lemma StepDescends(r: FiveRules, now: Instant, s: Search, year: int)
    requires WellFormed(r, now[YEAR]) && Inv(r, now, s) && s.c[YEAR] <= year
    requires s.wrapped ==> !NoMatch(r)
    ensures Descends(r, year, s)
  {
    if s.status == Running {
      RoomIsNat(year, s.c);
      NextClimbs(r, now, s, year);
    }
  }

  /**
   If any instant at all matches, the search halts: the candidate climbs
   lexicographically and the year can restart at most once.
   */
  lemma HaltsFrom(r: FiveRules, now: Instant, s: Search, m: Instant) returns (n: nat)
    requires WellFormed(r, now[YEAR]) && Inv(r, now, s) && Matches(r, m)
    ensures Iterate(r, s, n).status != Running
  {
    assert RuleValid(r, 4, m);
    forall i: nat
      ensures Descends(r, r.fields[YEAR].hi, Iterate(r, s, i))
    {
      IterateInv(r, now, s, i);
      StepDescends(r, now, Iterate(r, s, i), r.fields[YEAR].hi);
    }
    n := DescentEnds(r, r.fields[YEAR].hi, s, 0);
  }

  lemma HaltsIfMatchExists(r: FiveRules, now: Instant, m: Instant) returns (n: nat)
    requires WellFormed(r, now[YEAR]) && InCalendar(now) && Matches(r, m)
    ensures HaltsWithin(r, now, n)
  {
    StartInv(r, now);
    n := HaltsFrom(r, now, Start(r, now), m);
  }

  // ----- what a run returns

  /**
   Whenever some instant after `now` and before 2099 matches, the search halts
   and returns a later instant that is not past that match; with robust rules
   it returns the very next match.
   */
  lemma FindsNextRun(r: FiveRules, now: Instant, m: Instant) returns (n: nat)
    requires WellFormed(r, now[YEAR]) && InCalendar(now)
    requires IsMatchAfter(r, now, m) && m[YEAR] < MAX_YEAR
    ensures var s := After(r, now, n);
            && s.status == Found && Less(now, s.c) && AtMost(s.c, m) && NoMatchBetween(r, now, s.c)
            && (Robust(r, now[YEAR]) ==> IsNextMatch(r, now, s.c))
  {
    n := HaltsIfMatchExists(r, now, m);
    RunInv(r, now, n);
    var s := After(r, now, n);
    Total(s.c, m);
    LessFields(s.c, m);
    if Robust(r, now[YEAR]) {
      FoundIsSound(r, now, n);
    }
  }

  /** A halting search returns a later instant if and only if one matches after `now` and before 2099. */
  lemma ReturnsLaterIffMatchAhead(r: FiveRules, now: Instant, n: nat)
    requires WellFormed(r, now[YEAR]) && InCalendar(now) && Robust(r, now[YEAR])
    requires HaltsWithin(r, now, n)
    ensures var s := After(r, now, n);
            s.status == Found && Less(now, s.c) <==> exists m: Instant :: IsMatchAfter(r, now, m) && m[YEAR] < MAX_YEAR
  {
    var s := After(r, now, n);
    if s.status == Found && Less(now, s.c) {
      FoundIsSound(r, now, n);
      FoundInRange(r, now, n);
      assert IsMatchAfter(r, now, s.c) && s.c[YEAR] < MAX_YEAR;
    }
    if m: Instant :| IsMatchAfter(r, now, m) && m[YEAR] < MAX_YEAR {
      var n' := FindsNextRun(r, now, m);
      OutcomeUnique(r, now, n, n');
    }
  }

  lemma NeverExhausted(r: FiveRules, now: Instant, n: nat)
    requires WellFormed(r, now[YEAR]) && InCalendar(now) && r.fields[YEAR].hi < MAX_YEAR
    ensures After(r, now, n).status != Exhausted
  {
    RunInv(r, now, n);
  }

  /**
   When the year rule ends before 2099 and nothing after `now` matches, the
   search restarts at the first year and returns the first match of all, which
   is not later than `now`.
   */
  lemma ReturnsPastRun(r: FiveRules, now: Instant, m: Instant) returns (n: nat)
    requires WellFormed(r, now[YEAR]) && InCalendar(now) && Robust(r, now[YEAR]) && r.fields[YEAR].hi < MAX_YEAR
    requires Matches(r, m) && NoMatchAfter(r, now)
    ensures var s := After(r, now, n);
            s.status == Found && s.wrapped && IsLeastMatch(r, s.c) && AtMost(s.c, now)
  {
    n := HaltsIfMatchExists(r, now, m);
    NeverExhausted(r, now, n);
    FoundIsSound(r, now, n);
    FoundIsMinimal(r, now, n);
    Total(After(r, now, n).c, now);
  }

  /** With a year rule that ends before 2099 the search halts if and only if some instant matches. */
  lemma HaltsIffMatchExists(r: FiveRules, now: Instant)
    requires WellFormed(r, now[YEAR]) && InCalendar(now) && Robust(r, now[YEAR]) && r.fields[YEAR].hi < MAX_YEAR
    ensures (exists n: nat :: HaltsWithin(r, now, n)) <==> (exists m: Instant :: Matches(r, m))
  {
    if m: Instant :| Matches(r, m) {
      var n := HaltsIfMatchExists(r, now, m);
    }
    if n: nat :| HaltsWithin(r, now, n) {
      NeverExhausted(r, now, n);
      FoundIsSound(r, now, n);
    }
  }

  // ----- when the year cannot wrap

  /** The year rule is `*` or a range up to 2099 that takes every year. */
  ghost predicate EveryYear(r: FiveRules) {
    var y := r.fields[YEAR];
    (y.each == 1 || y.each == -1) && y.lo < MAX_YEAR && y.hi == MAX_YEAR
  }

  ghost predicate SingleDate(r: FiveRules) {
    r.fields[MONTH].lo >= r.fields[MONTH].hi && r.fields[MDAY].lo >= r.fields[MDAY].hi
  }

  /** The month and day ranges span three dates or more. */
  ghost predicate ThreeDates(r: FiveRules) {
    var month, day := r.fields[MONTH], r.fields[MDAY];
    month.lo + 2 <= month.hi || day.lo + 2 <= day.hi || (month.lo < month.hi && day.lo < day.hi)
  }

  /** The first candidate of a year. */
  function FirstOf(r: FiveRules, year: int): Instant {
    Origin(r)[YEAR := year]
  }

  /**
   A candidate that reaches 2099 in a pass is not pushed out of it before the
   pass ends: at most the weekday and the real date can fail there, once each.
   */
  ghost predicate LastYearSafe(r: FiveRules) {
    if SingleDate(r) then RuleValid(r, 5, FirstOf(r, 2098)) || RuleValid(r, 6, FirstOf(r, 2099))
    else RuleValid(r, 5, FirstOf(r, 2099)) || ThreeDates(r) || RuleValid(r, 6, Incr(r, MDAY, FirstOf(r, 2099)))
  }

  /** How close to 2099 the candidate may be before each test of a pass. */
  ghost predicate BelowLastYear(r: FiveRules, s: Search) {
    && !s.wrapped
    && if s.k == 7 then s.c[YEAR] <= 2099 && (s.c[YEAR] == 2098 && SingleDate(r) && !s.valid ==> AtLow(r, 1, s.c))
       else
         || s.c[YEAR] <= 2097
         || (s.c[YEAR] == 2098 && (SingleDate(r) ==> AtLow(r, 1, s.c)))
         || (s.k < 6 && s.c == FirstOf(r, 2099) && !SingleDate(r))
         || (s.k == 6 && BeforeDateTest(r, s.c))
  }

  /** Where in 2099 the real-date rule may be tested. */
  ghost predicate BeforeDateTest(r: FiveRules, c: Instant) {
    || (c == FirstOf(r, 2099) && (SingleDate(r) ==> RuleValid(r, 6, c)))
    || (c == Incr(r, MDAY, FirstOf(r, 2099)) && !SingleDate(r) && (ThreeDates(r) || RuleValid(r, 6, c)))
  }

  lemma WeekDayInRange(x: Instant)
    requires x[YEAR] >= 1970 && x[MDAY] >= 1
    ensures 0 <= WeekDay(x[MDAY], x[MONTH], x[YEAR]) < 7
  {
    WeekDayIsDayCount(x[MDAY], x[MONTH], x[YEAR]);
  }

  /** Before its maximum the year cannot wrap; if it moves, every lower part is at its minimum. */
  lemma {:induction false} IncrYear(r: FiveRules, p: nat, c: Instant)
    requires p < 5 && c[YEAR] < r.fields[YEAR].hi
    ensures !Wraps(r, p, c)
    ensures var c' := Incr(r, p, c);
            var lo := r.fields[YEAR].lo;
            || c'[YEAR] == c[YEAR]
            || (c'[YEAR] == (if c[YEAR] < lo then lo else c[YEAR] + 1) && AtLow(r, 1, c'))
  {
    IncrAdvances(r, p, c);
    if p > 0 && c[p] >= r.fields[p].lo && c[p] + 1 > r.fields[p].hi {
      var w: Instant := c[p := r.fields[p].lo];
      IncrAdvances(r, p - 1, w);
      OverflowIncr(r, p, c);
      IncrYear(r, p - 1, w);
      assert w[..p] == c[..p];
      WrapsPrefix(r, p - 1, c, w);
    }
  }

  /** A part of the date above its minimum, or able to leave it, absorbs the increment of the day. */
  lemma IncrDay(r: FiveRules, c: Instant)
    requires c[MDAY] == r.fields[MDAY].lo && c[MONTH] == r.fields[MONTH].lo
    ensures SingleDate(r) ==>
      Incr(r, MDAY, c)[MONTH] == c[MONTH] && Incr(r, MDAY, c)[MDAY] == c[MDAY] && AtLow(r, 1, Incr(r, MDAY, c))
    ensures !SingleDate(r) ==> Incr(r, MDAY, c)[YEAR] == c[YEAR] && !Wraps(r, MDAY, c)
  {
    var w: Instant := c[MDAY := c[MDAY] + 1][MDAY := r.fields[MDAY].lo];
    assert w == c;
    IncrAdvances(r, MONTH, c);
    IncrAdvances(r, MDAY, c);
  }

  /** With three dates the second one is absorbed as well. */
  lemma IncrDayAgain(r: FiveRules, c: Instant)
    requires c[MDAY] == r.fields[MDAY].lo && c[MONTH] == r.fields[MONTH].lo && ThreeDates(r)
    requires r.fields[MONTH].lo <= r.fields[MONTH].hi && r.fields[MDAY].lo <= r.fields[MDAY].hi
    ensures var d := Incr(r, MDAY, c);
            Incr(r, MDAY, d)[YEAR] == c[YEAR] && !Wraps(r, MDAY, d)
  {
    var d := Incr(r, MDAY, c);
    IncrDay(r, c);
    IncrAdvances(r, MDAY, c);
    IncrAdvances(r, MDAY, d);
    SecondDate(r, c);
    var w: Instant := d[MDAY := d[MDAY] + 1][MDAY := r.fields[MDAY].lo];
    IncrAdvances(r, MONTH, w);
  }

  lemma SecondDate(r: FiveRules, c: Instant)
    requires c[MDAY] == r.fields[MDAY].lo && c[MONTH] == r.fields[MONTH].lo && !SingleDate(r)
    requires r.fields[MONTH].lo <= r.fields[MONTH].hi && r.fields[MDAY].lo <= r.fields[MDAY].hi
    ensures var d := Incr(r, MDAY, c);
            && d[YEAR] == c[YEAR]
            && if c[MDAY] < r.fields[MDAY].hi then d[MONTH] == c[MONTH] && d[MDAY] == c[MDAY] + 1
               else d[MONTH] == c[MONTH] + 1 && d[MDAY] == c[MDAY]
  {
    var w: Instant := c[MDAY := c[MDAY] + 1][MDAY := r.fields[MDAY].lo];
    assert w == c;
    IncrAdvances(r, MONTH, c);
    IncrAdvances(r, MDAY, c);
  }

  /** In a candidate with all lower parts at an aligned minimum no range rule fails. */
  lemma LowIsAllowed(r: FiveRules, c: Instant, k: nat)
    requires forall p :: 1 <= p < 5 ==> NaturalLow(p) <= r.fields[p].lo <= r.fields[p].hi <= NaturalHigh(p)
    requires Aligned(r) && EveryYear(r) && AtLow(r, 1, c)
    requires r.fields[YEAR].lo <= c[YEAR] <= MAX_YEAR && k < 5
    ensures RuleValid(r, k, c)
  {
    assert k < 4 ==> r.fields[4 - k].Aligned();
  }

  /** The first candidate of a year is the one with every lower part at its minimum. */
  lemma FirstIsLow(r: FiveRules, c: Instant)
    ensures AtLow(r, 1, c) <==> c == FirstOf(r, c[YEAR])
  {
    if AtLow(r, 1, c) {
      assert forall q :: 0 <= q < 5 ==> c[q] == FirstOf(r, c[YEAR])[q];
    }
  }

  lemma BelowLastYearNext(r: FiveRules, now: Instant, s: Search)
    requires WellFormed(r, now[YEAR]) && Aligned(r) && EveryYear(r) && LastYearSafe(r) && now[YEAR] >= 1970
    requires Inv(r, now, s) && BelowLastYear(r, s)
    ensures BelowLastYear(r, Next(r, s))
  {
    if s.status == Running && s.k < 7 && !RuleValid(r, s.k, s.c) {
      if s.k < 5 {
        RangeFails(r, now, s);
      } else if s.k == 5 {
        WeekDayFails(r, now, s);
      } else {
        DateFails(r, now, s);
      }
    }
  }

  /** Up to 2098 an increment moves the year by at most one, to its first candidate. */
  lemma BelowIncr(r: FiveRules, p: nat, c: Instant)
    requires p < 5 && EveryYear(r) && c[YEAR] <= 2098
    ensures !Wraps(r, p, c)
    ensures var d := Incr(r, p, c);
            d[YEAR] == c[YEAR] || (c[YEAR] < d[YEAR] <= 2099 && (c[YEAR] < 2098 ==> d[YEAR] <= 2098)
              && d == FirstOf(r, d[YEAR]))
  {
    IncrYear(r, p, c);
    FirstIsLow(r, Incr(r, p, c));
  }

  lemma RangeFails(r: FiveRules, now: Instant, s: Search)
    requires WellFormed(r, now[YEAR]) && Aligned(r) && EveryYear(r)
    requires Inv(r, now, s) && BelowLastYear(r, s)
    requires s.status == Running && s.k < 5 && !RuleValid(r, s.k, s.c)
    ensures BelowLastYear(r, Next(r, s))
  {
    FirstIsLow(r, s.c);
    if s.c[YEAR] >= 2098 && AtLow(r, 1, s.c) {
      LowIsAllowed(r, s.c, s.k);
    }
    BelowIncr(r, PartOf(s.k), s.c);
    FirstIsLow(r, Incr(r, PartOf(s.k), s.c));
  }

  lemma WeekDayFails(r: FiveRules, now: Instant, s: Search)
    requires EveryYear(r) && LastYearSafe(r) && Inv(r, now, s) && BelowLastYear(r, s)
    requires s.status == Running && s.k == 5 && !RuleValid(r, 5, s.c)
    ensures BelowLastYear(r, Next(r, s))
  {
    if s.c[YEAR] <= 2098 {
      WeekDayFailsBelow(r, s.c);
    } else {
      IncrDay(r, s.c);
    }
  }

  /** From a year before 2099 the increment of the day stays below or reaches the first date of 2099. */
  lemma WeekDayFailsBelow(r: FiveRules, c: Instant)
    requires EveryYear(r) && LastYearSafe(r) && c[YEAR] <= 2098 && !RuleValid(r, 5, c)
    requires c[YEAR] == 2098 && SingleDate(r) ==> AtLow(r, 1, c)
    ensures var d := Incr(r, MDAY, c);
            && !Wraps(r, MDAY, c)
            && if d[YEAR] <= 2098 then d[YEAR] == 2098 && SingleDate(r) ==> AtLow(r, 1, d) else BeforeDateTest(r, d)
  {
    BelowIncr(r, MDAY, c);
    FirstIsLow(r, c);
    FirstIsLow(r, Incr(r, MDAY, c));
    if c[YEAR] == 2098 && SingleDate(r) {
      IncrDay(r, c);
    }
  }

  lemma DateFails(r: FiveRules, now: Instant, s: Search)
    requires WellFormed(r, now[YEAR]) && EveryYear(r) && Inv(r, now, s) && BelowLastYear(r, s)
    requires s.status == Running && s.k == 6 && !RuleValid(r, 6, s.c)
    ensures BelowLastYear(r, Next(r, s))
  {
    FirstIsLow(r, s.c);
    FirstIsLow(r, Incr(r, MDAY, s.c));
    if s.c[YEAR] <= 2098 {
      BelowIncr(r, MDAY, s.c);
      if s.c[YEAR] == 2098 && SingleDate(r) {
        IncrDay(r, s.c);
      }
    } else if s.c == FirstOf(r, 2099) {
      IncrDay(r, s.c);
    } else {
      IncrDayAgain(r, FirstOf(r, 2099));
    }
  }

  lemma StartsBelowLastYear(r: FiveRules, now: Instant)
    requires EveryYear(r) && now[YEAR] <= 2097
    ensures BelowLastYear(r, Start(r, now))
  {
    BelowIncr(r, MINUTE, now);
    FirstIsLow(r, Incr(r, MINUTE, now));
  }

  lemma {:induction false} BelowLastYearIterate(r: FiveRules, now: Instant, s: Search, n: nat)
    requires WellFormed(r, now[YEAR]) && Aligned(r) && EveryYear(r) && LastYearSafe(r) && now[YEAR] >= 1970
    requires Inv(r, now, s) && BelowLastYear(r, s)
    ensures BelowLastYear(r, Iterate(r, s, n))
    decreases n
  {
    if n == 0 {
    } else {
      NextInv(r, now, s);
      BelowLastYearNext(r, now, s);
      BelowLastYearIterate(r, now, Next(r, s), n - 1);
    }
  }

  /** With aligned rules, every year, a safe last one and a current year of at most 2097 the year never wraps. */
  lemma NeverWraps(r: FiveRules, now: Instant, n: nat)
    requires WellFormed(r, now[YEAR]) && InCalendar(now) && Aligned(r) && EveryYear(r) && LastYearSafe(r)
    requires 1970 <= now[YEAR] <= 2097
    ensures !After(r, now, n).wrapped
  {
    StartInv(r, now);
    StartsBelowLastYear(r, now);
    BelowLastYearIterate(r, now, Start(r, now), n);
  }

  lemma NotPastLastYear(r: FiveRules, s: Search)
    requires EveryYear(r) && BelowLastYear(r, s) && s.k <= 7
    ensures s.c[YEAR] <= MAX_YEAR
  {
    IncrFields(r, MDAY, FirstOf(r, 2099));
  }

  /** A search that cannot wrap halts: its candidate climbs until it is returned or reaches 2099. */
  lemma HaltsWithoutWrap(r: FiveRules, now: Instant, s: Search) returns (n: nat)
    requires WellFormed(r, now[YEAR]) && Aligned(r) && EveryYear(r) && LastYearSafe(r) && now[YEAR] >= 1970
    requires Inv(r, now, s) && BelowLastYear(r, s)
    ensures Iterate(r, s, n).status != Running
  {
    forall i: nat
      ensures Descends(r, MAX_YEAR, Iterate(r, s, i))
    {
      var t := Iterate(r, s, i);
      IterateInv(r, now, s, i);
      BelowLastYearIterate(r, now, s, i);
      NotPastLastYear(r, t);
      StepDescends(r, now, t, MAX_YEAR);
    }
    n := DescentEnds(r, MAX_YEAR, s, 0);
  }

  /**
   For such rules `calcNext` is total and exact: it returns the next match if
   there is one before 2099 and throws Unsatisfiable otherwise.
   */
  lemma TotalForEveryYearRules(r: FiveRules, now: Instant) returns (n: nat)
    requires WellFormed(r, now[YEAR]) && InCalendar(now) && Aligned(r) && EveryYear(r) && LastYearSafe(r)
    requires 1970 <= now[YEAR] <= 2097
    ensures var s := After(r, now, n);
            && (s.status == Found || s.status == Exhausted) && !s.wrapped
            && (s.status == Found ==> IsNextMatch(r, now, s.c) && s.c[YEAR] < MAX_YEAR)
            && (s.status == Exhausted ==> forall x: Instant :: IsMatchAfter(r, now, x) ==> x[YEAR] >= MAX_YEAR)
  {
    StartInv(r, now);
    StartsBelowLastYear(r, now);
    n := HaltsWithoutWrap(r, now, Start(r, now));
    NeverWraps(r, now, n);
    var s := After(r, now, n);
    if s.status == Found {
      FoundIsSound(r, now, n);
      FoundInRange(r, now, n);
      FoundIsMinimal(r, now, n);
    } else {
      forall x: Instant | IsMatchAfter(r, now, x)
        ensures x[YEAR] >= MAX_YEAR
      {
        if x[YEAR] < MAX_YEAR {
          ExhaustedIsTruthful(r, now, n, x);
        }
      }
    }
  }

  /** Rules that take every weekday, and rules with three dates or more, are safe in the last year. */
  lemma SafeRules(r: FiveRules, year: int)
    requires WellFormed(r, year) && year >= 1970
    requires (forall d :: 0 <= d < 7 ==> d in r.days) || ThreeDates(r)
    ensures LastYearSafe(r)
  {
    if forall d :: 0 <= d < 7 ==> d in r.days {
      assert NaturalLow(MDAY) <= r.fields[MDAY].lo;
      WeekDayInRange(FirstOf(r, 2098));
      WeekDayInRange(FirstOf(r, 2099));
    }
  }

  /** The `*` rules that the parser produces take every year up to 2097. */
  lemma StarIsEveryYear(t: Timespec, year: int)
    requires t.year == FieldText(Star, 1) && year <= 2097
    requires MakeRules(t, year).Success?
    ensures EveryYear(MakeRules(t, year).value)
  {
  }
}
