/**
 Where `calcNext` does not do what its documentation suggests: rule texts the
 parser accepts, with the instants at which the search returns a time that has
 passed, returns a time that does not match, or never returns.
 */
module CronLimits {

  import opened Calendar
  import opened CronRules
  import opened CronSearch
  import opened CronTheorems
  import opened Instants
  import opened Results

  const ANY := FieldText(Star, 1)
  const EVERY_DAY := {0, 1, 2, 3, 4, 5, 6}

  /** `* * * * * y`. */
  function EveryMinuteOf(year: int): Timespec {
    Timespec(ANY, ANY, ANY, ANY, EVERY_DAY, FieldText(Number(year), 1))
  }

  function FirstMinute(year: int): Instant {
    [year, 1, 1, 0, 0]
  }

  function LastMinute(year: int): Instant {
    [year, 12, 31, 23, 59]
  }

  lemma NothingAfter(r: FiveRules, year: int)
    requires MakeRules(EveryMinuteOf(year), year) == Success(r)
    ensures NoMatchAfter(r, LastMinute(year))
  {
    forall x: Instant | Less(LastMinute(year), x)
      ensures !Matches(r, x)
    {
      LessFields(LastMinute(year), x);
      var dayAndTime := RuleValid(r, 0, x) && RuleValid(r, 1, x) && RuleValid(r, 2, x);
      assert !(dayAndTime && RuleValid(r, 3, x) && RuleValid(r, 4, x));
    }
  }

  lemma EveryMinuteMatches(r: FiveRules, year: int, x: Instant)
    requires 1970 <= year && MakeRules(EveryMinuteOf(year), year) == Success(r) && RealInstant(x) && x[YEAR] == year
    ensures Matches(r, x)
  {
    WeekDayInRange(x);
    assert DaysPerMonth(x[MONTH], year) <= 31;
    forall k | 0 <= k < 7
      ensures RuleValid(r, k, x)
    {
    }
  }

  /** The first and the last minute of the year match, and nothing after. */
  lemma MatchesOfYear(year: int)
    requires 1970 <= year < MAX_YEAR
    ensures MakeRules(EveryMinuteOf(year), year).Success?
    ensures var r := MakeRules(EveryMinuteOf(year), year).value;
            && Robust(r, year) && r.fields[YEAR].hi < MAX_YEAR
            && Matches(r, FirstMinute(year)) && Matches(r, LastMinute(year)) && NoMatchAfter(r, LastMinute(year))
  {
    var r := MakeRules(EveryMinuteOf(year), year).value;
    assert DaysPerMonth(1, year) == DaysPerMonth(12, year) == 31;
    NothingAfter(r, year);
    EveryMinuteMatches(r, year, FirstMinute(year));
    EveryMinuteMatches(r, year, LastMinute(year));
  }

  /** `* * * * * y` at the last minute of the year schedules the first minute of that year. */
  lemma ReturnsPastInstant(year: int) returns (n: nat)
    requires 1970 <= year < MAX_YEAR
    ensures MakeRules(EveryMinuteOf(year), year).Success?
    ensures var s := After(MakeRules(EveryMinuteOf(year), year).value, LastMinute(year), n);
            s.status == Found && s.c == FirstMinute(year)
  {
    var r := MakeRules(EveryMinuteOf(year), year).value;
    var first := FirstMinute(year);
    MatchesOfYear(year);
    n := ReturnsPastRun(r, LastMinute(year), first);
    var c := After(r, LastMinute(year), n).c;
    Total(c, first);
    LessFields(c, first);
    assert RuleValid(r, 0, c) && RuleValid(r, 1, c) && RuleValid(r, 2, c) && RuleValid(r, 3, c) && RuleValid(r, 4, c);
  }

  /** One unfolding of an increment. */
  lemma IncrOnce(r: FiveRules, p: nat, c: Instant)
    requires p < 5
    ensures var f := r.fields[p];
            if c[p] >= f.lo && c[p] + 1 > f.hi && p > 0 then Incr(r, p, c) == Incr(r, p - 1, c[p := f.lo])
            else forall q :: 0 <= q < 5 ==>
              Incr(r, p, c)[q] == (if q < p then c[q]
                                   else if q > p || c[p] < f.lo || c[p] + 1 > f.hi then r.fields[q].lo
                                   else c[p] + 1)
  {
    if p > 0 && c[p] >= r.fields[p].lo && c[p] + 1 > r.fields[p].hi {
      IncrAdvances(r, p - 1, c[p := r.fields[p].lo]);
      OverflowIncr(r, p, c);
    }
  }

  /** A pass moves over rules that hold without touching the candidate. */
  lemma {:induction false} PassOver(r: FiveRules, s: Search, n: nat)
    requires s.status == Running && s.k + n <= 7
    requires forall j :: s.k <= j < s.k + n ==> RuleValid(r, j, s.c)
    ensures Iterate(r, s, n) == s.(k := s.k + n)
    decreases n
  {
    if n == 0 {
    } else {
      PassOver(r, s.(k := s.k + 1), n - 1);
    }
  }

  /** `1-59/2 10 * * * *` asked at 05:00 is scheduled for 10:01, whose minute its own step excludes. */
  lemma ReturnsUnmatchedInstant() returns (n: nat)
    ensures var t := Timespec(FieldText(Range(1, 59), 2), FieldText(Number(10), 1), ANY, ANY, EVERY_DAY, ANY);
            && MakeRules(t, 2021).Success?
            && After(MakeRules(t, 2021).value, [2021, 6, 15, 5, 0], n).status == Found
            && After(MakeRules(t, 2021).value, [2021, 6, 15, 5, 0], n).c == [2021, 6, 15, 10, 1]
            && !Matches(MakeRules(t, 2021).value, [2021, 6, 15, 10, 1])
  {
    var t := Timespec(FieldText(Range(1, 59), 2), FieldText(Number(10), 1), ANY, ANY, EVERY_DAY, ANY);
    var r := MakeRules(t, 2021).value;
    var now: Instant := [2021, 6, 15, 5, 0];
    UnmatchedSteps(r);
    var s3 := Search([2021, 6, 15, 10, 1], 1, true, Running, HOUR, false);
    UnmatchedAccepted(r, s3);
    n := 10;
    IterateAdd(r, Start(r, now), 3, 7);
  }

  ghost predicate Unmatched(r: FiveRules) {
    r == Rules([Field(2021, 2099, 1), Field(1, 12, 1), Field(1, 31, 1), Field(10, 10, 1), Field(1, 59, 2)], EVERY_DAY)
  }

  lemma UnmatchedSteps(r: FiveRules)
    requires Unmatched(r)
    ensures Iterate(r, Start(r, [2021, 6, 15, 5, 0]), 3) == Search([2021, 6, 15, 10, 1], 1, true, Running, HOUR, false)
  {
    var s0 := Start(r, [2021, 6, 15, 5, 0]);
    IncrOnce(r, MINUTE, [2021, 6, 15, 5, 0]);
    assert s0 == Search([2021, 6, 15, 5, 1], 0, true, Running, 5, false);
    var s1 := Next(r, s0);
    IncrOnce(r, MINUTE, s0.c);
    assert s1 == Search([2021, 6, 15, 5, 2], 0, true, Running, MINUTE, false);
    var s2 := Next(r, s1);
    IncrOnce(r, HOUR, s1.c);
    assert Next(r, s2).c == [2021, 6, 15, 10, 1];
    assert Iterate(r, s2, 1) == Next(r, s2);
    assert Iterate(r, s1, 2) == Iterate(r, s2, 1);
  }

  lemma UnmatchedAccepted(r: FiveRules, s: Search)
    requires Unmatched(r) && s == Search([2021, 6, 15, 10, 1], 1, true, Running, HOUR, false)
    ensures Iterate(r, s, 7).status == Found && Iterate(r, s, 7).c == s.c && !Matches(r, s.c)
  {
    WeekDayInRange(s.c);
    PassOver(r, s, 6);
    IterateAdd(r, s, 6, 1);
    assert Iterate(r, s.(k := 7), 1) == Next(r, s.(k := 7));
    assert !RuleValid(r, 0, s.c);
  }

  /** A field without any allowed value, such as `7/5` or a `*` year after 2099, is never passed. */
  lemma {:induction false} NeverHaltsOnEmptyField(r: FiveRules, k: nat, s: Search, n: nat)
    requires k < 5 && (forall c: Instant :: !RuleValid(r, k, c))
    requires s.status == Running && s.k <= k && s.valid
    ensures Iterate(r, s, n).status == Running
    decreases n
  {
    if n == 0 {
    } else {
      NeverHaltsOnEmptyField(r, k, Next(r, s), n - 1);
    }
  }

  /**
   `0 0 30 2 5 *` asked on 2098-01-01: 30 February fails first as a non-Friday
   of 2098 and then as a date of 2099, where the year wraps; Unsatisfiable is
   never thrown and the search never ends.
   */
  lemma {:induction false} NeverHaltsOnImpossibleDate(n: nat)
    ensures var zero := FieldText(Number(0), 1);
            var t := Timespec(zero, zero, FieldText(Number(30), 1), FieldText(Number(2), 1), {5}, ANY);
            && MakeRules(t, 2098).Success?
            && !HaltsWithin(MakeRules(t, 2098).value, [2098, 1, 1, 0, 0], n)
  {
    var zero := FieldText(Number(0), 1);
    var t := Timespec(zero, zero, FieldText(Number(30), 1), FieldText(Number(2), 1), {5}, ANY);
    var r := MakeRules(t, 2098).value;
    var s0 := Start(r, [2098, 1, 1, 0, 0]);
    ImpossibleStart(r);
    var s := Iterate(r, s0, 4);
    ImpossibleCycle(r, s, n);
    HaltedMonotone(r, s0, 4, n);
  }

  lemma HaltedMonotone(r: FiveRules, s: Search, m: nat, n: nat)
    requires Iterate(r, Iterate(r, s, m), n).status == Running
    ensures Iterate(r, s, n).status == Running
  {
    IterateAdd(r, s, m, n);
    IterateAdd(r, s, n, m);
    if Iterate(r, s, n).status != Running {
      HaltedStays(r, Iterate(r, s, n), m);
    }
  }

  ghost predicate Impossible(r: FiveRules) {
    r == Rules([Field(2098, 2099, 1), Field(2, 2, 1), Field(30, 30, 1), Field(0, 0, 1), Field(0, 0, 1)], {5})
  }

  lemma ImpossibleFirst(r: FiveRules)
    requires Impossible(r)
    ensures Start(r, [2098, 1, 1, 0, 0]) == Search([2098, 1, 30, 0, 0], 0, true, Running, 5, false)
  {
    var c: Instant := [2098, 1, 1, 0, 0];
    assert c[MINUTE := 0] == c && c[HOUR := 0] == c;
    IncrOnce(r, MINUTE, c);
    IncrOnce(r, HOUR, c);
    IncrOnce(r, MDAY, c);
    IncrYear(r, MINUTE, c);
  }

  lemma ImpossibleStart(r: FiveRules)
    requires Impossible(r)
    ensures var s := Iterate(r, Start(r, [2098, 1, 1, 0, 0]), 4);
            s.c == [2098, 2, 30, 0, 0] && s.k == 3 && s.valid && s.status == Running
  {
    ImpossibleFirst(r);
    var s0 := Search([2098, 1, 30, 0, 0], 0, true, Running, 5, false);
    PassOver(r, s0, 3);
    IterateAdd(r, s0, 3, 1);
    var s3 := s0.(k := 3);
    assert Iterate(r, s3, 1) == Next(r, s3);
    IncrOnce(r, MONTH, s3.c);
    assert Next(r, s3).c == [2098, 2, 30, 0, 0];
  }

  lemma ImpossibleIncr(r: FiveRules, year: int)
    requires Impossible(r) && 2098 <= year <= 2099
    ensures Incr(r, MDAY, [year, 2, 30, 0, 0]) == [if year == 2098 then 2099 else 2098, 2, 30, 0, 0]
  {
    var c: Instant := [year, 2, 30, 0, 0];
    assert c[MDAY := 30] == c && c[MONTH := 2] == c;
    IncrOnce(r, MDAY, c);
    IncrOnce(r, MONTH, c);
    IncrOnce(r, YEAR, c);
  }

  lemma ImpossibleWeekday(r: FiveRules, s: Search)
    requires Impossible(r)
    requires s.c == [2098, 2, 30, 0, 0] && s.k == 5 && s.valid && s.status == Running
    ensures var t := Next(r, s); t.c == [2099, 2, 30, 0, 0] && t.k == 6 && !t.valid && t.status == Running
  {
    assert ZeroBasedMonth(2) == 1;
    assert WeekDay(30, 2, 2098) == 0;
    assert !RuleValid(r, 5, s.c);
    ImpossibleIncr(r, 2098);
  }

  lemma ImpossibleDate(r: FiveRules, s: Search)
    requires Impossible(r)
    requires s.c == [2099, 2, 30, 0, 0] && s.k == 6 && !s.valid && s.status == Running
    ensures var t := Next(r, s); t.c == [2098, 2, 30, 0, 0] && t.k == 7 && !t.valid && t.status == Running
  {
    assert DaysPerMonth(2, 2099) == 28;
    assert !RuleValid(r, 6, s.c);
    ImpossibleIncr(r, 2099);
  }

  lemma ImpossibleRange(r: FiveRules, s: Search)
    requires Impossible(r) && s.c == [2098, 2, 30, 0, 0] && s.k < 5 && s.status == Running
    ensures Next(r, s) == s.(k := s.k + 1)
  {
    assert RuleValid(r, s.k, s.c);
  }

  /** From the weekday test on, the pass visits 2099, wraps, and starts over. */
  lemma ImpossibleRound(r: FiveRules, s: Search, n: nat)
    requires Impossible(r) && n <= 3
    requires s.c == [2098, 2, 30, 0, 0] && s.k == 5 && s.valid && s.status == Running
    ensures Iterate(r, s, n).status == Running
    ensures n == 3 ==> Iterate(r, s, n).c == s.c && Iterate(r, s, n).k == 0 && Iterate(r, s, n).valid
  {
    ImpossibleWeekday(r, s);
    var s1 := Next(r, s);
    ImpossibleDate(r, s1);
    var s2 := Next(r, s1);
    assert n > 0 ==> Iterate(r, s, n) == Iterate(r, s1, n - 1);
    assert n > 1 ==> Iterate(r, s1, n - 1) == Iterate(r, s2, n - 2);
    assert n > 2 ==> Iterate(r, s2, n - 2) == Next(r, s2);
  }

  /** 30 February 2098 is reached again and again. */
  lemma {:induction false} ImpossibleCycle(r: FiveRules, s: Search, n: nat)
    requires Impossible(r)
    requires s.c == [2098, 2, 30, 0, 0] && s.k <= 5 && s.valid && s.status == Running
    ensures Iterate(r, s, n).status == Running
    decreases n, 5 - s.k
  {
    if n > 0 && s.k < 5 {
      ImpossibleRange(r, s);
      ImpossibleCycle(r, Next(r, s), n - 1);
    } else if n < 3 {
      if s.k == 5 {
        ImpossibleRound(r, s, n);
      }
    } else {
      ImpossibleRound(r, s, 3);
      IterateAdd(r, s, 3, n - 3);
      ImpossibleCycle(r, Iterate(r, s, 3), n - 3);
    }
  }
}
