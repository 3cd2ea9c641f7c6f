/**
 The search of CronJob::calcNext as a state machine: one step is one test of a
 rule, one increment, or the end of a pass over the rule vector. Every run of
 the nested loops is an iteration of this machine, including the runs that
 never end.
 */
module CronSearch {

  import opened Calendar
  import opened CronRules
  import opened Instants

  datatype Status = Running | Found | Exhausted

  /**
   `c` is the candidate, `k` the rule under test (7 at the end of a pass) and
   `valid` the flag of the outer loop. History: `moved` is the most significant
   part that its own range rule incremented during this pass (5 if none), and
   `wrapped` tells whether the year ever restarted at its minimum.
   */
  datatype Search = Search(c: Instant, k: nat, valid: bool, status: Status, moved: nat, wrapped: bool)

  function Start(r: FiveRules, now: Instant): Search {
    Search(Incr(r, MINUTE, now), 0, true, Running, 5, Wraps(r, MINUTE, now))
  }

  function Next(r: FiveRules, s: Search): Search {
    if s.status != Running then s
    else if s.k < 7 then
      if RuleValid(r, s.k, s.c) then s.(k := s.k + 1)
      else
        var p := PartOf(s.k);
        var still := s.valid && s.k < 5;
        Search(Incr(r, p, s.c), if still then s.k else s.k + 1, still, Running,
               if s.k < 5 && p < s.moved then p else s.moved, s.wrapped || Wraps(r, p, s.c))
    else if s.c[YEAR] >= MAX_YEAR then s.(status := Exhausted)
    else if s.valid then s.(status := Found)
    else s.(k := 0, valid := true, moved := 5)
  }

  function Iterate(r: FiveRules, s: Search, n: nat): Search
    decreases n
  {
    if n == 0 then s else Iterate(r, Next(r, s), n - 1)
  }

  /** The state of the search started at `now` after `n` steps. */
  function After(r: FiveRules, now: Instant, n: nat): Search {
    Iterate(r, Start(r, now), n)
  }

  ghost predicate HaltsWithin(r: FiveRules, now: Instant, n: nat) {
    After(r, now, n).status != Running
  }

  lemma {:induction false} IterateAdd(r: FiveRules, s: Search, m: nat, n: nat)
    ensures Iterate(r, Iterate(r, s, m), n) == Iterate(r, s, m + n)
    decreases m
  {
    if m == 0 {
    } else {
      IterateAdd(r, Next(r, s), m - 1, n);
    }
  }

  lemma {:induction false} HaltedStays(r: FiveRules, s: Search, n: nat)
    requires s.status != Running
    ensures Iterate(r, s, n) == s
    decreases n
  {
    if n == 0 {
    } else {
      HaltedStays(r, s, n - 1);
    }
  }

  // ----- reference notions

  ghost predicate IsMatchAfter(r: FiveRules, now: Instant, x: Instant) {
    Less(now, x) && Matches(r, x)
  }

  ghost predicate NoMatchBetween(r: FiveRules, a: Instant, b: Instant) {
    forall x: Instant :: Less(a, x) && Less(x, b) ==> !Matches(r, x)
  }

  ghost predicate NoMatchAfter(r: FiveRules, a: Instant) {
    forall x: Instant :: Less(a, x) ==> !Matches(r, x)
  }

  ghost predicate NoMatchBelow(r: FiveRules, b: Instant) {
    forall x: Instant :: Less(x, b) ==> !Matches(r, x)
  }

  ghost predicate NoMatch(r: FiveRules) {
    forall x: Instant :: !Matches(r, x)
  }

  /** The least instant after `now` that satisfies every rule. */
  ghost predicate IsNextMatch(r: FiveRules, now: Instant, x: Instant) {
    IsMatchAfter(r, now, x) && NoMatchBetween(r, now, x)
  }

  ghost predicate IsLeastMatch(r: FiveRules, x: Instant) {
    Matches(r, x) && NoMatchBelow(r, x)
  }

  ghost predicate Aligned(r: FiveRules) {
    forall p :: 0 <= p < 5 ==> r.fields[p].Aligned()
  }

  /** The field allows every value a candidate can have there, so it never moves its part. */
  ghost predicate Full(r: FiveRules, p: nat, year: int)
    requires p < 5
  {
    var f := r.fields[p];
    && (f.each == 1 || f.each == -1)
    && if p == YEAR then f.lo == year <= f.hi else f.lo == NaturalLow(p) && f.hi == NaturalHigh(p)
  }

  /** Every field below one that can move its part is aligned. */
  ghost predicate Robust(r: FiveRules, year: int) {
    forall p :: 0 <= p < 5 ==> r.fields[p].Aligned() || forall q :: 0 <= q < p ==> Full(r, q, year)
  }

  // ----- invariants of every run

  ghost predicate InCalendar(x: Instant) {
    forall p :: 1 <= p < 5 ==> NaturalLow(p) <= x[p] <= NaturalHigh(p)
  }

  /** Where the candidate is, and what has been passed over. */
  ghost predicate Position(r: FiveRules, now: Instant, s: Search) {
    && InCalendar(s.c) && now[YEAR] <= s.c[YEAR]
    && (s.c[YEAR] <= r.fields[YEAR].hi || s.c[YEAR] <= now[YEAR] || s.c[YEAR] == r.fields[YEAR].lo)
    && if s.wrapped then NoMatchAfter(r, now) && NoMatchBelow(r, s.c)
       else Less(now, s.c) && NoMatchBetween(r, now, s.c)
  }

  /** What the current pass has established about the candidate. */
  ghost predicate Progress(r: FiveRules, now: Instant, s: Search) {
    && s.k <= 7 && s.moved <= 5 && s.moved + s.k >= 4
    && (s.k <= 5 ==> s.valid)
    && (s.moved < 5 ==> !Full(r, s.moved, now[YEAR]))
    && (s.valid ==> AtLow(r, s.moved + 1, s.c))
    && (s.valid ==> forall j :: 0 <= j < s.k && (j >= 5 || 4 - j <= s.moved) ==> RuleValid(r, j, s.c))
    && (s.status == Found ==> s.k == 7 && s.valid && s.c[YEAR] < MAX_YEAR)
    && (s.status == Exhausted ==> s.k == 7 && s.c[YEAR] >= MAX_YEAR)
  }

  ghost predicate Inv(r: FiveRules, now: Instant, s: Search) {
    Position(r, now, s) && Progress(r, now, s)
  }

  lemma {:induction false} IncrFields(r: FiveRules, p: nat, c: Instant)
    requires p < 5
    ensures forall q :: 0 <= q < 5 ==>
      var v := Incr(r, p, c)[q];
      v == c[q] || v == r.fields[q].lo || v == c[q] + 1 <= r.fields[q].hi
  {
    if p == 0 {
    } else {
      IncrFields(r, p - 1, c[p := r.fields[p].lo]);
      assert c[p := c[p] + 1][p := r.fields[p].lo] == c[p := r.fields[p].lo];
    }
  }

  /** An increment for a failing rule keeps track of everything passed over. */
  lemma PositionIncr(r: FiveRules, now: Instant, s: Search)
    requires WellFormed(r, now[YEAR]) && Position(r, now, s)
    requires s.status == Running && s.k < 7 && !RuleValid(r, s.k, s.c)
    ensures Position(r, now, Next(r, s))
    ensures Next(r, s).wrapped == (s.wrapped || Wraps(r, PartOf(s.k), s.c))
    ensures Wraps(r, PartOf(s.k), s.c) && s.wrapped ==> NoMatch(r)
    ensures !Wraps(r, PartOf(s.k), s.c) ==> Less(s.c, Next(r, s).c)
  {
    var p := PartOf(s.k);
    var c' := Incr(r, p, s.c);
    IncrFields(r, p, s.c);
    IncrAdvances(r, p, s.c);
    if Wraps(r, p, s.c) {
      forall x: Instant | AtMost(s.c, x)
        ensures !Matches(r, x)
      {
        RuleIncrSkips(r, s.k, s.c, x);
      }
      forall x: Instant | s.wrapped || Less(now, x)
        ensures !Matches(r, x)
      {
        Total(x, s.c);
      }
      forall x: Instant | Less(x, c')
        ensures !Matches(r, x)
      {
        BelowOrigin(r, x);
      }
    } else {
      PrefixDecides(s.c, c', p + 1, 5);
      if !s.wrapped {
        BeforeTransitive(now, s.c, c', 5);
      }
      forall x: Instant | Less(x, c') && (s.wrapped || Less(now, x))
        ensures !Matches(r, x)
      {
        Total(x, s.c);
        if AtMost(s.c, x) {
          RuleIncrSkips(r, s.k, s.c, x);
        }
      }
    }
  }

  lemma StartInv(r: FiveRules, now: Instant)
    requires WellFormed(r, now[YEAR]) && InCalendar(now)
    ensures Inv(r, now, Start(r, now))
  {
    var c := Incr(r, MINUTE, now);
    IncrFields(r, MINUTE, now);
    IncrAdvances(r, MINUTE, now);
    forall x: Instant | Less(now, x) && (Wraps(r, MINUTE, now) || Less(x, c))
      ensures !Matches(r, x)
    {
      IncrSkips(r, MINUTE, now, x);
    }
    forall x: Instant | Less(x, Origin(r))
      ensures !Matches(r, x)
    {
      BelowOrigin(r, x);
    }
  }

  lemma FullAllows(r: FiveRules, now: Instant, s: Search, p: nat)
    requires WellFormed(r, now[YEAR]) && Position(r, now, s) && p < 5 && Full(r, p, now[YEAR])
    ensures r.fields[p].Allows(s.c[p])
  {
  }

  /** An increment of a range rule leaves everything below its part at the minimum. */
  lemma ProgressIncr(r: FiveRules, now: Instant, s: Search)
    requires WellFormed(r, now[YEAR]) && Inv(r, now, s)
    requires s.status == Running && s.k < 7 && !RuleValid(r, s.k, s.c)
    ensures Progress(r, now, Next(r, s))
  {
    var p := PartOf(s.k);
    IncrAdvances(r, p, s.c);
    if s.k < 5 && Full(r, p, now[YEAR]) {
      FullAllows(r, now, s, p);
    }
  }

  lemma NextInv(r: FiveRules, now: Instant, s: Search)
    requires WellFormed(r, now[YEAR]) && Inv(r, now, s)
    ensures Inv(r, now, Next(r, s))
  {
    if s.status == Running && s.k < 7 && !RuleValid(r, s.k, s.c) {
      PositionIncr(r, now, s);
      ProgressIncr(r, now, s);
    }
  }

  lemma {:induction false} IterateInv(r: FiveRules, now: Instant, s: Search, n: nat)
    requires WellFormed(r, now[YEAR]) && Inv(r, now, s)
    ensures Inv(r, now, Iterate(r, s, n))
    decreases n
  {
    if n == 0 {
    } else {
      NextInv(r, now, s);
      IterateInv(r, now, Next(r, s), n - 1);
    }
  }

  lemma RunInv(r: FiveRules, now: Instant, n: nat)
    requires WellFormed(r, now[YEAR]) && InCalendar(now)
    ensures Inv(r, now, After(r, now, n))
  {
    StartInv(r, now);
    IterateInv(r, now, Start(r, now), n);
  }
}
