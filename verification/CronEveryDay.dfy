/**
 For rules that take every weekday and every year, the exact condition under
 which `calcNext` never returns an instant that its own rules exclude.
 */
module CronEveryDay {

  import opened Calendar
  import opened CronLimits
  import opened CronRules
  import opened CronSearch
  import opened CronTheorems
  import opened Instants

  /**
   `m h d n * *` before 2099: any minutes and hours, any months, and days that
   start where every month has a day. The year that follows is needed where the
   month can overflow.
   */
  ghost predicate EveryDay(r: FiveRules, year: int) {
    && WellFormed(r, year) && 1970 <= year < MAX_YEAR
    && Full(r, YEAR, year) && r.fields[YEAR].hi == MAX_YEAR
    && (forall d :: 0 <= d < 7 ==> d in r.days)
    && r.fields[MDAY].lo <= 28
    && (Full(r, MONTH, year) || year + 1 < MAX_YEAR)
  }

  ghost predicate AllowsSome(r: FiveRules, p: nat)
    requires p < 5
  {
    exists v: int {:trigger r.fields[p].Allows(v)} :: r.fields[p].Allows(v)
  }

  /** Whatever the moment in `year`, a returned instant satisfies all rules. */
  ghost predicate AlwaysSound(r: FiveRules, year: int) {
    forall now: Instant, n: nat ::
      RealInstant(now) && now[YEAR] == year && After(r, now, n).status == Found ==> Matches(r, After(r, now, n).c)
  }

  /**
   Every field that does not start on its step has only unrestricted fields
   above it; otherwise some moment gets an instant that breaks the rules, unless
   a field allows nothing and nothing is ever returned.
   */
  lemma SoundIff(r: FiveRules, year: int)
    requires EveryDay(r, year)
    ensures AlwaysSound(r, year) <==> Robust(r, year) || exists p: nat :: 1 <= p < 5 && !AllowsSome(r, p)
  {
    if Robust(r, year) {
      forall now: Instant, n: nat | RealInstant(now) && now[YEAR] == year && After(r, now, n).status == Found
        ensures Matches(r, After(r, now, n).c)
      {
        FoundIsSound(r, now, n);
      }
    } else if p: nat :| 1 <= p < 5 && !AllowsSome(r, p) {
      assert forall c: Instant :: RuleValid(r, 4 - p, c) == r.fields[p].Allows(c[p]);
      forall now: Instant, n: nat
        ensures After(r, now, n).status == Running
      {
        NeverHaltsOnEmptyField(r, 4 - p, Start(r, now), n);
      }
    } else {
      var p :| 0 <= p < 5 && !r.fields[p].Aligned() && exists q :: 0 <= q < p && !Full(r, q, year);
      var q := if !Full(r, MONTH, year) then MONTH else if !Full(r, MDAY, year) then MDAY else HOUR;
      BreaksRules(r, year, q, p);
    }
  }

  // ----- a moment that gets a wrong answer

  /**
   The field at `q` is at an excluded value, and the next minute is the first of
   the lower fields or just after it.
   */
  function WrongMoment(r: FiveRules, year: int, q: nat, p: nat, excluded: int): Instant
    requires 1 <= q < p < 5
  {
    [year,
     if q == MONTH then excluded else if q == MDAY then 7 else 6,
     if q == MDAY then excluded else if q == HOUR then 15 else LowerPart(r, MDAY, p),
     if q == HOUR then excluded else LowerPart(r, HOUR, p),
     LowerPart(r, MINUTE, p)]
  }

  /** The value of a lower field: its minimum above `p`, one before it at `p`, the last one below. */
  function LowerPart(r: FiveRules, j: nat, p: nat): int
    requires j < 5
  {
    var lo := r.fields[j].lo;
    if j < p then lo else if j > p then NaturalHigh(j) else if lo > NaturalLow(j) then lo - 1 else lo
  }

  /** A field that is not full excludes some value of the calendar. */
  lemma Excludes(r: FiveRules, year: int, q: nat) returns (v: int)
    requires WellFormed(r, year) && 1 <= q < 4 && !Full(r, q, year)
    ensures NaturalLow(q) <= v <= NaturalHigh(q) && !r.fields[q].Allows(v)
  {
    var f := r.fields[q];
    if f.lo > NaturalLow(q) {
      v := NaturalLow(q);
    } else if f.hi < NaturalHigh(q) {
      v := NaturalHigh(q);
    } else {
      v := 1;
      NotMultiple(f.each);
    }
  }

  lemma NotMultiple(each: Step)
    requires each != 1 && each != -1
    ensures 1 % each != 0
  {
  }

  lemma MomentIsReal(r: FiveRules, year: int, q: nat, p: nat, excluded: int)
    requires EveryDay(r, year) && 1 <= q < p < 5 && q < 4 && NaturalLow(q) <= excluded <= NaturalHigh(q)
    ensures RealInstant(WrongMoment(r, year, q, p, excluded))
  {
    var now := WrongMoment(r, year, q, p, excluded);
    forall j | q < j < 5
      ensures NaturalLow(j) <= now[j] <= NaturalHigh(j)
    {
      assert NaturalLow(j) <= r.fields[j].lo <= r.fields[j].hi <= NaturalHigh(j);
    }
    assert q == MONTH ==> now[MDAY] <= 28;
  }

  /** A carry from the minute up to part `p` sets everything below `p` to its minimum. */
  lemma {:induction false} Carry(r: FiveRules, p: nat, j: nat, c: Instant)
    requires p <= j < 5 && 1 <= p && (c[p] < r.fields[p].lo || c[p] + 1 <= r.fields[p].hi)
    requires forall i :: p < i <= j ==> c[i] >= r.fields[i].lo && c[i] + 1 > r.fields[i].hi
    ensures forall i :: 0 <= i < 5 ==>
              Incr(r, j, c)[i] == (if i < p then c[i] else if i > p || c[p] < r.fields[p].lo then r.fields[i].lo
                else c[p] + 1)
    decreases j
  {
    IncrOnce(r, j, c);
    if p < j {
      Carry(r, p, j - 1, c[j := r.fields[j].lo]);
    }
  }

  /** Some allowed value is at or above `v`. */
  ghost predicate Ahead(r: FiveRules, p: nat, v: int)
    requires p < 5
  {
    exists b: int {:trigger r.fields[p].Allows(b)} :: v <= b && r.fields[p].Allows(b)
  }

  lemma LowIsAhead(r: FiveRules, p: nat)
    requires p < 5 && AllowsSome(r, p)
    ensures Ahead(r, p, r.fields[p].lo)
    ensures !r.fields[p].Aligned() ==> Ahead(r, p, r.fields[p].lo + 1)
  {
    var v: int :| r.fields[p].Allows(v);
    assert v >= r.fields[p].lo;
  }

  /** The search starts with the excluded value still in place and an allowed one ahead in every lower field. */
  lemma StartsBelow(r: FiveRules, year: int, q: nat, p: nat, excluded: int)
    requires EveryDay(r, year) && 1 <= q < p < 5 && !r.fields[p].Aligned()
    requires forall j: nat :: 1 <= j < 5 ==> AllowsSome(r, j)
    ensures var now, s := WrongMoment(r, year, q, p, excluded), Start(r, WrongMoment(r, year, q, p, excluded));
            && (forall i :: 0 <= i <= q ==> s.c[i] == now[i])
            && forall j :: q < j < 5 ==> Ahead(r, j, s.c[j])
  {
    var now := WrongMoment(r, year, q, p, excluded);
    LowIsAhead(r, p);
    assert Ahead(r, p, r.fields[p].lo + 1);
    assert forall j :: q < j < 5 ==> now[j] == LowerPart(r, j, p);
    assert forall j :: 1 <= j < 5 ==> r.fields[j].lo <= r.fields[j].hi <= NaturalHigh(j);
    Carry(r, p, MINUTE, now);
    var s := Start(r, now);
    forall j | q < j < 5
      ensures Ahead(r, j, s.c[j])
    {
      LowIsAhead(r, j);
    }
  }

  // ----- the pass that accepts it

  /** One increment of a field with an allowed value ahead. */
  lemma Climb(r: FiveRules, s: Search, j: nat, b: int)
    requires 1 <= j < 5 && s.status == Running && s.k == 4 - j && s.valid
    requires s.c[j] <= b && r.fields[j].Allows(b) && !r.fields[j].Allows(s.c[j])
    ensures var s' := Next(r, s);
            && s'.status == Running && s'.k == s.k && s'.valid && s.c[j] < s'.c[j] <= b
            && (forall i :: 0 <= i < j ==> s'.c[i] == s.c[i])
            && AtLow(r, j + 1, s'.c) && s'.moved <= j && s'.moved <= s.moved
  {
    IncrOnce(r, j, s.c);
  }

  /** A field with an allowed value ahead settles without overflow. */
  lemma {:induction false} Settle(r: FiveRules, s: Search, j: nat, b: int) returns (n: nat)
    requires 1 <= j < 5 && s.status == Running && s.k == 4 - j && s.valid
    requires s.c[j] <= b && r.fields[j].Allows(b)
    ensures var s' := Iterate(r, s, n);
            && s'.status == Running && s'.k == 5 - j && s'.valid && r.fields[j].Allows(s'.c[j])
            && (forall i :: 0 <= i < j ==> s'.c[i] == s.c[i])
            && (forall i :: j < i < 5 ==> s'.c[i] == s.c[i] || s'.c[i] == r.fields[i].lo)
            && s'.moved <= s.moved
            && (!r.fields[j].Allows(s.c[j]) ==> s'.moved <= j && AtLow(r, j + 1, s'.c))
    decreases b - s.c[j]
  {
    if r.fields[j].Allows(s.c[j]) {
      assert Iterate(r, s, 1) == Iterate(r, Next(r, s), 0);
      n := 1;
    } else {
      Climb(r, s, j, b);
      var rest := Settle(r, Next(r, s), j, b);
      n := rest + 1;
    }
  }

  /** All fields below `q` settle and leave the part up to `q` alone. */
  lemma {:induction false} SettleBelow(r: FiveRules, s: Search, q: nat, j: nat) returns (n: nat)
    requires 1 <= q <= j < 5 && s.status == Running && s.k == 4 - j && s.valid
    requires forall i :: q < i <= j ==> Ahead(r, i, s.c[i])
    ensures var s' := Iterate(r, s, n);
            && s'.status == Running && s'.k == 4 - q && s'.valid
            && forall i :: 0 <= i <= q ==> s'.c[i] == s.c[i]
    decreases j
  {
    if j == q {
      n := 0;
    } else {
      var b: int :| s.c[j] <= b && r.fields[j].Allows(b);
      var m := Settle(r, s, j, b);
      var s1 := Iterate(r, s, m);
      forall i | q < i <= j - 1
        ensures Ahead(r, i, s1.c[i])
      {
        assert s1.c[i] == s.c[i];
      }
      var rest := SettleBelow(r, s1, q, j - 1);
      IterateAdd(r, s, m, rest);
      n := m + rest;
    }
  }

  /** The state after the excluded value was left: everything below is at its minimum. */
  ghost predicate MovedOn(r: FiveRules, s: Search, s': Search, q: nat)
    requires 1 <= q < 5
  {
    && s'.status == Running && s'.valid && s'.moved <= q && AtLow(r, q + 1, s'.c)
    && (forall i :: 0 <= i < q - 1 ==> s'.c[i] == s.c[i])
    && (s'.c[q - 1] == s.c[q - 1] || s'.c[q - 1] == s.c[q - 1] + 1)
  }

  /** One increment of an excluded value, which may overflow into the field above. */
  lemma LeaveExcluded(r: FiveRules, s: Search, q: nat)
    requires 1 <= q < 4 && s.status == Running && s.k == 4 - q && s.valid && !r.fields[q].Allows(s.c[q])
    requires r.fields[q - 1].lo <= s.c[q - 1] < r.fields[q - 1].hi
    ensures var s' := Next(r, s);
            && s'.k == s.k && MovedOn(r, s, s', q)
            && (if s.c[q] < r.fields[q].lo || s.c[q] + 1 > r.fields[q].hi then s'.c[q] == r.fields[q].lo
                else s'.c[q] == s.c[q] + 1 && s'.c[q - 1] == s.c[q - 1])
            && (s.c[q] < r.fields[q].lo ==> s'.c[q - 1] == s.c[q - 1])
  {
    IncrOnce(r, q, s.c);
    if s.c[q] >= r.fields[q].lo && s.c[q] + 1 > r.fields[q].hi {
      IncrOnce(r, q - 1, s.c[q := r.fields[q].lo]);
    }
  }

  /** From an excluded value the field moves, over the end of its range if need be, to an allowed one. */
  lemma {:induction false} MoveOver(r: FiveRules, s: Search, q: nat, b: int) returns (n: nat)
    requires 1 <= q < 4 && s.status == Running && s.k == 4 - q && s.valid && !r.fields[q].Allows(s.c[q])
    requires r.fields[q - 1].lo <= s.c[q - 1] < r.fields[q - 1].hi && r.fields[q].Allows(b)
    ensures var s' := Iterate(r, s, n);
            s'.k == 5 - q && r.fields[q].Allows(s'.c[q]) && MovedOn(r, s, s', q)
    decreases r.fields[q].hi - s.c[q]
  {
    if s.c[q] <= b {
      n := Settle(r, s, q, b);
    } else {
      LeaveExcluded(r, s, q);
      var s1 := Next(r, s);
      var rest: nat;
      if s1.c[q] == r.fields[q].lo || r.fields[q].Allows(s1.c[q]) {
        rest := Settle(r, s1, q, if r.fields[q].Allows(s1.c[q]) then s1.c[q] else b);
      } else {
        rest := MoveOver(r, s1, q, b);
      }
      n := rest + 1;
    }
  }

  /** A full field allows every value of its range. */
  lemma FullAllowsAll(r: FiveRules, p: nat, year: int, v: int)
    requires p < 5 && Full(r, p, year) && r.fields[p].lo <= v <= r.fields[p].hi
    ensures r.fields[p].Allows(v)
  {
  }

  /** What the parts above `q` are when the pass gets there. */
  ghost predicate UpperParts(r: FiveRules, year: int, q: nat, c: Instant)
    requires 1 <= q < 4
  {
    && (forall j :: 0 <= j < q ==> Full(r, j, year))
    && (if q == MONTH then year <= c[YEAR] <= year + 1 < MAX_YEAR else c[YEAR] == year)
    && (q == MDAY ==> 7 <= c[MONTH] <= 8)
    && (q == HOUR ==> c[MONTH] == 6 && 15 <= c[MDAY] <= 16)
  }

  /** The fields above `q` are unrestricted and the date is real. */
  lemma RestHolds(r: FiveRules, year: int, q: nat, c: Instant, k: nat)
    requires EveryDay(r, year) && 1 <= q < 4 && UpperParts(r, year, q, c)
    requires r.fields[q].Allows(c[q]) && AtLow(r, q + 1, c) && 5 - q <= k < 7
    ensures RuleValid(r, k, c)
  {
    assert NaturalLow(MDAY) <= r.fields[MDAY].lo <= r.fields[MDAY].hi <= NaturalHigh(MDAY);
    assert NaturalLow(MONTH) <= r.fields[MONTH].lo <= r.fields[MONTH].hi <= NaturalHigh(MONTH);
    if k < 5 {
      FullAllowsAll(r, 4 - k, year, c[4 - k]);
    } else if k == 5 {
      WeekDayInRange(c);
    }
  }

  /** The pass accepts the candidate. */
  lemma Accepts(r: FiveRules, year: int, q: nat, s: Search) returns (n: nat)
    requires EveryDay(r, year) && 1 <= q < 4 && UpperParts(r, year, q, s.c)
    requires s.status == Running && s.valid && s.k == 5 - q && s.moved <= q
    requires r.fields[q].Allows(s.c[q]) && AtLow(r, q + 1, s.c)
    ensures Iterate(r, s, n).status == Found && Iterate(r, s, n).moved <= q
  {
    forall k | s.k <= k < 7
      ensures RuleValid(r, k, s.c)
    {
      RestHolds(r, year, q, s.c, k);
    }
    PassOver(r, s, 2 + q);
    IterateAdd(r, s, 2 + q, 1);
    var t := s.(k := 7);
    assert Iterate(r, t, 1) == Iterate(r, Next(r, t), 0) == Next(r, t);
    n := 3 + q;
  }

  lemma UpperMoved(r: FiveRules, year: int, q: nat, s: Search, s': Search)
    requires 1 <= q < 4 && MovedOn(r, s, s', q) && forall j :: 0 <= j < q ==> Full(r, j, year)
    requires s.c[YEAR] == year && (q > MONTH ==> s.c[MONTH] == if q == MDAY then 7 else 6)
      && (q > MDAY ==> s.c[MDAY] == 15)
    requires q == MONTH ==> year + 1 < MAX_YEAR
    ensures UpperParts(r, year, q, s'.c)
  {
    assert q == MDAY ==> s'.c[0] == s.c[0];
    assert q == HOUR ==> s'.c[0] == s.c[0] && s'.c[1] == s.c[1];
  }

  /** From the first test of field `q` to the end of the pass. */
  lemma LeavesAndAccepts(r: FiveRules, year: int, q: nat, s: Search) returns (n: nat)
    requires EveryDay(r, year) && 1 <= q < 4 && AllowsSome(r, q)
    requires forall j :: 0 <= j < q ==> Full(r, j, year)
    requires s.status == Running && s.k == 4 - q && s.valid && !r.fields[q].Allows(s.c[q])
    requires s.c[YEAR] == year && (q > MONTH ==> s.c[MONTH] == if q == MDAY then 7 else 6)
      && (q > MDAY ==> s.c[MDAY] == 15)
    requires q == MONTH ==> year + 1 < MAX_YEAR
    ensures Iterate(r, s, n).status == Found && Iterate(r, s, n).moved <= q
  {
    assert Full(r, q - 1, year);
    var b: int :| r.fields[q].Allows(b);
    var m := MoveOver(r, s, q, b);
    var s' := Iterate(r, s, m);
    UpperMoved(r, year, q, s, s');
    var rest := Accepts(r, year, q, s');
    IterateAdd(r, s, m, rest);
    n := m + rest;
  }

  /** The excluded value is left last, with the field at `p` at a minimum that its step excludes. */
  lemma BreaksRules(r: FiveRules, year: int, q: nat, p: nat)
    requires EveryDay(r, year) && 1 <= q < p < 5 && q < 4
    requires !r.fields[p].Aligned() && !Full(r, q, year) && forall j :: 0 <= j < q ==> Full(r, j, year)
    requires forall j: nat :: 1 <= j < 5 ==> AllowsSome(r, j)
    ensures !AlwaysSound(r, year)
  {
    var excluded := Excludes(r, year, q);
    var now := WrongMoment(r, year, q, p, excluded);
    MomentIsReal(r, year, q, p, excluded);
    StartsBelow(r, year, q, p, excluded);
    var l := SettleBelow(r, Start(r, now), q, MINUTE);
    var m := LeavesAndAccepts(r, year, q, After(r, now, l));
    IterateAdd(r, Start(r, now), l, m);
    FoundMatchesIffAligned(r, now, l + m);
    assert !Matches(r, After(r, now, l + m).c);
  }

  // ----- minute and hour only

  /** `m h * * * *` before 2099. */
  ghost predicate Daily(r: FiveRules, year: int) {
    EveryDay(r, year) && Full(r, MONTH, year) && Full(r, MDAY, year)
  }

  /**
   The minute range starts on its step, or every hour is allowed; otherwise the
   rule can be broken unless nothing can ever be returned.
   */
  lemma DailySoundIff(r: FiveRules, year: int)
    requires Daily(r, year)
    ensures AlwaysSound(r, year) <==>
            || r.fields[MINUTE].Aligned() || Full(r, HOUR, year)
            || !AllowsSome(r, MINUTE) || !AllowsSome(r, HOUR)
  {
    SoundIff(r, year);
    assert Full(r, YEAR, year) && Full(r, MONTH, year) && Full(r, MDAY, year);
    assert r.fields[MONTH].Allows(1) && r.fields[MDAY].Allows(1);
    assert AllowsSome(r, MONTH) && AllowsSome(r, MDAY);
    if !r.fields[MINUTE].Aligned() && !Full(r, HOUR, year) {
      assert !Robust(r, year);
    } else {
      assert r.fields[HOUR].Aligned() || forall q :: 0 <= q < HOUR ==> Full(r, q, year);
    }
  }
}
