/**
 CronJob::calcNext as the source writes it: a mutable candidate, check objects
 linked by overflow and reset pointers, and three nested loops. It is proved to
 compute the outcome of the search machine.
 */
module CronJob {

  import opened Calendar
  import opened CronRules
  import opened CronSearch
  import opened Instants
  import opened Results

  class Candidate {
    var year: int
    var mon: int
    var mday: int
    var hour: int
    var min: int

    constructor (now: Instant)
      ensures Value() == now
    {
      year, mon, mday, hour, min := now[YEAR], now[MONTH], now[MDAY], now[HOUR], now[MINUTE];
    }

    function Value(): (x: Instant)
      reads this
    {
      var fields := [year, mon, mday, hour, min];
      assert |fields| == 5;
      fields
    }

    function At(p: nat): (v: int)
      requires p < 5
      reads this
      ensures v == Value()[p]
    {
      match p
      case 0 => year
      case 1 => mon
      case 2 => mday
      case 3 => hour
      case _ => min
    }

    method Put(p: nat, v: int)
      requires p < 5
      modifies this
      ensures Value() == old(Value())[p := v]
    {
      match p
      case 0 => year := v;
      case 1 => mon := v;
      case 2 => mday := v;
      case 3 => hour := v;
      case _ => min := v;
    }
  }

  /** The dynamic type of a check. */
  datatype Kind = InRange(field: Field, part: nat) | OnWeekDay(days: set<int>) | ValidDate

  class Check {
    const kind: Kind
    var overflowPart: Check?
    var resetPart: Check?

    constructor (kind: Kind)
      ensures this.kind == kind && overflowPart == null && resetPart == null
    {
      this.kind := kind;
      overflowPart, resetPart := null, null;
    }

    method Valid(c: Candidate, ghost rules: seq<Check>, ghost r: FiveRules, ghost k: nat) returns (valid: bool)
      requires k < 7 && Linked(rules, r) && rules[k] == this
      ensures valid == RuleValid(r, k, c.Value())
    {
      assert LinkedAt(rules, r, k);
      match kind
      case InRange(f, p) =>
        valid := c.At(p) >= f.lo && c.At(p) <= f.hi && c.At(p) % f.each == 0;
      case OnWeekDay(days) =>
        var dow := WeekDay(c.mday, c.mon, c.year);
        valid := dow >= 0 && dow < 7 && dow in days;
      case ValidDate =>
        var maxDays := DaysPerMonth(c.mon, c.year);
        valid := 1 <= c.mday && c.mday <= maxDays;
    }

    /** True when the scan may go on with the same rule, false when it must start over. */
    method Incr(c: Candidate, ghost rules: seq<Check>, ghost r: FiveRules, ghost k: nat) returns (again: bool)
      requires k < 7 && Linked(rules, r) && rules[k] == this
      modifies c
      ensures c.Value() == CronRules.Incr(r, PartOf(k), old(c.Value()))
      ensures again == (k < 5)
      decreases if k < 5 then 5 - k else 6, 2
    {
      assert LinkedAt(rules, r, k);
      match kind
      case InRange(_, _) =>
        IncrRange(c, rules, r, k);
        again := true;
      case _ =>
        if overflowPart != null {
          var _ := overflowPart.Incr(c, rules, r, 2);
        }
        again := false;
    }

    /** `InRange::incr`. */
    method IncrRange(c: Candidate, ghost rules: seq<Check>, ghost r: FiveRules, ghost k: nat)
      requires k < 5 && Linked(rules, r) && rules[k] == this
      modifies c
      ensures c.Value() == CronRules.Incr(r, 4 - k, old(c.Value()))
      decreases 5 - k, 1
    {
      assert LinkedAt(rules, r, k);
      ghost var before := c.Value();
      MovePart(c, rules, r, k);
      ghost var moved := c.Value();
      IncrUnfold(r, 4 - k, before, moved);
      if resetPart != null {
        resetPart.Reset(c, rules, r, k - 1);
      } else {
        ResetNothing(r, moved);
      }
    }

    /** What an increment does before it resets the lower parts. */
    method MovePart(c: Candidate, ghost rules: seq<Check>, ghost r: FiveRules, ghost k: nat)
      requires k < 5 && Linked(rules, r) && rules[k] == this
      modifies c
      ensures c.Value() == Moved(r, 4 - k, old(c.Value()))
      decreases 5 - k, 0
    {
      assert LinkedAt(rules, r, k);
      var f, p := kind.field, kind.part;
      ghost var before := c.Value();
      if c.At(p) < f.lo {
        c.Put(p, f.lo);
      } else {
        c.Put(p, c.At(p) + 1);
        if c.At(p) > f.hi {
          c.Put(p, f.lo);
          assert c.Value() == before[p := f.lo];
          if overflowPart != null {
            var _ := overflowPart.Incr(c, rules, r, k + 1);
          }
        }
      }
    }

    method Reset(c: Candidate, ghost rules: seq<Check>, ghost r: FiveRules, ghost k: nat)
      requires k < 5 && Linked(rules, r) && rules[k] == this
      modifies c
      ensures c.Value() == CronRules.Reset(r, 4 - k, old(c.Value()))
      decreases k
    {
      ghost var before := c.Value();
      assert LinkedAt(rules, r, k);
      c.Put(kind.part, kind.field.lo);
      ghost var low := c.Value();
      assert low == before[4 - k := r.fields[4 - k].lo];
      assert CronRules.Reset(r, 4 - k, before) == CronRules.Reset(r, 5 - k, low);
      if resetPart != null {
        resetPart.Reset(c, rules, r, k - 1);
      } else {
        ResetNothing(r, low);
      }
    }
  }

  lemma ResetNothing(r: FiveRules, c: Instant)
    ensures CronRules.Reset(r, 5, c) == c
  {
  }

  function KindOf(r: FiveRules, k: nat): Kind
    requires k < 7
  {
    if k < 5 then InRange(r.fields[4 - k], 4 - k) else if k == 5 then OnWeekDay(r.days) else ValidDate
  }

  ghost predicate LinkedAt(rules: seq<Check>, r: FiveRules, k: nat)
    requires k < 7 && |rules| == 7
    reads rules[k]
  {
    && rules[k].kind == KindOf(r, k)
    && rules[k].overflowPart == (if k < 4 then rules[k + 1] else if k == 4 then null else rules[2])
    && rules[k].resetPart == (if 1 <= k < 5 then rules[k - 1] else null)
  }

  /** The rule vector of `calcNext` with its overflow and reset pointers. */
  ghost predicate Linked(rules: seq<Check>, r: FiveRules)
    reads rules
  {
    |rules| == 7 && forall k :: 0 <= k < 7 ==> LinkedAt(rules, r, k)
  }

  method BuildRules(r: FiveRules) returns (rules: seq<Check>)
    ensures Linked(rules, r)
  {
    var minutes := new Check(InRange(r.fields[MINUTE], MINUTE));
    var hours := new Check(InRange(r.fields[HOUR], HOUR));
    var dayOfMonth := new Check(InRange(r.fields[MDAY], MDAY));
    var month := new Check(InRange(r.fields[MONTH], MONTH));
    var year := new Check(InRange(r.fields[YEAR], YEAR));
    var weekDay := new Check(OnWeekDay(r.days));
    var validDate := new Check(ValidDate);
    rules := [minutes, hours, dayOfMonth, month, year, weekDay, validDate];
    LinkRanges(rules);
    label Ranges:
    rules[5].overflowPart := rules[2];
    rules[6].overflowPart := rules[2];
    forall k | 0 <= k < 7
      ensures LinkedAt(rules, r, k)
    {
      assert old@Ranges(LinkedUpTo(rules, 4, k));
    }
  }

  /** The pointers of rule `k` after `i` rounds of the linking loop. */
  ghost predicate LinkedUpTo(rules: seq<Check>, i: nat, k: nat)
    requires k < 7 && |rules| == 7
    reads rules[k]
  {
    && rules[k].overflowPart == (if k < i && k < 4 then rules[k + 1] else null)
    && rules[k].resetPart == (if 1 <= k <= i && k < 5 then rules[k - 1] else null)
  }

  /** The linking loop: every range overflows into the next and is reset by it. */
  method LinkRanges(rules: seq<Check>)
    requires |rules| == 7 && forall i, j :: 0 <= i < j < 7 ==> rules[i] != rules[j]
    requires forall k :: 0 <= k < 7 ==> LinkedUpTo(rules, 0, k)
    modifies rules
    ensures forall k :: 0 <= k < 7 ==> LinkedUpTo(rules, 4, k)
  {
    for i := 0 to 4
      invariant forall k :: 0 <= k < 7 ==> LinkedUpTo(rules, i, k)
    {
      label Before:
      assert LinkedUpTo(rules, i, i) && LinkedUpTo(rules, i, i + 1);
      rules[i].overflowPart := rules[i + 1];
      rules[i + 1].resetPart := rules[i];
      ghost var done := i + 1;
      forall k | 0 <= k < 7
        ensures LinkedUpTo(rules, done, k)
      {
        assert old@Before(LinkedUpTo(rules, i, k));
        assert k != i ==> rules[k] != rules[i];
        assert k != i + 1 ==> rules[k] != rules[i + 1];
      }
    }
  }

  /** What a search that has ended in state `s` reports. */
  function Outcome(s: Search): Result<Instant, CronError> {
    if s.status == Found then Success(s.c) else Failure(Unsatisfiable)
  }

  /** The outcome of `calcNext` for a rule text: parse errors first, then the end of the search. */
  ghost predicate IsOutcome(t: Timespec, now: Instant, o: Result<Instant, CronError>) {
    var rules := MakeRules(t, now[YEAR]);
    if rules.Failure? then o == Failure(rules.error)
    else exists n: nat :: HaltsWithin(rules.value, now, n) && o == Outcome(After(rules.value, now, n))
  }

  /** One step of the machine, taken while it runs. */
  lemma Advance(r: FiveRules, s: Search, left: nat)
    requires s.status == Running && Iterate(r, s, left).status != Running
    ensures left > 0 && Iterate(r, Next(r, s), left - 1) == Iterate(r, s, left)
  {
  }

  lemma Test(r: FiveRules, s: Search)
    requires s.status == Running && s.k < 7
    ensures var s' := Next(r, s);
            && s'.status == Running
            && if RuleValid(r, s.k, s.c) then s'.c == s.c && s'.k == s.k + 1 && s'.valid == s.valid
               else
                 && s'.c == Incr(r, PartOf(s.k), s.c) && s'.valid == (s.valid && s.k < 5)
                 && s'.k == if s'.valid then s.k else s.k + 1
  {
  }

  /** The search in state `s` is where the loops are, and `left` steps from its end. */
  ghost predicate InStep(r: FiveRules, s: Search, left: nat, c: Instant, k: nat, valid: bool, end: Search) {
    s.status == Running && s.c == c && s.k == k && s.valid == valid && Iterate(r, s, left) == end
      && end.status != Running
  }

  /** The innermost loop: rule `k` is incremented until it holds or the pass must start over. */
  method SettleRule(rules: seq<Check>, k: nat, candidate: Candidate, valid: bool,
                    ghost r: FiveRules, ghost s: Search, ghost left: nat)
    returns (valid': bool, ghost s': Search, ghost left': nat)
    requires Linked(rules, r) && k < 7
    requires InStep(r, s, left, candidate.Value(), k, valid, Iterate(r, s, left))
    modifies candidate
    ensures InStep(r, s', left', candidate.Value(), k + 1, valid', Iterate(r, s, left)) && left' < left
  {
    valid', s', left' := valid, s, left;
    ghost var end := Iterate(r, s, left);
    while true
      invariant Linked(rules, r) && left' <= left
      invariant InStep(r, s', left', candidate.Value(), k, valid', end)
      decreases left'
    {
      Advance(r, s', left');
      Test(r, s');
      s', left' := Next(r, s'), left' - 1;
      var holds := rules[k].Valid(candidate, rules, r, k);
      if holds {
        return;
      }
      var again := rules[k].Incr(candidate, rules, r, k);
      valid' := valid' && again;
      if !valid' {
        return;
      }
    }
  }

  /** One pass over the rule vector. */
  method Pass(rules: seq<Check>, candidate: Candidate, ghost r: FiveRules, ghost s: Search, ghost left: nat)
    returns (valid: bool, ghost s': Search, ghost left': nat)
    requires Linked(rules, r)
    requires InStep(r, s, left, candidate.Value(), 0, true, Iterate(r, s, left))
    modifies candidate
    ensures InStep(r, s', left', candidate.Value(), 7, valid, Iterate(r, s, left)) && left' <= left
  {
    valid, s', left' := true, s, left;
    for k := 0 to |rules|
      invariant Linked(rules, r) && left' <= left
      invariant InStep(r, s', left', candidate.Value(), k, valid, Iterate(r, s, left))
    {
      valid, s', left' := SettleRule(rules, k, candidate, valid, r, s', left');
    }
  }

  /**
   The loops of `calcNext`. A run that never ends has no outcome; `steps` is
   the length of a run that does.
   */
  method CalcNext(t: Timespec, now: Instant, ghost steps: nat) returns (o: Result<Instant, CronError>)
    requires MakeRules(t, now[YEAR]).Success? ==> HaltsWithin(MakeRules(t, now[YEAR]).value, now, steps)
    ensures IsOutcome(t, now, o)
  {
    var parsed := MakeRules(t, now[YEAR]);
    if parsed.Failure? {
      return Failure(parsed.error);
    }
    var r := parsed.value;
    var candidate := new Candidate(now);
    var rules := BuildRules(r);
    var _ := rules[0].Incr(candidate, rules, r, 0);

    ghost var s, left := Start(r, now), steps;
    while true
      invariant Linked(rules, r) && fresh(candidate)
      invariant InStep(r, s, left, candidate.Value(), 0, true, After(r, now, steps))
      decreases left
    {
      var valid;
      valid, s, left := Pass(rules, candidate, r, s, left);
      Advance(r, s, left);
      if candidate.year >= MAX_YEAR {
        HaltedOutcome(r, now, s, left, steps);
        return Failure(Unsatisfiable);
      }
      if valid {
        HaltedOutcome(r, now, s, left, steps);
        return Success(candidate.Value());
      }
      s, left := Next(r, s), left - 1;
    }
  }

  lemma HaltedOutcome(r: FiveRules, now: Instant, s: Search, left: nat, steps: nat)
    requires left > 0 && Iterate(r, s, left) == After(r, now, steps)
    requires Next(r, s).status != Running
    ensures After(r, now, steps) == Next(r, s)
  {
    HaltedStays(r, Next(r, s), left - 1);
  }
}
