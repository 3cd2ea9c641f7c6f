/**
 The seven rules of a cron job (cron.cc, classes InRange, WeekDay and ValidDate)
 and the arithmetic of `incr` and `reset` on values. The lemmas show what an
 increment jumps over.
 */
module CronRules {

  import opened Calendar
  import opened Instants
  import opened Results

  datatype CronError = InvalidRule | Unsatisfiable

  const MAX_YEAR := 2099

  /** A parsed range rule; `value % 0` is undefined in the source, so a step is never 0. */
  type Step = n: int | n != 0 witness 1
  datatype Field = Field(lo: int, hi: int, each: Step) {
    predicate Allows(v: int) {
      lo <= v <= hi && v % each == 0
    }

    /** The lower end, where `reset` and overflow put the field, is itself allowed by the step. */
    predicate Aligned() {
      lo % each == 0
    }
  }

  /** One field of the rule text after number parsing: what stands before and after the '/'. */
  datatype FieldBody = Star | Range(first: int, last: int) | Number(n: int)
  datatype FieldText = FieldText(body: FieldBody, each: Step)
  datatype Timespec = Timespec(minute: FieldText, hour: FieldText, mday: FieldText, month: FieldText,
                               days: set<int>, year: FieldText)

  /** The fields by part number (0 year, ..., 4 minute) and the allowed weekdays (0 Sunday). */
  datatype Rules = Rules(fields: seq<Field>, days: set<int>)
  type FiveRules = r: Rules | |r.fields| == 5 
    witness Rules([Field(0, 0, 1), Field(0, 0, 1), Field(0, 0, 1), Field(0, 0, 1), Field(0, 0, 1)], {})

  function NaturalLow(p: nat): int { if p == MONTH || p == MDAY then 1 else 0 }

  function NaturalHigh(p: nat): int {
    if p == MONTH then 12 else if p == MDAY then 31 else if p == HOUR then 23 else 59
  }

  /** The constructor of InRange. */
  function MakeField(t: FieldText, minVal: int, maxVal: int): (f: Result<Field, CronError>)
    ensures f.Success? ==> minVal <= f.value.lo && f.value.hi <= maxVal && f.value.each == t.each
    ensures f.Success? && minVal <= maxVal ==> f.value.lo <= f.value.hi
    ensures f.Success? && t.body.Range? ==> f.value.lo == t.body.first && f.value.hi == t.body.last
    ensures f.Success? && t.body.Number? ==> f.value.lo == t.body.n == f.value.hi
    ensures f.Success? && t.body.Star? ==> f.value.lo == minVal && f.value.hi == maxVal && 1 <= f.value.each <= maxVal
    ensures f == Failure(InvalidRule) <==> t.body.Range? && t.body.last < t.body.first
    ensures f == Failure(Unsatisfiable) <==>
              || (t.body.Star? && !(1 <= t.each <= maxVal))
              || (t.body.Range? && t.body.first <= t.body.last && !(minVal <= t.body.first && t.body.last <= maxVal))
              || (t.body.Number? && !(minVal <= t.body.n <= maxVal))
  {
    match t.body
    case Star =>
      if t.each < 1 || t.each > maxVal then Failure(Unsatisfiable) else Success(Field(minVal, maxVal, t.each))
    case Range(first, last) =>
      if last < first then Failure(InvalidRule)
      else if first < minVal || last > maxVal then Failure(Unsatisfiable)
      else Success(Field(first, last, t.each))
    case Number(n) =>
      if n < minVal || n > maxVal then Failure(Unsatisfiable) else Success(Field(n, n, t.each))
  }

  /** The rules `calcNext` builds; the year field starts at the current year. */
  function MakeRules(t: Timespec, year: int): (r: Result<FiveRules, CronError>)
    ensures r.Success? ==> WellFormed(r.value, year) && r.value.days == t.days
  {
    var minute :- MakeField(t.minute, 0, 59);
    var hour :- MakeField(t.hour, 0, 23);
    var mday :- MakeField(t.mday, 1, 31);
    var month :- MakeField(t.month, 1, 12);
    var years :- MakeField(t.year, year, MAX_YEAR);
    Success(Rules([years, month, mday, hour, minute], t.days))
  }

  /** A part of the rule text together with the bounds of its part of the calendar. */
  function BoundedField(t: Timespec, year: int, k: nat): Result<Field, CronError>
    requires k < 5
  {
    match k
    case 0 => MakeField(t.minute, 0, 59)
    case 1 => MakeField(t.hour, 0, 23)
    case 2 => MakeField(t.mday, 1, 31)
    case 3 => MakeField(t.month, 1, 12)
    case _ => MakeField(t.year, year, 2099)
  }

  ghost predicate RefusedFirst(t: Timespec, year: int, k: nat, e: CronError)
    requires k < 5
  {
    BoundedField(t, year, k) == Failure(e) && forall j :: 0 <= j < k ==> BoundedField(t, year, j).Success?
  }

  /**
   A rule text is accepted if and only if each part is, and then gives the fields
   its parts stand for; otherwise the first part that is refused gives the error.
   */
  lemma RulesAcceptedIff(t: Timespec, year: int)
    ensures var r := MakeRules(t, year);
            && (r.Success? <==> forall k :: 0 <= k < 5 ==> BoundedField(t, year, k).Success?)
            && (r.Success? ==> forall k :: 0 <= k < 5 ==> BoundedField(t, year, k) == Success(r.value.fields[4 - k]))
            && (r.Failure? ==> exists k :: 0 <= k < 5 && RefusedFirst(t, year, k, r.error))
  {
    var r := MakeRules(t, year);
    if BoundedField(t, year, 0).Failure? {
      assert RefusedFirst(t, year, 0, r.error);
    } else if BoundedField(t, year, 1).Failure? {
      assert RefusedFirst(t, year, 1, r.error);
    } else if BoundedField(t, year, 2).Failure? {
      assert RefusedFirst(t, year, 2, r.error);
    } else if BoundedField(t, year, 3).Failure? {
      assert RefusedFirst(t, year, 3, r.error);
    } else if BoundedField(t, year, 4).Failure? {
      assert RefusedFirst(t, year, 4, r.error);
    }
  }

  /** What the InRange constructors establish about the rules used at a moment in `year`. */
  ghost predicate WellFormed(r: FiveRules, year: int) {
    && year <= r.fields[YEAR].lo && r.fields[YEAR].hi <= MAX_YEAR
    && (r.fields[YEAR].hi < MAX_YEAR ==> r.fields[YEAR].lo <= r.fields[YEAR].hi)
    && forall p :: 1 <= p < 5 ==> NaturalLow(p) <= r.fields[p].lo <= r.fields[p].hi <= NaturalHigh(p)
  }

  // ----- the rules, in the order of the source's rule vector

  /** Rules 0-4 are the ranges of minute, hour, day, month, year; 5 is the weekday, 6 the real date. */
  predicate RuleValid(r: FiveRules, k: nat, c: Instant)
    requires k < 7
  {
    if k < 5 then r.fields[4 - k].Allows(c[4 - k])
    else if k == 5 then
      var dow := WeekDay(c[MDAY], c[MONTH], c[YEAR]);
      0 <= dow < 7 && dow in r.days
    else 1 <= c[MDAY] <= DaysPerMonth(c[MONTH], c[YEAR])
  }

  ghost predicate Matches(r: FiveRules, x: Instant) {
    forall k :: 0 <= k < 7 ==> RuleValid(r, k, x)
  }

  /** The part a rule increments: weekday and real date overflow into the day of month. */
  function PartOf(k: nat): (p: nat)
    requires k < 7
    ensures p < 5
  {
    if k < 5 then 4 - k else MDAY
  }

  // ----- reset and increment

  function Reset(r: FiveRules, p: nat, c: Instant): (c': Instant)
    requires p <= 5
    ensures forall q :: 0 <= q < 5 ==> c'[q] == if q < p then c[q] else r.fields[q].lo
    decreases 5 - p
  {
    if p == 5 then c else Reset(r, p + 1, c[p := r.fields[p].lo])
  }

  function Incr(r: FiveRules, p: nat, c: Instant): Instant
    requires p < 5
  {
    var f := r.fields[p];
    if c[p] < f.lo then Reset(r, p + 1, c[p := f.lo])
    else
      var d: Instant := c[p := c[p] + 1];
      var e := if d[p] <= f.hi then d
               else if p == 0 then d[p := f.lo]
               else Incr(r, p - 1, d[p := f.lo]);
      Reset(r, p + 1, e)
  }

  /** What an increment does before it resets the lower parts. */
  function Moved(r: FiveRules, p: nat, c: Instant): Instant
    requires p < 5
  {
    var f := r.fields[p];
    if c[p] < f.lo || (c[p] + 1 > f.hi && p == 0) then c[p := f.lo]
    else if c[p] + 1 <= f.hi then c[p := c[p] + 1]
    else Incr(r, p - 1, c[p := f.lo])
  }

  lemma IncrUnfold(r: FiveRules, p: nat, c: Instant, e: Instant)
    requires p < 5 && e == Moved(r, p, c)
    ensures Incr(r, p, c) == Reset(r, p + 1, e)
  {
    assert c[p := c[p] + 1][p := r.fields[p].lo] == c[p := r.fields[p].lo];
  }

  /** The increment overflows through the year, which has no overflow part and restarts at its minimum. */
  predicate Wraps(r: FiveRules, p: nat, c: Instant)
    requires p < 5
  {
    c[p] >= r.fields[p].lo && c[p] + 1 > r.fields[p].hi && (p == 0 || Wraps(r, p - 1, c))
  }

  /** The least value of every field. */
  function Origin(r: FiveRules): Instant {
    seq(5, p requires 0 <= p < 5 => r.fields[p].lo)
  }

  /** Parts from `p` on are at their minimum. */
  ghost predicate AtLow(r: FiveRules, p: nat, c: Instant) {
    forall q :: p <= q < 5 ==> c[q] == r.fields[q].lo
  }

  lemma {:induction false} WrapsPrefix(r: FiveRules, p: nat, c: Instant, d: Instant)
    requires p < 5 && c[..p + 1] == d[..p + 1]
    ensures Wraps(r, p, c) == Wraps(r, p, d)
  {
    assert c[p] == c[..p + 1][p] && d[p] == d[..p + 1][p];
    if p == 0 {
    } else {
      assert c[..p] == c[..p + 1][..p] && d[..p] == d[..p + 1][..p];
      WrapsPrefix(r, p - 1, c, d);
    }
  }

  /** Overflow of part `p` is the increment of the part above, which resets `p` as well. */
  lemma OverflowIncr(r: FiveRules, p: nat, c: Instant)
    requires 0 < p < 5 && c[p] >= r.fields[p].lo && c[p] + 1 > r.fields[p].hi
    requires AtLow(r, p, Incr(r, p - 1, c[p := r.fields[p].lo]))
    ensures Incr(r, p, c) == Incr(r, p - 1, c[p := r.fields[p].lo])
  {
    assert c[p := c[p] + 1][p := r.fields[p].lo] == c[p := r.fields[p].lo];
  }

  /** An increment either strictly advances the prefix it works on or wraps to the origin. */
  lemma {:induction false} IncrAdvances(r: FiveRules, p: nat, c: Instant)
    requires p < 5
    ensures AtLow(r, p + 1, Incr(r, p, c))
    ensures Incr(r, p, c)[p] == r.fields[p].lo
      || (Incr(r, p, c)[p] == c[p] + 1 <= r.fields[p].hi && Incr(r, p, c)[..p] == c[..p])
    ensures if Wraps(r, p, c) then Incr(r, p, c) == Origin(r) else Before(c, Incr(r, p, c), p + 1)
  {
    var f := r.fields[p];
    var c' := Incr(r, p, c);
    if c[p] < f.lo || c[p] + 1 <= f.hi {
      assert c'[..p] == c[..p];
    } else {
      var w: Instant := c[p := f.lo];
      assert w[..p] == c[..p];
      if p > 0 {
        IncrAdvances(r, p - 1, w);
        WrapsPrefix(r, p - 1, c, w);
        OverflowIncr(r, p, c);
        if !Wraps(r, p, c) {
          BeforePrefix(c, w, c', p);
        }
      }
    }
  }

  lemma BeforePrefix(a: Instant, b: Instant, c: Instant, n: nat)
    requires n <= 5 && a[..n] == b[..n] && Before(b, c, n)
    ensures Before(a, c, n)
  {
    SamePrefix(a, b, c, n);
  }

  /** An instant below one whose parts from `p` on are minimal, with the same prefix, breaks a range rule. */
  lemma {:induction false} BelowLow(r: FiveRules, p: nat, n: nat, x: Instant, c: Instant)
    requires p <= n <= 5 && AtLow(r, p, c)
    requires !Before(x, c, p) && Before(x, c, n)
    ensures !Matches(r, x)
    decreases n
  {
    if !Before(x, c, n - 1) {
      assert !RuleValid(r, 4 - (n - 1), x);
    } else {
      BelowLow(r, p, n - 1, x, c);
    }
  }

  /** Whatever an increment passes over, beyond the prefix it started from, breaks a range rule. */
  lemma {:induction false} IncrSkips(r: FiveRules, p: nat, c: Instant, x: Instant)
    requires p < 5
    requires Before(c, x, p + 1)
    requires Wraps(r, p, c) || Less(x, Incr(r, p, c))
    ensures !Matches(r, x)
  {
    var f := r.fields[p];
    var c' := Incr(r, p, c);
    IncrAdvances(r, p, c);
    if c[..p] == x[..p] && c[p] < x[p] {
      assert x[..p + 1] == x[..p] + [x[p]];
      if !f.Allows(x[p]) {
        assert !RuleValid(r, 4 - p, x);
      } else {
        assert !Wraps(r, p, c);
        assert !Before(x, c', p + 1) by {
          Trichotomy(x, c, p + 1);
          if c[p] < f.lo || c[p] + 1 <= f.hi {
            assert c'[..p] == c[..p];
            Trichotomy(x, c', p);
          } else {
            assert false;
          }
        }
        BelowLow(r, p + 1, 5, x, c');
      }
    } else {
      assert Before(c, x, p);
      if c[p] < f.lo || c[p] + 1 <= f.hi {
        assert c'[..p] == c[..p];
        SamePrefix(c', c, x, p);
        PrefixDecides(c', x, p, 5);
        Total(c', x);
        assert false;
      } else {
        var w: Instant := c[p := f.lo];
        assert w[..p] == c[..p];
        SamePrefix(w, c, x, p);
        WrapsPrefix(r, p - 1, c, w);
        IncrAdvances(r, p - 1, w);
        OverflowIncr(r, p, c);
        IncrSkips(r, p - 1, w, x);
      }
    }
  }

  /** The prefix up to its part decides whether a rule holds. */
  lemma RuleReadsPrefix(r: FiveRules, k: nat, c: Instant, x: Instant)
    requires k < 7 && c[..PartOf(k) + 1] == x[..PartOf(k) + 1]
    ensures RuleValid(r, k, c) == RuleValid(r, k, x)
  {
    var p := PartOf(k);
    assert forall q :: 0 <= q <= p ==> c[q] == c[..p + 1][q] && x[q] == x[..p + 1][q];
  }

  /**
   Incrementing because rule `k` fails jumps from `c` to the result over
   instants that match no rule set; a year wrap means that nothing at or after
   `c` matches.
   */
  lemma RuleIncrSkips(r: FiveRules, k: nat, c: Instant, x: Instant)
    requires k < 7 && !RuleValid(r, k, c)
    requires AtMost(c, x)
    requires Wraps(r, PartOf(k), c) || Less(x, Incr(r, PartOf(k), c))
    ensures !Matches(r, x)
  {
    var p := PartOf(k);
    Trichotomy(c, x, p + 1);
    if Before(c, x, p + 1) {
      IncrSkips(r, p, c, x);
    } else {
      assert c[..p + 1] == x[..p + 1] by {
        if Before(x, c, p + 1) {
          PrefixDecides(x, c, p + 1, 5);
          Total(x, c);
        }
      }
      RuleReadsPrefix(r, k, c, x);
      assert !RuleValid(r, k, x);
    }
  }

  /** Nothing below the origin matches. */
  lemma BelowOrigin(r: FiveRules, x: Instant)
    requires Less(x, Origin(r))
    ensures !Matches(r, x)
  {
    BelowLow(r, 0, 5, x, Origin(r));
  }
}
