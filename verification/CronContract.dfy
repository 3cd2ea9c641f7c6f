/**
 What a caller of `calcNext` may conclude from its result.
 */
module CronContract {

  import opened Calendar
  import opened CronJob
  import opened CronRules
  import opened CronSearch
  import opened CronTheorems
  import opened Instants
  import opened Results

  /**
   An instant from 1970 on satisfies all seven rules if and only if each part is
   in its range and a multiple of its step, it is a real minute, and its date,
   counted in days since Thursday 1970-01-01, falls on an allowed weekday.
   */
  lemma MatchesMeans(r: FiveRules, x: Instant)
    requires InCalendar(x) && x[YEAR] >= 1970
    ensures Matches(r, x) <==>
            && (forall p :: 0 <= p < 5 ==>
                 r.fields[p].lo <= x[p] <= r.fields[p].hi && x[p] % r.fields[p].each == 0)
            && RealInstant(x)
            && (DayNumber(x[YEAR], x[MONTH], x[MDAY]) + 4) % 7 in r.days
  {
    WeekDayIsDayCount(x[MDAY], x[MONTH], x[YEAR]);
    var everyPart := forall p :: 0 <= p < 5 ==> r.fields[p].Allows(x[p]);
    if Matches(r, x) {
      assert RuleValid(r, 5, x) && RuleValid(r, 6, x);
      forall p | 0 <= p < 5
        ensures r.fields[p].Allows(x[p])
      {
        assert RuleValid(r, 4 - p, x);
      }
    }
    if everyPart {
      assert forall k :: 0 <= k < 5 ==> RuleValid(r, k, x);
    }
  }

  /**
   With robust rules the result is later than `now` if and only if a match lies
   ahead before 2099, and then it is the next one. Any other returned instant is
   the first match of all, with none ahead; Unsatisfiable means none ahead
   before 2099.
   */
  lemma CalcNextContract(t: Timespec, now: Instant, o: Result<Instant, CronError>)
    requires InCalendar(now) && MakeRules(t, now[YEAR]).Success? && Robust(MakeRules(t, now[YEAR]).value, now[YEAR])
    requires IsOutcome(t, now, o)
    ensures var r := MakeRules(t, now[YEAR]).value;
            var ahead := exists m: Instant :: IsMatchAfter(r, now, m) && m[YEAR] < MAX_YEAR;
            && (o.Success? && Less(now, o.value) <==> ahead)
            && (o.Success? && Less(now, o.value) ==> IsNextMatch(r, now, o.value))
            && (o.Success? && !Less(now, o.value) ==> NoMatchAfter(r, now) && IsLeastMatch(r, o.value))
            && (o.Failure? ==> o.error == Unsatisfiable && !ahead)
  {
    var r := MakeRules(t, now[YEAR]).value;
    var n: nat :| HaltsWithin(r, now, n) && o == Outcome(After(r, now, n));
    ReturnsLaterIffMatchAhead(r, now, n);
    if o.Success? {
      FoundIsSound(r, now, n);
      FoundIsMinimal(r, now, n);
    }
  }

  /** Read as UTC, a result later than `now` is a strictly later timestamp, whatever the second of `now`. */
  lemma LaterTimestamp(t: Timespec, now: Instant, second: int, x: Instant)
    requires RealInstant(now) && now[YEAR] >= 1970 && 0 <= second < 60
    requires MakeRules(t, now[YEAR]).Success? && IsOutcome(t, now, Success(x)) && InCalendar(now)
    ensures RealInstant(x) && (Less(now, x) <==> Timestamp(now, second) < Timestamp(x, 0))
  {
    var r := MakeRules(t, now[YEAR]).value;
    var n: nat :| HaltsWithin(r, now, n) && Success(x) == Outcome(After(r, now, n));
    RunInv(r, now, n);
    FoundInRange(r, now, n);
    MakeTimeEmbedsOrder(now, x, second, 0);
  }
}
