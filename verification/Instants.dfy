/**
 Minute-resolution civil instants as cron.cc handles them: five integers, most
 significant first (year, month, day of month, hour, minute), ordered
 lexicographically.
 */
module Instants {

  type Instant = x: seq<int> | |x| == 5 witness [1970, 1, 1, 0, 0]

  const YEAR := 0
  const MONTH := 1
  const MDAY := 2
  const HOUR := 3
  const MINUTE := 4

  /** The first `n` fields of `a` come lexicographically before those of `b`. */
  ghost predicate Before(a: Instant, b: Instant, n: nat)
    requires n <= 5
  {
    n > 0 && (Before(a, b, n - 1) || (a[..n - 1] == b[..n - 1] && a[n - 1] < b[n - 1]))
  }

  ghost predicate Less(a: Instant, b: Instant) {
    Before(a, b, 5)
  }

  ghost predicate AtMost(a: Instant, b: Instant) {
    a == b || Less(a, b)
  }

  lemma {:induction false} BeforeTransitive(a: Instant, b: Instant, c: Instant, n: nat)
    requires n <= 5
    requires Before(a, b, n) && Before(b, c, n)
    ensures Before(a, c, n)
  {
    if n == 0 {
    } else {
      SamePrefix(a, b, c, n - 1);
      if Before(a, b, n - 1) && Before(b, c, n - 1) {
        BeforeTransitive(a, b, c, n - 1);
      }
    }
  }

  /** Equal prefixes may be exchanged on either side of the order. */
  lemma {:induction false} SamePrefix(a: Instant, b: Instant, c: Instant, n: nat)
    requires n <= 5
    ensures a[..n] == b[..n] ==> Before(a, c, n) == Before(b, c, n)
    ensures b[..n] == c[..n] ==> Before(a, b, n) == Before(a, c, n)
  {
    if n == 0 {
    } else {
      SamePrefix(a, b, c, n - 1);
      assert a[..n] == a[..n - 1] + [a[n - 1]];
      assert b[..n] == b[..n - 1] + [b[n - 1]];
      assert c[..n] == c[..n - 1] + [c[n - 1]];
    }
  }

  lemma {:induction false} Trichotomy(a: Instant, b: Instant, n: nat)
    requires n <= 5
    ensures Before(a, b, n) || a[..n] == b[..n] || Before(b, a, n)
    ensures !(Before(a, b, n) && Before(b, a, n))
    ensures a[..n] == b[..n] ==> !Before(a, b, n) && !Before(b, a, n)
  {
    if n == 0 {
    } else {
      Trichotomy(a, b, n - 1);
      assert a[..n] == a[..n - 1] + [a[n - 1]];
      assert b[..n] == b[..n - 1] + [b[n - 1]];
    }
  }

  /** A difference in a prefix decides the order of the whole. */
  lemma {:induction false} PrefixDecides(a: Instant, b: Instant, m: nat, n: nat)
    requires m <= n <= 5
    requires Before(a, b, m)
    ensures Before(a, b, n)
    decreases n
  {
    if m < n {
      PrefixDecides(a, b, m, n - 1);
    }
  }

  lemma Total(a: Instant, b: Instant)
    ensures Less(a, b) || a == b || Less(b, a)
    ensures !(Less(a, b) && Less(b, a)) && !Less(a, a)
  {
    Trichotomy(a, b, 5);
    Trichotomy(a, a, 5);
    assert a[..5] == a && b[..5] == b;
  }

  /** The order written out field by field. */
  lemma LessFields(a: Instant, b: Instant)
    ensures Less(a, b) <==>
            || a[0] < b[0]
            || (a[0] == b[0] && a[1] < b[1])
            || (a[0] == b[0] && a[1] == b[1] && a[2] < b[2])
            || (a[0] == b[0] && a[1] == b[1] && a[2] == b[2] && a[3] < b[3])
            || (a[0] == b[0] && a[1] == b[1] && a[2] == b[2] && a[3] == b[3] && a[4] < b[4])
  {
    assert Before(a, b, 1) <==> a[0] < b[0] by {
      assert a[..0] == b[..0];
      assert !Before(a, b, 0);
    }
    assert Before(a, b, 2) <==> Before(a, b, 1) || (a[..1] == b[..1] && a[1] < b[1]);
    assert Before(a, b, 3) <==> Before(a, b, 2) || (a[..2] == b[..2] && a[2] < b[2]);
    assert Before(a, b, 4) <==> Before(a, b, 3) || (a[..3] == b[..3] && a[3] < b[3]);
    assert a[..1] == b[..1] <==> a[0] == b[0] by { assert a[..1] == [a[0]] && b[..1] == [b[0]]; }
    assert a[..2] == b[..2] <==> a[0] == b[0] && a[1] == b[1]
      by { assert a[..2] == [a[0], a[1]] && b[..2] == [b[0], b[1]]; }
    assert a[..3] == b[..3] <==> a[0] == b[0] && a[1] == b[1] && a[2] == b[2]
      by { assert a[..3] == [a[0], a[1], a[2]] && b[..3] == [b[0], b[1], b[2]]; }
    assert a[..4] == b[..4] <==> a[0] == b[0] && a[1] == b[1] && a[2] == b[2] && a[3] == b[3]
      by { assert a[..4] == [a[0], a[1], a[2], a[3]] && b[..4] == [b[0], b[1], b[2], b[3]]; }
  }
}
