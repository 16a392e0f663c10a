/** Durations of integer parts: carried into days, seconds and microseconds, and compared part by part. */
module Durations {
  import opened Powers
  import opened PythonText

  datatype Duration = Duration(days: int, seconds: int, micros: int) {
    predicate Valid() {
      -999999999 <= days <= 999999999 && 0 <= seconds < 86400 && 0 <= micros < 1000000
    }

    function Total(): int {
      (days * 86400 + seconds) * 1000000 + micros
    }
  }

  /** The order of the triples, part by part */
  predicate Before(a: Duration, b: Duration) {
    || a.days < b.days
    || (a.days == b.days && a.seconds < b.seconds)
    || (a.days == b.days && a.seconds == b.seconds && a.micros < b.micros)
  }

  /** Comparing valid durations part by part is comparing the time they stand for. */
  lemma OrderIsTotalOrder(a: Duration, b: Duration)
    requires a.Valid() && b.Valid()
    ensures Before(a, b) <==> a.Total() < b.Total()
    ensures a == b <==> a.Total() == b.Total()
  {
  }

  /** The totals that some valid duration has */
  predicate InRange(total: int) {
    -999999999 * 86400000000 <= total < 1000000000 * 86400000000
  }

  lemma InRangeIff(total: int)
    ensures InRange(total) <==> exists d: Duration :: d.Valid() && d.Total() == total
  {
    if InRange(total) {
      var s := total / 1000000;
      var d := Duration(s / 86400, s % 86400, total % 1000000);
      assert d.Valid() && d.Total() == total;
    }
  }

  /** timedelta(...) of integers; None stands for the OverflowError */
  method New(days0: int, seconds0: int, microseconds0: int, milliseconds: int, minutes: int, hours: int, weeks: int)
    returns (r: Option<Duration>)
    ensures var total := (((weeks * 7 + days0) * 24 + hours) * 60 + minutes) * 60000000
                         + seconds0 * 1000000 + milliseconds * 1000 + microseconds0;
            (r.Some? <==> InRange(total)) && (r.Some? ==> r.value.Valid() && r.value.Total() == total)
  {
    var days, seconds, microseconds := days0, seconds0, microseconds0;
    days := days + weeks * 7;
    seconds := seconds + minutes * 60 + hours * 3600;
    microseconds := microseconds + milliseconds * 1000;

    var d, s := days, 0;
    days, seconds := seconds / 86400, seconds % 86400;
    d := d + days;
    s := s + seconds;

    seconds, microseconds := microseconds / 1000000, microseconds % 1000000;
    days, seconds := seconds / 86400, seconds % 86400;
    d := d + days;
    s := s + seconds;

    seconds, microseconds := microseconds / 1000000, microseconds % 1000000;
    s := s + seconds;
    days, s := s / 86400, s % 86400;
    d := d + days;

    if d < -999999999 || d > 999999999 {
      return None;
    }
    r := Some(Duration(d, s, microseconds));
  }

  method Add(a: Duration, b: Duration) returns (r: Option<Duration>)
    ensures r.Some? <==> InRange(a.Total() + b.Total())
    ensures r.Some? ==> r.value.Valid() && r.value.Total() == a.Total() + b.Total()
  {
    r := New(a.days + b.days, a.seconds + b.seconds, a.micros + b.micros, 0, 0, 0, 0);
  }

  /** Every valid duration but those longer than 999999999 days has a negation. */
  method Negate(a: Duration) returns (r: Option<Duration>)
    ensures a.Valid() ==> (r.None? <==> a.Total() > 999999999 * 86400000000)
    ensures r.Some? <==> InRange(-a.Total())
    ensures r.Some? ==> r.value.Valid() && r.value.Total() == -a.Total()
  {
    r := New(-a.days, -a.seconds, -a.micros, 0, 0, 0, 0);
  }

  // ----- division

  /** q is the integer nearest to a/b, the even one of two. */
  predicate NearestEven(a: int, b: int, q: int) {
    HalfAway(a - q * b, b, q)
  }

  predicate HalfAway(off: int, b: int, q: int) {
    Abs(2 * off) <= Abs(b) && (Abs(2 * off) == Abs(b) ==> q % 2 == 0)
  }

  lemma NearestEvenUnique(a: int, b: int, q: int, q': int)
    requires b != 0 && NearestEven(a, b, q) && NearestEven(a, b, q')
    ensures q == q'
  {
    TimesDifference(q, q', b);
    Apart(q' - q, b, q' * b - q * b);
  }

  lemma TimesDifference(q: int, q': int, b: int)
    ensures q' * b - q * b == (q' - q) * b
  {
  }

  lemma Apart(k: int, b: int, kb: int)
    requires b != 0 && kb == k * b
    ensures k == 1 ==> kb == b
    ensures k == -1 ==> kb == -b
    ensures k >= 2 || k <= -2 ==> Abs(kb) >= 2 * Abs(b)
  {
    var width := Abs(b);
    if k >= 2 {
      MulMonotone(width, 2, k);
    } else if k <= -2 {
      MulMonotone(width, k, -2);
    }
  }

  /** _divide_and_round, with the quotient and remainder of a floor division */
  method DivideAndRound(a: int, b: int) returns (q: int)
    requires b != 0
    ensures NearestEven(a, b, q)
  {
    var r;
    q, r := FloorDivmod(a, b);
    var twice := r * 2;
    var greaterThanHalf := if b > 0 then twice > b else twice < b;
    LeftOver(a, q, b, r);
    if greaterThanHalf || (twice == b && q % 2 == 1) {
      q := q + 1;
    }
  }

  lemma LeftOver(a: int, q: int, b: int, r: int)
    requires a == q * b + r
    ensures a - q * b == r && a - (q + 1) * b == r - b
  {
  }

  /** divmod(a, b): the remainder has the sign of b. */
  method FloorDivmod(a: int, b: int) returns (q: int, r: int)
    requires b != 0
    ensures a == q * b + r && if b > 0 then 0 <= r < b else b < r <= 0
  {
    if b > 0 {
      DivIdentity(a, b);
      q, r := a / b, a % b;
    } else {
      DivIdentity(-a, -b);
      q, r := -a / -b, -(-a % -b);
    }
  }

  datatype Quotient = Quotient(value: Duration) | ZeroDivisionError | OverflowError

  /** d / n, to the nearest microsecond; of the valid durations only those too long to negate overflow. */
  method DivideByInt(d: Duration, n: int) returns (r: Quotient)
    ensures r == ZeroDivisionError <==> n == 0
    ensures r.Quotient? ==> r.value.Valid() && NearestEven(d.Total(), n, r.value.Total())
    ensures r == OverflowError ==> exists q :: NearestEven(d.Total(), n, q) && !InRange(q)
    ensures d.Valid() ==> (r == OverflowError <==> n == -1 && d.Total() > 999999999 * 86400000000)
  {
    if n == 0 {
      return ZeroDivisionError;
    }
    var q := DivideAndRound(d.Total(), n);
    if d.Valid() {
      QuotientInRange(d.Total(), n, q);
    }
    var quotient := New(0, 0, q, 0, 0, 0, 0);
    r := if quotient.Some? then Quotient(quotient.value) else OverflowError;
  }

  lemma QuotientInRange(a: int, b: int, q: int)
    requires InRange(a) && b != 0 && NearestEven(a, b, q)
    ensures InRange(q) <==> b != -1 || a <= 999999999 * 86400000000
  {
    if b == 1 || b == -1 {
      WholeQuotient(a, b, q);
    } else {
      HalvedAtLeast(a, b, q, q * b);
    }
  }

  lemma WholeQuotient(a: int, b: int, q: int)
    requires (b == 1 || b == -1) && NearestEven(a, b, q)
    ensures q == if b == 1 then a else -a
  {
  }

  /** A divisor of at least two, of either sign, halves what is divided; the half may be rounded up. */
  lemma HalvedAtLeast(a: int, b: int, q: int, qb: int)
    requires Abs(b) >= 2 && qb == q * b && HalfAway(a - qb, b, q)
    ensures 2 * Abs(q) <= Abs(a) + 1
  {
    var m, width := Abs(q), Abs(b);
    var size := SizeOfProduct(q, b, m, width, qb);
    if m > 0 {
      FactorsBelow(m, width, size);
    }
  }

  lemma SizeOfProduct(q: int, b: int, m: nat, width: nat, qb: int) returns (size: nat)
    requires m == Abs(q) && width == Abs(b) && qb == q * b
    ensures size == m * width == Abs(qb)
  {
    size := m * width;
  }

  lemma FactorsBelow(m: nat, width: nat, size: nat)
    requires size == m * width && width >= 2 && m > 0
    ensures size >= width + 2 * (m - 1)
  {
    MulMonotone(m - 1, 2, width);
  }
}
