/** The stopwatch's elapsed-time decomposition (`getTimeBetween` and `TimeElapsed`):
    a span of milliseconds split into days, hours, minutes, seconds and milliseconds.
    Instants are epoch milliseconds. Kotlin's `Long` `/` and `%` round toward zero,
    so they are written out here as Quot and Rem rather than Dafny's Euclidean operators. */
module Duration {

  const MillisPerDay: int := 86400000
  const MillisPerHour: int := 3600000
  const MillisPerMinute: int := 60000
  const MillisPerSecond: int := 1000

  datatype TimeElapsed = TimeElapsed(days: int, hours: int, minutes: int, seconds: int, milliseconds: int)

  /** Kotlin's `a / b` for `b > 0`: the quotient rounded toward zero. */
  function Quot(a: int, b: int): (q: int)
    requires b > 0
    ensures a >= 0 ==> 0 <= a - q * b < b
    ensures a < 0 ==> -b < a - q * b <= 0
  {
    if a >= 0 then a / b else -((-a) / b)
  }

  /** Kotlin's `a % b` for `b > 0`: the remainder takes the sign of `a`. */
  function Rem(a: int, b: int): (r: int)
    requires b > 0
    ensures Quot(a, b) * b + r == a
    ensures a >= 0 ==> 0 <= r < b
    ensures a < 0 ==> -b < r <= 0
  {
    if a >= 0 then a % b else -((-a) % b)
  }

  /** The span, in milliseconds, that a decomposition stands for. */
  function TotalMillis(te: TimeElapsed): (total: int) {
    te.days * MillisPerDay + te.hours * MillisPerHour + te.minutes * MillisPerMinute
      + te.seconds * MillisPerSecond + te.milliseconds
  }

  /** A decomposition of a non-negative span with every component in its range. */
  predicate Normalized(te: TimeElapsed) {
    && te.days >= 0
    && 0 <= te.hours < 24
    && 0 <= te.minutes < 60
    && 0 <= te.seconds < 60
    && 0 <= te.milliseconds < 1000
  }

  function Negate(te: TimeElapsed): (negated: TimeElapsed) {
    TimeElapsed(-te.days, -te.hours, -te.minutes, -te.seconds, -te.milliseconds)
  }

  /** `getTimeBetween(startTime, endTime)`. The components always add back up to the span;
      for a non-negative span they are all in range, and for a negative span they are the
      mirror image of an in-range decomposition (every component zero or negative). */
  function GetTimeBetween(startTime: int, endTime: int): (te: TimeElapsed)
    ensures TotalMillis(te) == endTime - startTime
    ensures startTime <= endTime ==> Normalized(te)
    ensures endTime <= startTime ==> Normalized(Negate(te))
  {
    var total := endTime - startTime;
    var millisOfCurrentDay := Rem(total, MillisPerDay);
    RemOfRem(millisOfCurrentDay, MillisPerHour, MillisPerMinute);
    RemOfRem(millisOfCurrentDay, MillisPerMinute, MillisPerSecond);
    TimeElapsed(
      Quot(total, MillisPerDay),
      Quot(millisOfCurrentDay, MillisPerHour),
      Quot(Rem(millisOfCurrentDay, MillisPerHour), MillisPerMinute),
      Quot(Rem(millisOfCurrentDay, MillisPerMinute), MillisPerSecond),
      Rem(millisOfCurrentDay, MillisPerSecond))
  }

  /** Euclidean remainder is determined by any quotient-remainder pair in range. */
  lemma ModUnique(a: int, b: int, q: int, r: int)
    requires b > 0 && 0 <= r < b && a == q * b + r
    ensures a % b == r && a / b == q
  {
    var q0, r0 := a / b, a % b;
    assert (q - q0) * b == r0 - r;
    if q - q0 > 0 {
      MulAtLeast(q - q0, b);
    } else if q - q0 < 0 {
      MulAtLeast(q0 - q, b);
    }
  }

  lemma MulAtLeast(d: int, b: int)
    requires d >= 1 && b > 0
    ensures d * b >= b
  {
  }

  /** Truncating quotient and remainder are determined by any pair in range. */
  lemma QuotRemUnique(a: int, b: int, q: int, r: int)
    requires b > 0 && 0 <= r < b && q >= 0 && a == q * b + r
    ensures Quot(a, b) == q && Rem(a, b) == r
  {
    ModUnique(a, b, q, r);
  }

  /** Taking the remainder by a multiple of `small` first does not change the remainder by `small`. */
  lemma RemOfRem(a: int, big: int, small: int)
    requires small > 0 && big > 0 && big % small == 0
    ensures Rem(Rem(a, big), small) == Rem(a, small)
  {
    if a >= 0 {
      ModOfMod(a, big, small);
    } else {
      ModOfMod(-a, big, small);
    }
  }

  lemma ModOfMod(n: nat, big: int, small: int)
    requires small > 0 && big > 0 && big % small == 0
    ensures n % big % small == n % small
  {
    var k := big / small;
    assert big == k * small;
    var q1, r1 := n / big, n % big;
    var q2, r2 := r1 / small, r1 % small;
    assert n == (q1 * k + q2) * small + r2 by {
      assert n == q1 * big + r1;
      assert r1 == q2 * small + r2;
      assert q1 * big == q1 * k * small;
    }
    ModUnique(n, small, q1 * k + q2, r2);
  }

  /** An in-range decomposition is the only one: getTimeBetween returns exactly it. */
  lemma {:induction false} NormalizedUnique(startTime: int, te: TimeElapsed)
    requires Normalized(te)
    ensures GetTimeBetween(startTime, startTime + TotalMillis(te)) == te
  {
    var inDay := te.hours * MillisPerHour + te.minutes * MillisPerMinute
      + te.seconds * MillisPerSecond + te.milliseconds;
    var inHour := te.minutes * MillisPerMinute + te.seconds * MillisPerSecond + te.milliseconds;
    var inMinute := te.seconds * MillisPerSecond + te.milliseconds;
    QuotRemUnique(TotalMillis(te), MillisPerDay, te.days, inDay);
    QuotRemUnique(inDay, MillisPerHour, te.hours, inHour);
    QuotRemUnique(inHour, MillisPerMinute, te.minutes, inMinute);
    RemOfRem(inDay, MillisPerHour, MillisPerMinute);
    QuotRemUnique(inDay, MillisPerMinute, te.hours * 60 + te.minutes, inMinute);
    QuotRemUnique(inMinute, MillisPerSecond, te.seconds, te.milliseconds);
    RemOfRem(inDay, MillisPerMinute, MillisPerSecond);
    QuotRemUnique(inDay, MillisPerSecond, (te.hours * 60 + te.minutes) * 60 + te.seconds, te.milliseconds);
  }

  /** For a non-negative span, getTimeBetween is the one in-range decomposition of it. */
  lemma GetTimeBetweenCharacterization(startTime: int, endTime: int, te: TimeElapsed)
    requires startTime <= endTime
    ensures GetTimeBetween(startTime, endTime) == te
        <==> Normalized(te) && TotalMillis(te) == endTime - startTime
  {
    if Normalized(te) && TotalMillis(te) == endTime - startTime {
      NormalizedUnique(startTime, te);
    }
  }

  /** Swapping the two instants negates every component (truncation is symmetric about zero). */
  lemma GetTimeBetweenSwap(startTime: int, endTime: int)
    ensures GetTimeBetween(endTime, startTime) == Negate(GetTimeBetween(startTime, endTime))
  {
    if startTime <= endTime {
      var te := GetTimeBetween(startTime, endTime);
      GetTimeBetweenNegative(endTime, startTime, te);
    } else {
      var te := GetTimeBetween(endTime, startTime);
      GetTimeBetweenNegative(startTime, endTime, te);
    }
  }

  /** A negative span decomposes into the negation of the decomposition of its magnitude. */
  lemma GetTimeBetweenNegative(startTime: int, endTime: int, te: TimeElapsed)
    requires endTime <= startTime
    requires Normalized(te) && TotalMillis(te) == startTime - endTime
    ensures GetTimeBetween(startTime, endTime) == Negate(te)
  {
    var m := GetTimeBetween(startTime, endTime);
    assert Normalized(Negate(m));
    assert TotalMillis(Negate(m)) == startTime - endTime;
    NormalizedUnique(endTime, te);
    NormalizedUnique(endTime, Negate(m));
    assert Negate(Negate(m)) == m;
  }

  /** Only the span matters, not where it starts. */
  lemma GetTimeBetweenShift(startTime: int, endTime: int, shift: int)
    ensures GetTimeBetween(startTime + shift, endTime + shift) == GetTimeBetween(startTime, endTime)
  {
  }
}
