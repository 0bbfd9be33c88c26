/** The timeval arithmetic of times.h and utils.c. */
module Times {

  import opened Common

  datatype Tv = Tv(sec: int, usec: int)

  const MILLION: int := 1000000

  predicate Normal(t: Tv) {
    0 <= t.usec < MILLION
  }

  /** The instant, in microseconds. */
  function Us(t: Tv): int {
    t.sec * MILLION + t.usec
  }

  function IsZero(t: Tv): bool {
    t.sec == 0 && t.usec == 0
  }

  /** spd_tvcmp: -1, 0 or 1, seconds first. */
  function Cmp(a: Tv, b: Tv): int {
    if a.sec < b.sec then -1
    else if a.sec > b.sec then 1
    else if a.usec < b.usec then -1
    else if a.usec > b.usec then 1
    else 0
  }

  /** spd_tvdiff_ms, whose offset of a second keeps the dividend positive. */
  function DiffMs(end: Tv, start: Tv): int {
    (end.sec - start.sec) * 1000 + (CDiv(MILLION + end.usec - start.usec, 1000) - 1000)
  }

  /** spd_tvdiff_sec. */
  function DiffSec(end: Tv, start: Tv): int {
    var result := end.sec - start.sec;
    if result > 0 && end.usec < start.usec then result - 1
    else if result < 0 && end.usec > start.usec then result + 1
    else result
  }

  function Fix(a: Tv): Tv {
    if a.usec >= MILLION then Tv(a.sec + CDiv(a.usec, MILLION), CRem(a.usec, MILLION))
    else if a.usec < 0 then Tv(a.sec, 0)
    else a
  }

  function Add(x: Tv, y: Tv): Tv {
    var a, b := Fix(x), Fix(y);
    var usec := a.usec + b.usec;
    if usec >= MILLION then Tv(a.sec + b.sec + 1, usec - MILLION) else Tv(a.sec + b.sec, usec)
  }

  function Sub(x: Tv, y: Tv): Tv {
    var a, b := Fix(x), Fix(y);
    var usec := a.usec - b.usec;
    if usec < 0 then Tv(a.sec - b.sec - 1, usec + MILLION) else Tv(a.sec - b.sec, usec)
  }

  /** spd_samp2tv: both arguments arrive as unsigned int. */
  function Samp2Tv(nsamp: int, rate: int): Tv
    requires ToUint32(rate) > 0
  {
    var n, r := ToUint32(nsamp), ToUint32(rate);
    Tv(n / r, (n % r) * (MILLION / r))
  }

  // ---------- exactness ----------

  /** Normalising always yields a normal timeval, and keeps the instant unless the
      microseconds are negative, which are cut to zero. */
  lemma FixExact(a: Tv)
    ensures Normal(Fix(a))
    ensures Us(Fix(a)) == Us(a) <==> a.usec >= 0
  {
  }

  lemma AddExact(a: Tv, b: Tv)
    ensures Normal(Add(a, b))
    ensures a.usec >= 0 && b.usec >= 0 ==> Us(Add(a, b)) == Us(a) + Us(b)
  {
    FixExact(a);
    FixExact(b);
  }

  lemma SubExact(a: Tv, b: Tv)
    ensures Normal(Sub(a, b))
    ensures a.usec >= 0 && b.usec >= 0 ==> Us(Sub(a, b)) == Us(a) - Us(b)
  {
    FixExact(a);
    FixExact(b);
  }

  /** On normal timevals the comparison is that of the instants. */
  lemma CmpExact(a: Tv, b: Tv)
    requires Normal(a) && Normal(b)
    ensures Cmp(a, b) == -1 <==> Us(a) < Us(b)
    ensures Cmp(a, b) == 1 <==> Us(a) > Us(b)
    ensures Cmp(a, b) == 0 <==> a == b
    ensures Us(a) == Us(b) <==> a == b
  {
  }

  /** The difference in milliseconds is the microsecond difference rounded down, for
      negative differences too. */
  lemma DiffMsFloors(end: Tv, start: Tv)
    requires Normal(end) && Normal(start)
    ensures 1000 * DiffMs(end, start) <= Us(end) - Us(start) < 1000 * DiffMs(end, start) + 1000
  {
  }

  /** The difference in seconds, in contrast, is rounded toward zero. */
  lemma DiffSecTruncates(end: Tv, start: Tv)
    requires Normal(end) && Normal(start)
    ensures DiffSec(end, start) == CDiv(Us(end) - Us(start), MILLION)
  {
    var d, s := Us(end) - Us(start), end.sec - start.sec;
    assert d == s * MILLION + (end.usec - start.usec);
  }

  /** n samples at rate r last n/r seconds; the conversion says so exactly when the last,
      incomplete second holds no sample or the rate divides a million. */
  lemma Samp2TvExact(n: nat, r: nat)
    requires 0 < r < TWO_TO_THE_32 && n < TWO_TO_THE_32
    ensures r * Us(Samp2Tv(n, r)) == n * MILLION <==> n % r == 0 || MILLION % r == 0
  {
    assert ToUint32(n) == n && ToUint32(r) == r;
    SampleError(n, r, n / r, n % r, MILLION / r, MILLION % r);
    ProductZero(n % r, MILLION % r);
  }

  /** What the two integer divisions lose. */
  lemma SampleError(n: int, r: int, q: int, m: int, k: int, rest: int)
    requires n == q * r + m && MILLION == r * k + rest
    ensures r * (q * MILLION + m * k) == n * MILLION - m * rest
  {
    calc {
      r * (q * MILLION + m * k);
      r * (q * MILLION) + r * (m * k);
      { assert r * (m * k) == m * (r * k); }
      q * r * MILLION + m * (MILLION - rest);
      { assert m * (MILLION - rest) == m * MILLION - m * rest; }
      (q * r + m) * MILLION - m * rest;
    }
  }

  lemma ProductZero(a: nat, b: nat)
    ensures a * b == 0 <==> a == 0 || b == 0
  {
  }

  /** A delay in milliseconds: exact and normal. A negative one arrives as a large
      unsigned number. */
  lemma DelayExact(delay: int)
    ensures Normal(Samp2Tv(delay, 1000)) && Us(Samp2Tv(delay, 1000)) == 1000 * ToUint32(delay)
  {
    assert ToUint32(1000) == 1000;
  }
}
