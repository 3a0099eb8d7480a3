/** Age and freshness of a stored response over time (sections 4.2 of RFC 9111 and
    4 of RFC 5861). */
module Freshness {
  import opened CacheControl
  import opened CachePolicy

  function ResidentSeconds(r: CachedResponse, monotonic: nat): nat {
    (if monotonic >= r.storedAt then monotonic - r.storedAt else 0) / NANOSECONDS_PER_SECOND
  }

  function CurrentAge(r: CachedResponse, monotonic: nat): nat {
    if monotonic == 0 || r.storedAt == 0 then r.initialAge
    else Add64(r.initialAge, ResidentSeconds(r, monotonic))
  }

  predicate Readable(now: Now) { now.wall.Some? && now.monotonic != 0 }

  /** May `r` be served without validation to a request with this Cache-Control? */
  predicate Fresh(r: CachedResponse, control: Control, now: Now) {
    var age := CurrentAge(r, now.monotonic);
    && Readable(now) && !r.requiresRevalidation && !control.noCache
    && !(control.maxAge.Some? && age > control.maxAge.value)
    && age < r.lifetime
  }

  predicate ServableOnError(r: CachedResponse, now: Now) {
    var age := CurrentAge(r, now.monotonic);
    && r.staleIfError.Some? && !r.mustRevalidate && !r.requiresRevalidation && now.wall.Some?
    && age >= r.lifetime && age - r.lifetime <= r.staleIfError.value
  }

  lemma ResidentMonotone(r: CachedResponse, t1: nat, t2: nat)
    requires t1 <= t2
    ensures ResidentSeconds(r, t1) <= ResidentSeconds(r, t2)
  {
    var a := if t1 >= r.storedAt then t1 - r.storedAt else 0;
    var b := if t2 >= r.storedAt then t2 - r.storedAt else 0;
    var q := a / NANOSECONDS_PER_SECOND;
    assert q * NANOSECONDS_PER_SECOND <= a <= b;
    assert q <= b / NANOSECONDS_PER_SECOND;
  }

  /** On clocks that do not run backwards an entry never gets younger, even where
      the sum saturates. */
  lemma AgeMonotone(r: CachedResponse, t1: nat, t2: nat)
    requires 0 < t1 <= t2
    ensures CurrentAge(r, t1) <= CurrentAge(r, t2)
  {
    hide ResidentSeconds;
    ResidentMonotone(r, t1, t2);
  }

  /** The age starts at the corrected initial age and grows by one each second, up to the
      largest representable number. */
  lemma AgeKeepsTime(r: CachedResponse, t: nat, seconds: nat)
    requires r.storedAt != 0 && t >= r.storedAt && r.initialAge <= UINT64_MAX
    ensures CurrentAge(r, r.storedAt) == r.initialAge
    ensures CurrentAge(r, t + seconds * NANOSECONDS_PER_SECOND) == Capped(CurrentAge(r, t) + seconds, UINT64_MAX)
  {
    var resident := t - r.storedAt;
    assert (resident + seconds * NANOSECONDS_PER_SECOND) / NANOSECONDS_PER_SECOND ==
           resident / NANOSECONDS_PER_SECOND + seconds;
  }

  /** Freshness is one-way: an entry once not fresh for a request is never fresh for
      that request again. */
  lemma StaleForever(r: CachedResponse, control: Control, now: Now, later: Now)
    requires Readable(now) && Readable(later) && now.monotonic <= later.monotonic
    requires !Fresh(r, control, now)
    ensures !Fresh(r, control, later)
  {
    hide CurrentAge;
    AgeMonotone(r, now.monotonic, later.monotonic);
  }

  /** Stale-if-error service begins no earlier than freshness ends, fills one
      unbroken interval and, once over, never resumes. */
  lemma StaleIfErrorWindow(r: CachedResponse, control: Control, t1: Now, t2: Now, t3: Now)
    requires Readable(t1) && Readable(t2) && Readable(t3)
    requires t1.monotonic <= t2.monotonic <= t3.monotonic
    ensures ServableOnError(r, t1) ==> !Fresh(r, control, t1) && !Fresh(r, control, t2)
    ensures ServableOnError(r, t1) && ServableOnError(r, t3) ==> ServableOnError(r, t2)
    ensures ServableOnError(r, t1) && !ServableOnError(r, t2) ==> !ServableOnError(r, t3)
  {
    hide CurrentAge;
    AgeMonotone(r, t1.monotonic, t2.monotonic);
    AgeMonotone(r, t2.monotonic, t3.monotonic);
  }

  /** A clock that fails to read hides the resident time, so the hypothesis on
      readable clocks is needed: an expired entry looks young again. */
  lemma UnreadableClockForgetsAge(r: CachedResponse, t: nat)
    requires r.storedAt != 0 && t != 0 && r.initialAge <= UINT64_MAX
    ensures CurrentAge(r, 0) <= CurrentAge(r, t)
    ensures CurrentAge(r, 0) < CurrentAge(r, t) <==> r.initialAge < UINT64_MAX && ResidentSeconds(r, t) > 0
  {
    hide ResidentSeconds;
  }
}
