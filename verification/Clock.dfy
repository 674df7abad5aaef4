/** The monotonic clock the caches measure age by. */
module Clock {

  /** `Instant::duration_since` and `Instant::elapsed`, which saturate at zero. */
  function Since(earlier: nat, now: nat): nat {
    if now >= earlier then now - earlier else 0
  }
}
