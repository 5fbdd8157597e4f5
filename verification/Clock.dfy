/** Readings of the steady clock, in nanoseconds. */
module Clock {
  import opened Arithmetic

  const MILLISECOND := 1_000_000
  const SECOND := 1_000_000_000

  /** `duration_cast` to a coarser unit truncates toward zero. */
  function Elapsed(now: int, since: int, tick: int): int
    requires tick > 0
  {
    if now >= since then (now - since) / tick else -((since - now) / tick)
  }

  /** A whole number of ticks is exceeded once the next tick is full. */
  lemma ElapsedExceeds(now: int, since: int, tick: int, limit: nat)
    requires tick > 0
    ensures Elapsed(now, since, tick) > limit <==> now - since >= tick * (limit + 1)
  {
    if now >= since {
      var d := now - since;
      var q := d / tick;
      assert d == tick * q + d % tick;
      assert tick * (q - limit - 1) == tick * q - tick * (limit + 1);
      MultipleBounds(tick, q - limit - 1);
    } else {
      MultipleBounds(tick, limit + 1);
    }
  }

  /** What truncating toward zero leaves: less than one tick, on either side. */
  lemma ElapsedTruncates(now: int, since: int, tick: int)
    requires tick > 0
    ensures now >= since ==> tick * Elapsed(now, since, tick) <= now - since < tick * (Elapsed(now, since, tick) + 1)
    ensures Elapsed(since, now, tick) == -Elapsed(now, since, tick)
  {
    if now >= since {
      var d := now - since;
      assert d == tick * (d / tick) + d % tick;
      assert tick * (d / tick + 1) == tick * (d / tick) + tick;
    }
  }
}
