/** The platform timer (axhal/src/riscv64/time.rs): the `time` counter runs
    at 10 MHz, so one tick is 100 ns. Reading the counter is hardware access;
    the tick value read is a parameter here. */
module Time {
  import opened Fallible

  const TIMER_FREQUENCY: u64 := 10_000_000
  const NANOS_PER_SEC: u64 := 1_000_000_000
  const NANOS_PER_TICK: u64 := NANOS_PER_SEC / TIMER_FREQUENCY

  /** One tick is exactly 100 ns; the division loses nothing. */
  lemma NanosPerTickExact()
    ensures NANOS_PER_TICK == 100
    ensures NANOS_PER_TICK * TIMER_FREQUENCY == NANOS_PER_SEC
  {
  }

  /** `ticks_to_nanos`: `ticks * NANOS_PER_TICK`, with Rust's overflow check.
      The product fits in a `u64` for fewer than 2^64 / 100 ticks (about 584
      years at 10 MHz). */
  function TicksToNanos(ticks: u64): (r: Result<u64>)
    ensures r.Ok? <==> ticks * 100 < U64_LIMIT
    ensures r.Ok? ==> r.value == ticks * 100
    ensures r.Fatal? ==> r.panic == MulOverflow
  {
    var product := ticks * NANOS_PER_TICK;
    if product < U64_LIMIT then Ok(product) else Fatal(MulOverflow)
  }

  /** `current_time_nanos`, given the tick count read from `time`: the
      elapsed time in nanoseconds, 100 per tick, or the overflow panic once
      the product leaves the `u64` range. */
  function CurrentTimeNanos(ticks: u64): (r: Result<u64>)
    ensures r.Ok? <==> ticks * 100 < U64_LIMIT
    ensures r.Ok? ==> r.value == ticks * 100
    ensures r.Fatal? ==> r.panic == MulOverflow
  {
    TicksToNanos(ticks)
  }

  lemma TicksToNanosZero()
    ensures TicksToNanos(0) == Ok(0)
  {
  }

  /** Strictly monotone wherever the larger tick count does not overflow. */
  lemma TicksToNanosMonotone(t1: u64, t2: u64)
    requires t1 < t2 && TicksToNanos(t2).Ok?
    ensures TicksToNanos(t1).Ok?
    ensures TicksToNanos(t1).value < TicksToNanos(t2).value
  {
  }

  /** A later reading of the counter never reports an earlier time: whenever
      the later reading converts, so does the earlier, to a value no larger. */
  lemma CurrentTimeNanosMonotone(t1: u64, t2: u64)
    requires t1 <= t2 && CurrentTimeNanos(t2).Ok?
    ensures CurrentTimeNanos(t1).Ok?
    ensures CurrentTimeNanos(t1).value <= CurrentTimeNanos(t2).value
  {
  }
}
