/**
 * Poll-interval check of `loop` (src/main.cpp:150-153): the firmware issues
 * an inventory request when `millis() - lastPollTime > 10`, computed on the
 * ESP32's 32-bit `unsigned long`, so the subtraction wraps modulo 2^32.
 */
module PollClock {
  /** Number of values of a 32-bit `unsigned long`. */
  const Modulus: int := 0x1_0000_0000

  /** An ESP32 `unsigned long`, as `millis()` returns it. */
  newtype u32 = x: int | 0 <= x < 0x1_0000_0000

  /** Milliseconds that must have passed, strictly, before the next poll. */
  const PollInterval: u32 := 10

  /** Unsigned subtraction `a - b`, wrapping modulo 2^32. */
  function Sub(a: u32, b: u32): (r: u32)
    ensures r as int == (a as int - b as int) % Modulus
    ensures a >= b ==> r == a - b
  {
    if a >= b then a - b else (a as int - b as int + Modulus) as u32
  }

  /** The poll guard of `loop`. */
  predicate PollDue(lastPollTime: u32, now: u32) {
    Sub(now, lastPollTime) > PollInterval
  }

  /** The counter `d` milliseconds after it read `t`. */
  function Advance(t: u32, d: nat): u32 {
    ((t as int + d) % Modulus) as u32
  }

  /** The counter at absolute time `t` milliseconds after boot. */
  function Counter(t: nat): u32 {
    (t % Modulus) as u32
  }

  /** Unsigned subtraction recovers any elapsed time shorter than one wrap, across the wrap too. */
  lemma ElapsedAcrossWrap(last: u32, d: nat)
    requires d < Modulus
    ensures Sub(Advance(last, d), last) as int == d
  {
    var now := Advance(last, d);
    if last as int + d < Modulus {
      assert now as int == last as int + d;
    } else {
      assert now as int == last as int + d - Modulus;
    }
  }

  /** The poll fires exactly when more than `PollInterval` milliseconds have passed since the last one. */
  lemma PollCadence(last: u32, d: nat)
    requires d < Modulus
    ensures PollDue(last, Advance(last, d)) <==> d > PollInterval as int
  {
    ElapsedAcrossWrap(last, d);
  }

  /** Stated on absolute time: the counters' wrap never makes the guard fire early or late. */
  lemma PollCadenceAbsolute(t0: nat, t: nat)
    requires t0 <= t < t0 + Modulus
    ensures PollDue(Counter(t0), Counter(t)) <==> t - t0 > PollInterval as int
  {
    var d := t - t0;
    var q := t0 / Modulus;
    assert t0 == q * Modulus + Counter(t0) as int;
    assert t == q * Modulus + (Counter(t0) as int + d);
    if Counter(t0) as int + d < Modulus {
      assert Counter(t) as int == Counter(t0) as int + d;
    } else {
      assert t == (q + 1) * Modulus + (Counter(t0) as int + d - Modulus);
      assert Counter(t) as int == Counter(t0) as int + d - Modulus;
    }
    assert Counter(t) == Advance(Counter(t0), d);
    PollCadence(Counter(t0), d);
  }

  /**
   * Beyond one wrap the guard sees only the elapsed time modulo 2^32: a pass
   * 2^32 + 4 ms after the last poll does not poll, although the interval is
   * long past.
   */
  lemma PollLateAfterFullWrap(t0: nat)
    ensures !PollDue(Counter(t0), Counter(t0 + Modulus + 4))
  {
    var q := t0 / Modulus;
    assert t0 == q * Modulus + Counter(t0) as int;
    assert t0 + Modulus + 4 == (q + 1) * Modulus + (Counter(t0) as int + 4);
    PollCadenceAbsolute(t0 + Modulus, t0 + Modulus + 4);
    assert t0 + Modulus == (q + 1) * Modulus + Counter(t0) as int;
    assert Counter(t0 + Modulus) == Counter(t0);
  }

  /** With the last poll at the counter's top value, 10 ticks later is too early and 11 is due. */
  lemma PollAtWrapBoundary()
    ensures !PollDue(0xFFFF_FFFF, 9)
    ensures PollDue(0xFFFF_FFFF, 10)
  {
  }
}
