/** The question timer. The server keeps the time left in `gameState` and lowers
    it by a tenth of a second on every pass of its loop while a question runs;
    here time is a whole number of tenths. */
module Clock {
  import opened Types

  const DEFAULT_DURATION := 30
  const TICKS_PER_SECOND := 10

  /** `parseInt(customDuration) || DEFAULT_DURATION`, in tenths. `None` stands for an
      absent duration or one `parseInt` cannot read; 0 is falsy and also falls back. */
  function StartingTime(requested: Option<int>): (t: int)
    ensures t != 0
    ensures requested.None? || requested == Some(0) ==> t == DEFAULT_DURATION * TICKS_PER_SECOND
    ensures requested.Some? && requested.value != 0 ==> t == requested.value * TICKS_PER_SECOND
    ensures requested.Some? && requested.value > 0 ==> t > 0 && t % TICKS_PER_SECOND == 0
    ensures requested.Some? && requested.value < 0 ==> t < 0
  {
    var seconds := if requested.None? || requested.value == 0 then DEFAULT_DURATION else requested.value;
    seconds * TICKS_PER_SECOND
  }

  /** One tick: `Math.max(0, timeRemaining - 0.1)`. */
  function TickTime(t: int): (r: int)
    ensures r >= 0
    ensures r == 0 <==> t <= 1
    ensures r > 0 ==> r == t - 1
  {
    if t - 1 < 0 then 0 else t - 1
  }

  /** The time left after `n` ticks of a question that started with `t`. */
  function RemainingAfter(t: int, n: nat): int
  {
    if n == 0 then t else TickTime(RemainingAfter(t, n - 1))
  }

  /** The tick on which a question that started with `t` is revealed. */
  function RevealTick(t: int): nat
  {
    if t < 1 then 1 else t
  }

  lemma {:induction false} RemainingAfterTicks(t: int, n: nat)
    requires n >= 1
    ensures RemainingAfter(t, n) == if t - n > 0 then t - n else 0
  {
    if n > 1 {
      RemainingAfterTicks(t, n - 1);
    }
  }

  /** A question with `t` tenths left is revealed on tick RevealTick(t) and on no
      earlier tick: a 30-second question on exactly its 300th tick. */
  lemma RevealComesOnTime(t: int)
    ensures forall n: nat :: 1 <= n < RevealTick(t) ==> RemainingAfter(t, n) > 0
    ensures RemainingAfter(t, RevealTick(t)) == 0
  {
    forall n: nat | 1 <= n <= RevealTick(t)
      ensures RemainingAfter(t, n) == if t - n > 0 then t - n else 0
    {
      RemainingAfterTicks(t, n);
    }
  }

  /** A question started with a positive duration of `d` seconds runs for exactly
      `d` seconds: it is revealed on tick `d * TICKS_PER_SECOND` and on no earlier one. */
  lemma ChosenDurationRevealsOnTime(d: int)
    requires d > 0
    ensures RevealTick(StartingTime(Some(d))) == d * TICKS_PER_SECOND
    ensures forall n: nat :: 1 <= n < d * TICKS_PER_SECOND ==> RemainingAfter(StartingTime(Some(d)), n) > 0
    ensures RemainingAfter(StartingTime(Some(d)), d * TICKS_PER_SECOND) == 0
  {
    RevealComesOnTime(StartingTime(Some(d)));
  }
}
