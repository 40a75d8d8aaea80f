/** Retry with exponential backoff, jitter and a cap. */
module Retry {
  import opened Common

  /** How one call of the wrapped function ends. */
  datatype Attempt<T> = Returned(value: T) | Threw(error: string)

  datatype RetryError = LastError(error: string) | NeverTried

  /** `calls(i)` is the outcome of call number `i`, `delay(i)` the pause after it. The first call that
      returns, or throws an error that must not be retried, or is the last allowed decides the result;
      every earlier one was followed by its pause. */
  method Execute<T>(calls: nat -> Attempt<T>, retryOn: string -> bool, maxRetries: int, delay: nat -> int)
    returns (r: Result<T, RetryError>, made: nat, sleeps: seq<int>)
    ensures maxRetries < 0 ==> made == 0 && r == Failure(NeverTried)
    ensures maxRetries >= 0 ==>
              && 1 <= made <= maxRetries + 1
              && (forall n: nat | n < made - 1 :: calls(n).Threw? && retryOn(calls(n).error))
              && (calls(made - 1).Returned? || !retryOn(calls(made - 1).error) || made == maxRetries + 1)
              && (calls(made - 1).Returned? ==> r == Success(calls(made - 1).value))
              && (calls(made - 1).Threw? ==> r == Failure(LastError(calls(made - 1).error)))
              && |sleeps| == made - 1 && forall i | 0 <= i < |sleeps| :: sleeps[i] == delay(i)
  {
    sleeps := [];
    made := 0;
    while made <= maxRetries
      invariant made <= maxRetries + 1 || made == 0
      invariant maxRetries >= 0 ==> made <= maxRetries
      invariant forall n: nat | n < made :: calls(n).Threw? && retryOn(calls(n).error)
      invariant |sleeps| == made && forall i | 0 <= i < |sleeps| :: sleeps[i] == delay(i)
      decreases maxRetries - made
    {
      var attempt := made;
      made := made + 1;
      var outcome := calls(attempt);
      if outcome.Returned? {
        return Success(outcome.value), made, sleeps;
      }
      if !retryOn(outcome.error) {
        return Failure(LastError(outcome.error)), made, sleeps;
      }
      if attempt == maxRetries {
        return Failure(LastError(outcome.error)), made, sleeps;
      }
      sleeps := sleeps + [delay(attempt)];
    }
    r := Failure(NeverTried);
  }

  // ---- the delay ----

  function Pow2(n: nat): (p: nat)
    ensures p >= 1
  {
    if n == 0 then 1 else 2 * Pow2(n - 1)
  }

  /** Math.round: the nearest integer, halves upwards. */
  function Round(x: real): int {
    (x + 0.5).Floor
  }

  function Min(a: int, b: int): int {
    if a < b then a else b
  }

  /** `draw` is Math.random(), in [0, 1). */
  function CalculateDelay(attempt: nat, baseMs: real, maxMs: int, jitter: real, draw: real): int {
    Min(Round(baseMs * Pow2(attempt) as real * (1.0 + draw * jitter)), maxMs)
  }

  lemma RoundIsNearest(x: real)
    ensures -0.5 < Round(x) as real - x <= 0.5
  {
  }

  /** Before jitter the delay starts at the base and doubles with every attempt, up to the cap. */
  lemma DelayDoubles(attempt: nat, baseMs: nat, maxMs: int, jitter: real)
    ensures CalculateDelay(0, baseMs as real, maxMs, jitter, 0.0) == if baseMs < maxMs then baseMs else maxMs
    ensures var d, e := CalculateDelay(attempt, baseMs as real, maxMs, jitter, 0.0),
                        CalculateDelay(attempt + 1, baseMs as real, maxMs, jitter, 0.0);
            d <= maxMs && e <= maxMs && (e < maxMs ==> e == 2 * d) && (e == maxMs ==> 2 * d >= maxMs || d == maxMs)
  {
    WholeDelay(0, baseMs, maxMs, jitter);
    WholeDelay(attempt, baseMs, maxMs, jitter);
    WholeDelay(attempt + 1, baseMs, maxMs, jitter);
    Doubled(baseMs, Pow2(attempt));
    NotNegative(baseMs, Pow2(attempt));
  }

  lemma Doubled(a: nat, b: nat)
    ensures a * (2 * b) == 2 * (a * b)
  {
  }

  lemma NotNegative(a: nat, b: nat)
    ensures a * b >= 0
  {
  }

  lemma WholeDelay(attempt: nat, baseMs: nat, maxMs: int, jitter: real)
    ensures CalculateDelay(attempt, baseMs as real, maxMs, jitter, 0.0) == Min(baseMs * Pow2(attempt), maxMs)
  {
    ProductIsWhole(baseMs, Pow2(attempt));
    Unjittered(baseMs as real * Pow2(attempt) as real, jitter);
    assert Round((baseMs * Pow2(attempt)) as real) == baseMs * Pow2(attempt);
  }

  lemma Unjittered(x: real, jitter: real)
    ensures x * (1.0 + 0.0 * jitter) == x
  {
    assert 0.0 * jitter == 0.0;
  }

  lemma {:induction false} ProductIsWhole(a: nat, b: nat)
    ensures a as real * b as real == (a * b) as real
  {
    if a > 0 {
      ProductIsWhole(a - 1, b);
      ScaleSum(a - 1, b);
    }
  }

  lemma ScaleSum(a: nat, b: nat)
    ensures (a + 1) as real * b as real == a as real * b as real + b as real
    ensures (a + 1) * b == a * b + b
  {
  }

  /** Jitter lengthens the delay by the drawn share of the allowed part, to the nearest millisecond. */
  lemma JitterIsAdded(attempt: nat, baseMs: real, maxMs: int, jitter: real, draw: real)
    ensures var wanted := baseMs * Pow2(attempt) as real + draw * jitter * (baseMs * Pow2(attempt) as real);
            var d := CalculateDelay(attempt, baseMs, maxMs, jitter, draw);
            d <= maxMs && d as real - wanted <= 0.5 && (d < maxMs ==> -0.5 < d as real - wanted)
  {
    var p := baseMs * Pow2(attempt) as real;
    assert p * (1.0 + draw * jitter) == p + draw * jitter * p;
    RoundIsNearest(p * (1.0 + draw * jitter));
  }

  lemma JitterBounds(jitter: real, draw: real)
    requires 0.0 <= jitter && 0.0 <= draw < 1.0
    ensures 1.0 <= 1.0 + draw * jitter <= 1.0 + jitter
  {
  }

  lemma ScaleMonotone(a: real, x: real, y: real)
    requires 0.0 <= a && x <= y
    ensures a * x <= a * y
  {
  }

  /** With a jitter of at most 1 no later delay is shorter, whatever is drawn, and none exceeds the cap. */
  lemma DelaysNeverShrink(attempt: nat, baseMs: real, maxMs: int, jitter: real, draw: real, laterDraw: real)
    requires 0.0 <= baseMs && 0.0 <= jitter <= 1.0 && 0.0 <= draw < 1.0 && 0.0 <= laterDraw < 1.0
    ensures CalculateDelay(attempt, baseMs, maxMs, jitter, draw)
         <= CalculateDelay(attempt + 1, baseMs, maxMs, jitter, laterDraw) <= maxMs
  {
    var p := baseMs * Pow2(attempt) as real;
    var x, y := 1.0 + draw * jitter, 1.0 + laterDraw * jitter;
    JitterBounds(jitter, draw);
    JitterBounds(jitter, laterDraw);
    assert p >= 0.0 by {
      ScaleMonotone(baseMs, 0.0, Pow2(attempt) as real);
    }
    assert baseMs * Pow2(attempt + 1) as real == 2.0 * p;
    ScaleMonotone(p, x, 2.0 * y);
    assert p * (2.0 * y) == 2.0 * p * y;
  }

  /** The pause after some attempt is longer than the one after the next. */
  predicate Shrinks(attempt: nat, baseMs: real, maxMs: int, jitter: real, draw: real, laterDraw: real) {
    && 0.0 <= baseMs && 0.0 <= draw < 1.0 && 0.0 <= laterDraw < 1.0
    && CalculateDelay(attempt, baseMs, maxMs, jitter, draw)
       > CalculateDelay(attempt + 1, baseMs, maxMs, jitter, laterDraw)
  }

  /** A base and a draw for which the first delay is one millisecond above twice the base. */
  lemma HighFirstDelay(jitter: real) returns (baseMs: real, draw: real)
    requires jitter > 1.0
    ensures 0.0 <= baseMs && 0.0 <= draw < 1.0 && baseMs * (1.0 + draw * jitter) == 2.0 * baseMs + 1.0
  {
    var excess := jitter - 1.0;
    baseMs := 2.0 / excess;
    draw := (1.0 + excess / 2.0) / jitter;
    assert baseMs * excess == 2.0;
    assert draw * jitter == 1.0 + excess / 2.0;
    calc {
      baseMs * (1.0 + draw * jitter);
      baseMs * (2.0 + excess / 2.0);
      2.0 * baseMs + baseMs * excess / 2.0;
      2.0 * baseMs + 1.0;
    }
  }

  lemma FirstTwoDelays(baseMs: real, maxMs: int, jitter: real, draw: real)
    ensures CalculateDelay(0, baseMs, maxMs, jitter, draw) == Min(Round(baseMs * (1.0 + draw * jitter)), maxMs)
    ensures CalculateDelay(1, baseMs, maxMs, jitter, 0.0) == Min(Round(2.0 * baseMs), maxMs)
  {
    assert Pow2(0) == 1 && Pow2(1) == 2;
    assert baseMs * 1.0 == baseMs && 1.0 + 0.0 * jitter == 1.0;
  }

  /** A larger jitter can make the next delay shorter: the first one drawn high, the next one lowest. */
  lemma LargeJitterCanShrink(jitter: real)
    requires jitter > 1.0
    ensures exists baseMs, maxMs, draw :: Shrinks(0, baseMs, maxMs, jitter, draw, 0.0)
  {
    var baseMs, draw := HighFirstDelay(jitter);
    var maxMs := Round(2.0 * baseMs + 1.0);
    FirstTwoDelays(baseMs, maxMs, jitter, draw);
    assert Shrinks(0, baseMs, maxMs, jitter, draw, 0.0);
  }

  /** Delays never shrink, whatever the base, the cap and the draws, exactly if the jitter is at most 1. */
  lemma NeverShrinksExactly(jitter: real)
    requires 0.0 <= jitter
    ensures (forall attempt, baseMs, maxMs, draw, laterDraw ::
               !Shrinks(attempt, baseMs, maxMs, jitter, draw, laterDraw)) <==> jitter <= 1.0
  {
    if jitter <= 1.0 {
      forall attempt, baseMs, maxMs, draw, laterDraw
        ensures !Shrinks(attempt, baseMs, maxMs, jitter, draw, laterDraw)
      {
        if 0.0 <= baseMs && 0.0 <= draw < 1.0 && 0.0 <= laterDraw < 1.0 {
          DelaysNeverShrink(attempt, baseMs, maxMs, jitter, draw, laterDraw);
        }
      }
    } else {
      LargeJitterCanShrink(jitter);
    }
  }
}
