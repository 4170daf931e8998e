/**
 * The growth counter over many moves. `move` keeps the tail when the
 * counter it post-decrements was non-zero; on a `uint8_t` a zero counter
 * wraps to 255, so the counter keeps the tail on 255 of every 256 moves
 * instead of only for the cells an apple is worth. The functions here count
 * the tail-keeping moves among `n` consecutive moves that eat nothing, under
 * the rule as written and under the rule the game evidently intends.
 */
module Growth {
  import opened Geometry
  import opened SnakeSpec

  /** Moves that keep the tail among `n` moves from counter `c`, with the post-decrement of `move`. */
  function KeptAsWritten(c: UInt8, n: nat): (kept: nat)
    ensures kept <= n
    decreases n
  {
    if n == 0 then 0
    else (if c != 0 then 1 else 0) + KeptAsWritten(PostDecrement8(c), n - 1)
  }

  /** While the counter has not run out, every move keeps the tail. */
  lemma {:induction false} AsWrittenKeepsWhilePositive(c: UInt8, n: nat)
    requires n <= c
    ensures KeptAsWritten(c, n) == n
    decreases n
  {
    if n > 0 {
      AsWrittenKeepsWhilePositive(PostDecrement8(c), n - 1);
    }
  }

  /**
   * From a zero counter (the state after construction, or after the growth
   * of an apple is used up) only the first of up to 256 moves drops the tail:
   * the snake grows by `n - 1` cells without eating anything.
   */
  lemma {:induction false} AsWrittenGrowsAfterZero(n: nat)
    requires 1 <= n <= 0x100
    ensures KeptAsWritten(0, n) == n - 1
  {
    assert PostDecrement8(0) == 0xFF;
    AsWrittenKeepsWhilePositive(0xFF, n - 1);
  }

  /** The countdown the game evidently intends: a positive counter goes down by one, zero stays zero. */
  function IntendedCountdown(c: UInt8): (r: UInt8)
    ensures r <= c && c <= r + 1
    ensures r == c <==> c == 0
  {
    if c > 0 then c - 1 else 0
  }

  /** Moves that keep the tail among `n` moves from counter `c`, with the intended countdown. */
  function KeptIntended(c: UInt8, n: nat): (kept: nat)
    ensures kept <= n
    decreases n
  {
    if n == 0 then 0
    else (if c > 0 then 1 else 0) + KeptIntended(IntendedCountdown(c), n - 1)
  }

  /**
   * With the intended countdown the snake grows by exactly the counter's
   * value, one cell per move: an apple (counter 10) is worth ten cells.
   */
  lemma {:induction false} IntendedGrowth(c: UInt8, n: nat)
    ensures KeptIntended(c, n) == if n < c then n else c
    decreases n
  {
    if n > 0 {
      IntendedGrowth(IntendedCountdown(c), n - 1);
    }
  }

  /** The two rules agree until the counter first reaches zero. */
  lemma {:induction false} RulesAgreeWhilePositive(c: UInt8, n: nat)
    requires n <= c
    ensures KeptAsWritten(c, n) == KeptIntended(c, n)
  {
    AsWrittenKeepsWhilePositive(c, n);
    IntendedGrowth(c, n);
  }

  /** `n` moves in a row, without the rest of a tick. */
  function Moves(s: State, n: nat): (r: State)
    requires |s.body| > 0
    ensures |r.body| > 0
    decreases n
  {
    if n == 0 then s else Moves(MoveSpec(s), n - 1)
  }

  /** Each of the next `n` moves of a moving snake is neither fatal nor eats the apple. */
  predicate CleanMoves(s: State, n: nat)
    requires |s.body| > 0
    decreases n
  {
    n == 0 || (s.speed != Origin && !Fatal(s) && !Eats(s) && CleanMoves(MoveSpec(s), n - 1))
  }

  /** Over moves that neither die nor eat, the body grows by exactly the tail-keeping moves `KeptAsWritten` counts. */
  lemma {:induction false} MovesGrowBy(s: State, n: nat)
    requires |s.body| > 0 && CleanMoves(s, n)
    ensures |Moves(s, n).body| == |s.body| + KeptAsWritten(s.extra, n)
    decreases n
  {
    if n > 0 {
      NonFatalMove(s);
      GrowthCounter(s);
      MovesGrowBy(MoveSpec(s), n - 1);
    }
  }

  /** So a snake that starts moving with a zero counter is one cell longer on every move but the first. */
  lemma {:induction false} ZeroCounterGrows(s: State, n: nat)
    requires |s.body| > 0 && s.extra == 0 && CleanMoves(s, n) && 1 <= n <= 0x100
    ensures |Moves(s, n).body| == |s.body| + n - 1
  {
    MovesGrowBy(s, n);
    AsWrittenGrowsAfterZero(n);
  }
}
