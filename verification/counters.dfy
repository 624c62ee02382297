/**
 * The cached counters (likesCount, commentsCount, postsCount, followersCount,
 * followingCount) are optional numbers: an unset counter reads as zero, every
 * increment is `(c || 0) + 1` and every decrement `Math.max(0, (c || 1) - 1)`.
 */
module Counters {
  import opened Schema

  /** The value a counter stands for: unset reads as zero. */
  function Num(c: Option<nat>): nat {
    match c
    case None => 0
    case Some(n) => n
  }

  /** JavaScript's `c || fallback` on a numeric field: `undefined` and `0` are falsy. */
  function OrElse(c: Option<nat>, fallback: nat): nat {
    if c.Some? && c.value != 0 then c.value else fallback
  }

  function Max(a: int, b: int): int {
    if a < b then b else a
  }

  /** `(c || 0) + 1`: one more than the counter's value. */
  function Incremented(c: Option<nat>): (r: nat)
    ensures r == Num(c) + 1
  {
    OrElse(c, 0) + 1
  }

  /** `Math.max(0, (c || 1) - 1)`: one less than the counter's value, floored at zero. */
  function Decremented(c: Option<nat>): (r: nat)
    ensures Num(c) > 0 ==> r + 1 == Num(c)
    ensures Num(c) == 0 ==> r == 0
  {
    Max(0, OrElse(c, 1) - 1)
  }

  /** Decrementing what was just incremented gives the counter's value back. */
  lemma DecrementUndoesIncrement(c: Option<nat>)
    ensures Decremented(Some(Incremented(c))) == Num(c)
  {
  }

  /** Incrementing what was just decremented gives the value back, unless the counter was already at zero. */
  lemma IncrementUndoesDecrement(c: Option<nat>)
    requires Num(c) > 0
    ensures Incremented(Some(Decremented(c))) == Num(c)
  {
  }
}
