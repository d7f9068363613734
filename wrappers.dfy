/** Optional values: what the model returns where the source yields `undefined`. */
module Wrappers {
  datatype Option<T> = None | Some(value: T)
}

/**
 * The random source. Every `Math.floor(Math.random() * len)` of the source
 * becomes a call `rand(t, len)` of an oracle, where t numbers the draws of
 * one run; the oracle may answer anything as long as the index is in range.
 */
module Chance {
  type Oracle = (nat, nat) -> nat

  ghost predicate InRange(rand: Oracle)
  {
    forall t: nat, len: nat :: 0 < len ==> rand(t, len) < len
  }

  /** The index Math.floor(Math.random() * len) draws, as the oracle answers draw t. */
  function Draw(rand: Oracle, t: nat, len: nat): (x: nat)
    requires InRange(rand)
    ensures len == 0 || x < len
  {
    if len == 0 then 0 else rand(t, len)
  }
}
