/** What the environment may choose: failures, cancellations, and how much of a stream arrives. */
module Adversary {

  method AnyFlag() returns (b: bool)
  {
    b := *;
  }

  /** Any number up to `limit`. */
  method AnyUpTo(limit: nat) returns (n: nat)
    ensures n <= limit
  {
    n :| 0 <= n <= limit;
  }
}
