/** `struct timespec`, and the instant it stands for. */
module Timespec {

  const SECOND := 1_000_000_000

  datatype Timespec = Timespec(sec: int, nsec: int)

  predicate Normal(t: Timespec) { 0 <= t.nsec < SECOND }

  function Nanos(t: Timespec): int { t.sec * SECOND + t.nsec }

  lemma SameInstant(a: Timespec, b: Timespec)
    requires Normal(a) && Normal(b) && Nanos(a) == Nanos(b)
    ensures a == b
  {
  }
}
