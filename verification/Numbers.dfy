/** Integers: the lesser of two, and the UTC day of a time in seconds. */
module Numbers {
  const SECONDS_PER_DAY := 86400

  function DayOf(at: int): int {
    at / SECONDS_PER_DAY
  }

  function Min(a: nat, b: nat): nat {
    if a <= b then a else b
  }
}
