/**
 * Timeline coordinates. An instant is an (epoch, second) pair carrying a flag
 * that changes how transitions at that instant are animated; the flag is
 * metadata and takes no part in equality or ordering.
 */
module Instants {

  /** The flag strings the engine reacts to: '' , 'noanim' and 'reverse'. */
  datatype Flag = Plain | NoAnim | Reverse

  datatype Instant = Instant(epoch: int, second: int, flag: Flag)

  /** The origin sentinel: an element whose `to` is this instant is never retired. */
  const BIG_BANG: Instant := Instant(0, 0, Plain)

  /** Instant equality compares epoch and second only. */
  predicate Equals(a: Instant, b: Instant) {
    a.epoch == b.epoch && a.second == b.second
  }

  /** The timeline order: by epoch first, then by second. */
  predicate Before(a: Instant, b: Instant) {
    a.epoch < b.epoch || (a.epoch == b.epoch && a.second < b.second)
  }
}
