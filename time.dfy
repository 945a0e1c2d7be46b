/**
 * Instants. The source reads the wall clock (`new Date()`); here every reading
 * is a parameter. Timestamps are natural numbers ordered like the source's ISO strings.
 */
module Time {
  type Timestamp = nat

  /** One batch of writes stamps its k-th record with `clock(k)`: each record gets its own clock reading. */
  type Clock = nat -> Timestamp
}
