/** Kinds of values that the other modules share. */
module Values {

  type byte = x: int | 0 <= x < 256

  /** The characters that resume and suspend the sender. */
  const START_CHAR := '\U{11}'
  const STOP_CHAR := '\U{13}'

  /** An ASCII control character. */
  predicate IsControl(c: nat) { c <= 0x1F || c == 0x7F }

  /** No value occurs twice. */
  ghost predicate Distinct(s: seq<nat>) {
    forall i, j | 0 <= i < j < |s| :: s[i] != s[j]
  }
}
