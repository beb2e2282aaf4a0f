/**
 * The tuning constants of the matcher and the session. Their defining module
 * is not part of this model; the values are the configured ones.
 */
module Constants {
  /** Offsets 0..=MAX_LEN of a line are indexed. */
  const MAX_LEN: nat := 80
  /** Added to the class-change score at the first non-whitespace character. */
  const FIRST_FACTOR: int := 3
  /** Added to the class-change score when the character class changes. */
  const CLASS_FACTOR: int := 3
  /** The whitespace score is reset to this at every whitespace character. */
  const WHITESPACE_FACTOR: int := 5
  /** Divisor applied to the whitespace score after every offset. */
  const WHITESPACE_REDUCE: int := 2
  /** Divisor applied to the class-change score after offsets without a fresh change. */
  const CLASS_REDUCE: int := 2
  /** Weight of the average gap between matched offsets (negative: gaps cost). */
  const DIST_WEIGHT: int := -10
  /** Weight of the summed heat of the matched offsets. */
  const HEAT_WEIGHT: int := 5
  /** Divisor turning a recency factor into a score bonus. */
  const FACTOR_REDUCE: int := 50
  /** Number of candidates kept and drawn. */
  const MATCH_NUMBER: nat := 10

  /** End of transmission (Ctrl-D): cancels the session. */
  const EOT: char := '\U{4}'
  /** Ctrl-U: clears the query. */
  const CTRL_U: char := '\U{15}'

  /** Rust's `/` on signed integers: truncates toward zero. */
  function RustDiv(a: int, b: int): int
    requires b > 0
  {
    if a >= 0 then a / b else -((-a) / b)
  }
}
