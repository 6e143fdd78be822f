/**
  What several parts share: arithmetic of C, powers of two, the line break.
 */
module Common {

  const CRLF := "\r\n"

  /** `q` is `a / n` without its fraction. */
  predicate Truncated(a: int, n: int, q: int) {
    (a >= 0 ==> q * n <= a < (q + 1) * n) && (a <= 0 ==> (q - 1) * n < a <= q * n)
  }

  /** Division towards zero. */
  function Quot(a: int, n: int): (q: int)
    requires n > 0
    ensures Truncated(a, n, q)
  {
    if a >= 0 then a / n else -(-a / n)
  }

  function Pow2(k: nat): (p: nat)
    ensures p > 0
  {
    if k == 0 then 1 else 2 * Pow2(k - 1)
  }
}
