/** What several models need. */
module Common {
  datatype Option<T> = None | Some(value: T)

  /** One more than the largest 32-bit number. */
  const WORDS := 0x1_0000_0000

  function Pow2(k: nat): (p: nat)
    ensures p > 0
  {
    if k == 0 then 1 else 2 * Pow2(k - 1)
  }
}
