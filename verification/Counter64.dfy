/** A 64-bit counter that is only ever incremented: the k-th increment, seen as an int64. */
module Counter64 {
  const TWO_63 := 0x8000_0000_0000_0000
  const TWO_64 := 0x1_0000_0000_0000_0000

  function Int64(k: int): (n: int)
    ensures -TWO_63 <= n < TWO_63
    ensures (n - k) % TWO_64 == 0
  {
    (k + TWO_63) % TWO_64 - TWO_63
  }

  lemma Int64Next(k: int)
    ensures Int64(Int64(k) + 1) == Int64(k + 1)
  {
  }

  /** Two increments return the same int64 exactly when they are a multiple of 2^64 apart. */
  lemma Int64Repeats(j: int, k: int)
    ensures Int64(j) == Int64(k) <==> (j - k) % TWO_64 == 0
  {
  }

  lemma NoFullTurn(j: nat, k: nat)
    requires 1 <= j <= TWO_64 && 1 <= k <= TWO_64
    ensures (j - k) % TWO_64 == 0 ==> j == k
  {
  }
}
