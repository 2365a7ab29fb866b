/** roundUpForSliceCap on 64-bit words: the capacity of a body buffer that must hold n bytes. */
module RoundUp {

  /** Above 100 MB nothing is rounded. */
  const ROUND_LIMIT: bv64 := 104857600

  /** The sign bit of an int. */
  const SIGN: bv64 := 0x8000_0000_0000_0000

  /** Every bit below the highest one is set. */
  function Smear(n: bv64): bv64
  {
    var a := n | (n >> 1);
    var b := a | (a >> 2);
    var c := b | (b >> 4);
    var d := c | (c >> 8);
    d | (d >> 16)
  }

  function RoundUpForSliceCap(n: bv64): bv64
  {
    if n == 0 || n >= SIGN then 0
    else if n > ROUND_LIMIT then n
    else Smear(n - 1) + 1
  }

  /** r is the least power of two that is not below n. */
  predicate Least(n: bv64, r: bv64)
  {
    r >= n && r & (r - 1) == 0 && (r >> 1) < n
  }

  /** Never too small, and up to the limit the least power of two that is not. */
  lemma RoundsUp(n: bv64)
    requires 0 < n < SIGN
    ensures var r := RoundUpForSliceCap(n); if n <= 104857600 then Least(n, r) else r == n
  {
    hide Smear, Least;
    if n <= ROUND_LIMIT {
      SmearFills(n);
    }
  }

  lemma SmearFills(n: bv64)
    requires 0 < n <= ROUND_LIMIT
    ensures Least(n, Smear(n - 1) + 1)
  {
  }
}
