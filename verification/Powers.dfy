/** Powers of two, and the limit of 32-bit numbers. */
module Powers {
  const U32: nat := 0x1_0000_0000

  // 1 << n
  function Pow2(n: nat): (p: nat)
    ensures p > 0
  {
    if n == 0 then 1 else 2 * Pow2(n - 1)
  }

  lemma MulScale(c: int, p: int, r: int)
    ensures p * (c * r) == c * (p * r)
  {
  }

  lemma {:induction false} PowAdd(m: nat, n: nat)
    ensures Pow2(m + n) == Pow2(m) * Pow2(n)
  {
    if n > 0 {
      PowAdd(m, n - 1);
      MulScale(2, Pow2(m), Pow2(n - 1));
    }
  }
}
