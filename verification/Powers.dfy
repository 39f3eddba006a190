/** Powers of two, shared by the shifts of the abstract domain and by the depth bound of the quicksort. */
module Powers {
  function Pow2(n: nat): (p: nat)
    ensures p >= 1
    ensures n > 0 ==> p >= 2
  {
    if n == 0 then 1 else 2 * Pow2(n - 1)
  }
}
