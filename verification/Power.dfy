/** Powers of a base. */
module Power {
  function Pow(base: nat, n: nat): (p: nat)
    requires base > 0
    ensures p > 0
  {
    if n == 0 then 1 else base * Pow(base, n - 1)
  }

  lemma {:induction false} Pow2Add(a: nat, b: nat)
    ensures Pow(2, a + b) == Pow(2, a) * Pow(2, b)
    decreases b
  {
    if b > 0 {
      Pow2Add(a, b - 1);
      assert Pow(2, a + b) == 2 * Pow(2, a + b - 1);
      assert 2 * (Pow(2, a) * Pow(2, b - 1)) == Pow(2, a) * (2 * Pow(2, b - 1));
    }
  }
}
