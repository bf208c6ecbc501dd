/** Powers, for the exponential delays. */
module Powers {
  function Power(x: real, n: nat): real {
    if n == 0 then 1.0 else x * Power(x, n - 1)
  }

  function Pow2(n: nat): (r: int)
    ensures r >= 1
  {
    if n == 0 then 1 else 2 * Pow2(n - 1)
  }

  /** One factor is the base itself, and factors add up. */
  lemma {:induction false} PowerAdds(x: real, m: nat, n: nat)
    ensures Power(x, 0) == 1.0 && Power(x, 1) == x
    ensures Power(x, m + n) == Power(x, m) * Power(x, n)
  {
    assert Power(x, 1) == x * Power(x, 0);
    if m > 0 {
      PowerAdds(x, m - 1, n);
      assert Power(x, m + n) == x * Power(x, m - 1 + n);
      Regroup(x, Power(x, m - 1), Power(x, n));
    }
  }

  lemma Regroup(x: real, y: real, z: real)
    ensures x * (y * z) == x * y * z
  {
  }

  lemma {:induction false} Pow2IsAPower(n: nat)
    ensures Pow2(n) as real == Power(2.0, n)
  {
    if n > 0 {
      Pow2IsAPower(n - 1);
    }
  }
}
