/** Powers of two. */
module Powers {
  function Pow2(n: nat): (r: nat)
    ensures r > 0
  {
    if n == 0 then 1 else 2 * Pow2(n - 1)
  }

  lemma {:induction false} Pow2Grows(a: nat, b: nat)
    requires a <= b
    ensures Pow2(a) <= Pow2(b)
    decreases b
  {
    if a < b {
      Pow2Grows(a, b - 1);
    }
  }

  lemma {:induction false} Pow2Four(n: nat)
    ensures Pow2(n + 4) == 16 * Pow2(n)
  {
    assert Pow2(n + 2) == 2 * Pow2(n + 1) == 4 * Pow2(n);
    assert Pow2(n + 4) == 2 * Pow2(n + 3) == 4 * Pow2(n + 2);
  }

  lemma {:induction false} Pow2Values()
    ensures Pow2(5) == 32 && Pow2(8) == 256 && Pow2(9) == 512 && Pow2(16) == 0x1_0000 && Pow2(24) == 0x100_0000
    ensures Pow2(30) == 0x4000_0000 && Pow2(31) == 0x8000_0000 && Pow2(32) == 0x1_0000_0000
  {
    Pow2Four(0);
    Pow2Four(1);
    Pow2Four(4);
    Pow2Four(5);
    Pow2Four(8);
    Pow2Four(12);
    Pow2Four(16);
    Pow2Four(20);
    Pow2Four(24);
    Pow2Four(28);
    assert Pow2(31) == 2 * Pow2(30) && Pow2(30) == 2 * Pow2(29);
  }
}
