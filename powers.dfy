/** Powers of two, as numbers: the value of `1 << n`. */
module Powers {

  function Pow2(n: nat): (r: nat)
    ensures r > n
  {
    if n == 0 then 1 else 2 * Pow2(n - 1)
  }

  /** `1 << (a + b) == (1 << a) << b`. */
  lemma {:induction false} Pow2Add(a: nat, b: nat)
    ensures Pow2(a + b) == Pow2(a) * Pow2(b)
  {
    if b > 0 {
      Pow2Add(a, b - 1);
      assert Pow2(a + b) == 2 * Pow2(a + b - 1);
      assert Pow2(b) == 2 * Pow2(b - 1);
      Double(Pow2(a), Pow2(b - 1));
    }
  }

  lemma Double(x: nat, y: nat)
    ensures 2 * (x * y) == x * (2 * y)
  {
  }

  /** The powers of two the word-sized code relies on. */
  lemma Pow2Values()
    ensures Pow2(4) == 16 && Pow2(8) == 0x100 && Pow2(16) == 0x1_0000
    ensures Pow2(32) == 0x1_0000_0000
  {
    assert Pow2(2) == 4;
    assert Pow2(4) == 16;
    Pow2Add(4, 4);
    Pow2Add(8, 8);
    Pow2Add(16, 16);
  }
}
