/** Powers of two, and the ones that occur. */
module Powers {
  function Pow2(k: nat): (p: nat)
    ensures p > 0
  {
    if k == 0 then 1 else 2 * Pow2(k - 1)
  }

  lemma Pow2At4()
    ensures Pow2(4) == 16
  {
  }

  lemma Pow2At5()
    ensures Pow2(5) == 32
  {
  }

  lemma Pow2At7()
    ensures Pow2(7) == 128
  {
  }

  lemma Pow2At8()
    ensures Pow2(8) == 256
  {
  }

  lemma Pow2At16()
    ensures Pow2(16) == 0x1_0000
  {
    assert Pow2(12) == 0x1000;
  }

  lemma Pow2At24()
    ensures Pow2(24) == 0x100_0000
  {
    Pow2At16();
    assert Pow2(20) == 0x10_0000;
  }

  lemma Pow2At32()
    ensures Pow2(32) == 0x1_0000_0000
  {
    Pow2At24();
    assert Pow2(28) == 0x1000_0000;
  }

  lemma {:induction false} Pow2Sum(a: nat, b: nat)
    ensures Pow2(a + b) == Pow2(a) * Pow2(b)
  {
    if a == 0 {
    } else {
      Pow2Sum(a - 1, b);
      assert Pow2(a + b) == 2 * Pow2(a - 1 + b);
    }
  }
}
