/** Bitwise operations on numbers, bit by bit. */
module Bits {

  function And(a: nat, b: nat): (r: nat)
    ensures r <= a && r <= b
  {
    if a == 0 || b == 0 then 0 else 2 * And(a / 2, b / 2) + a % 2 * (b % 2)
  }

  function Xor(a: nat, b: nat): nat
    decreases a + b
  {
    if a == 0 && b == 0 then 0 else 2 * Xor(a / 2, b / 2) + (a + b) % 2
  }

  ghost function Pow2(k: nat): (p: nat)
    ensures p > 0
  {
    if k == 0 then 1 else 2 * Pow2(k - 1)
  }

  lemma AndBits(a: nat, b: nat)
    ensures And(a, b) == 2 * And(a / 2, b / 2) + a % 2 * (b % 2)
  {
  }

  lemma XorBits(a: nat, b: nat)
    ensures Xor(a, b) == 2 * Xor(a / 2, b / 2) + (a + b) % 2
  {
  }

  /** The lowest bit of a number whose low part has k bits. */
  lemma LowBit(a: nat, x: nat, k: nat)
    requires k > 0 && x < Pow2(k)
    ensures (a * Pow2(k) + x) / 2 == a * Pow2(k - 1) + x / 2 && (a * Pow2(k) + x) % 2 == x % 2
    ensures x / 2 < Pow2(k - 1)
  {
    var p := a * Pow2(k - 1);
    assert a * Pow2(k) == 2 * p;
  }

  /** High and low parts do not mix. */
  lemma {:induction false} AndSplit(a: nat, x: nat, b: nat, y: nat, k: nat)
    requires x < Pow2(k) && y < Pow2(k)
    ensures And(a * Pow2(k) + x, b * Pow2(k) + y) == And(a, b) * Pow2(k) + And(x, y)
  {
    if k > 0 {
      LowBit(a, x, k);
      LowBit(b, y, k);
      AndBits(a * Pow2(k) + x, b * Pow2(k) + y);
      AndBits(x, y);
      AndSplit(a, x / 2, b, y / 2, k - 1);
      hide And;
      Doubled(And(a, b), Pow2(k - 1));
    } else {
      assert And(0, 0) == 0;
    }
  }

  lemma {:induction false} XorSplit(a: nat, x: nat, b: nat, y: nat, k: nat)
    requires x < Pow2(k) && y < Pow2(k)
    ensures Xor(a * Pow2(k) + x, b * Pow2(k) + y) == Xor(a, b) * Pow2(k) + Xor(x, y)
  {
    if k > 0 {
      LowBit(a, x, k);
      LowBit(b, y, k);
      XorBits(a * Pow2(k) + x, b * Pow2(k) + y);
      XorBits(x, y);
      XorSplit(a, x / 2, b, y / 2, k - 1);
      hide Xor;
      SumParity(a * Pow2(k) + x, b * Pow2(k) + y, x, y);
      Doubled(Xor(a, b), Pow2(k - 1));
    } else {
      assert Xor(0, 0) == 0;
    }
  }

  lemma Doubled(m: nat, p: nat)
    ensures 2 * (m * p) == m * (2 * p)
  {
  }

  lemma SumParity(a: nat, b: nat, x: nat, y: nat)
    requires a % 2 == x % 2 && b % 2 == y % 2
    ensures (a + b) % 2 == (x + y) % 2
  {
  }

  /** A mask of k ones keeps a number of k bits. */
  lemma {:induction false} AndOnes(x: nat, k: nat)
    requires x < Pow2(k)
    ensures And(x, Pow2(k) - 1) == x
  {
    hide And;
    if k > 0 {
      LowBit(0, x, k);
      LowBit(1, 0, k);
      AndBits(x, Pow2(k) - 1);
      OddMask(Pow2(k - 1));
      AndOnes(x / 2, k - 1);
      TimesOne(x);
    } else {
      AndNone();
    }
  }

  lemma OddMask(p: nat)
    requires p > 0
    ensures (2 * p - 1) / 2 == p - 1 && (2 * p - 1) % 2 == 1
  {
  }

  lemma TimesOne(x: nat)
    ensures 2 * (x / 2) + x % 2 * 1 == x
  {
  }

  lemma AndNone()
    ensures And(0, 0) == 0
  {
  }

  lemma {:induction false} XorZero(x: nat)
    ensures Xor(x, 0) == x
  {
    if x > 0 { XorZero(x / 2); }
  }

  /** A number of k bits and its complement have no bit in common. */
  lemma {:induction false} AndComplement(x: nat, k: nat)
    requires x < Pow2(k)
    ensures And(x, Pow2(k) - 1 - x) == 0
  {
    if k > 0 {
      var y := Pow2(k) - 1 - x;
      assert y / 2 == Pow2(k - 1) - 1 - x / 2 && x % 2 * (y % 2) == 0;
      AndBits(x, y);
      AndComplement(x / 2, k - 1);
    }
  }

  lemma Pow2Widths()
    ensures Pow2(4) == 16 && Pow2(8) == 256 && Pow2(28) == 0x1000_0000
  {
    assert Pow2(4) == 2 * Pow2(3) == 4 * Pow2(2) == 8 * Pow2(1) == 16;
    Pow2Adds(4, 4);
    Pow2Adds(8, 4);
    Pow2Adds(8, 8);
    Pow2Adds(16, 12);
  }

  lemma {:induction false} Pow2Adds(a: nat, b: nat)
    ensures Pow2(a + b) == Pow2(a) * Pow2(b)
  {
    if b > 0 {
      Pow2Adds(a, b - 1);
      Doubled(Pow2(a), Pow2(b - 1));
    }
  }
}
