/** Powers of two, remainders, and the bits of a number. */
module Bits {
  import opened Words

  function Pow2(k: nat): (r: nat)
    ensures r >= 1
  {
    if k == 0 then 1 else 2 * Pow2(k - 1)
  }

  /** The `&` operator. */
  function And(a: nat, b: nat): (r: nat)
    ensures r <= a && r <= b
  {
    if a == 0 || b == 0 then 0 else 2 * And(a / 2, b / 2) + (if a % 2 == 1 && b % 2 == 1 then 1 else 0)
  }

  /** Masking with `2^k - 1` is the remainder by `2^k`. */
  lemma {:induction false} AndMask(x: nat, k: nat)
    ensures And(x, Pow2(k) - 1) == x % Pow2(k)
  {
    if k > 0 {
      var p := Pow2(k - 1);
      assert Pow2(k) == 2 * p;
      AndMask(x / 2, k - 1);
      hide And, Pow2;
      AndOnes(x, p);
      HalfResidue(x, p);
    }
  }

  lemma AndOnes(x: nat, p: nat)
    requires p >= 1
    ensures And(x, 2 * p - 1) == 2 * And(x / 2, p - 1) + x % 2
  {
    var m: nat := 2 * p - 1;
    assert m / 2 == p - 1 && m % 2 == 1;
    hide And;
    AndStep(x, m);
  }

  lemma AndStep(a: nat, b: nat)
    ensures And(a, b) == 2 * And(a / 2, b / 2) + (if a % 2 == 1 && b % 2 == 1 then 1 else 0)
  {
  }

  lemma {:induction false} AndCommutes(a: nat, b: nat)
    ensures And(a, b) == And(b, a)
  {
    if a != 0 && b != 0 {
      AndCommutes(a / 2, b / 2);
    }
  }

  lemma HalfResidue(x: nat, m: nat)
    requires m >= 1
    ensures x % (2 * m) == 2 * (x / 2 % m) + x % 2
  {
    var q, r := x / 2 / m, x / 2 % m;
    assert x / 2 == q * m + r;
    assert x == q * (2 * m) + (2 * r + x % 2);
    UniqueResidue(x, q, 2 * m, 2 * r + x % 2);
  }

  lemma {:induction false} Pow2Grows(j: nat, k: nat)
    requires j <= k
    ensures Pow2(j) <= Pow2(k)
    ensures j < k ==> Pow2(j) < Pow2(k)
  {
    if j < k {
      Pow2Grows(j, k - 1);
    }
  }

  lemma Pow2Values()
    ensures Pow2(0) == 1 && Pow2(1) == 2 && Pow2(5) == 32 && Pow2(8) == 256
    ensures Pow2(27) == 0x800_0000 && Pow2(30) == 0x4000_0000 && Pow2(31) == TWO_31 && Pow2(32) == TWO_32
  {
    assert Pow2(10) == 1024;
    assert Pow2(20) == 0x10_0000;
    assert Pow2(27) == 0x800_0000;
    assert Pow2(30) == 0x4000_0000;
  }

  lemma AndDouble(a: nat, b: nat)
    ensures And(a, 2 * b) == 2 * And(a / 2, b)
  {
    hide And;
    AndStep(a, 2 * b);
  }

  lemma Pow2Step(k: nat)
    ensures Pow2(k + 1) == 2 * Pow2(k) && Pow2(k + 2) == 4 * Pow2(k)
  {
  }

  lemma {:induction false} Pow2Splits(j: nat, k: nat)
    ensures Pow2(j + k) == Pow2(k) * Pow2(j)
  {
    if j > 0 {
      Pow2Splits(j - 1, k);
      assert Pow2(k) * (2 * Pow2(j - 1)) == 2 * (Pow2(k) * Pow2(j - 1));
    }
  }

  lemma AndTwice(a: nat, b: nat)
    ensures And(2 * a, 2 * b) == 2 * And(a, b)
  {
    AndDouble(2 * a, b);
  }
}
