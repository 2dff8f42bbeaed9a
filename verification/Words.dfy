/** Fixed-width words: residues and two's-complement readings of unbounded integers. */
module Words {

  const TWO_31 := 0x8000_0000
  const TWO_32 := 0x1_0000_0000
  const TWO_60 := 0x1000_0000_0000_0000
  const TWO_63 := 0x8000_0000_0000_0000
  const TWO_64 := 0x1_0000_0000_0000_0000

  type Int32 = x: int | -TWO_31 <= x < TWO_31

  /** Two's-complement reading of the low 32 or 64 bits. */
  function Wrap32(x: int): (r: int)
    ensures -TWO_31 <= r < TWO_31
  {
    if x % TWO_32 < TWO_31 then x % TWO_32 else x % TWO_32 - TWO_32
  }

  function Wrap64(x: int): (r: int)
    ensures -TWO_63 <= r < TWO_63
  {
    if x % TWO_64 < TWO_63 then x % TWO_64 else x % TWO_64 - TWO_64
  }

  /** A quotient and a remainder are determined by what they make up. */
  lemma UniqueResidue(x: int, q: int, m: nat, r: nat)
    requires x == q * m + r && r < m
    ensures x % m == r && x / m == q
  {
    var d := x / m - q;
    var w: int := m;
    assert x == x / m * m + x % m;
    assert d * w == r - x % m;
    assert d >= 1 ==> d * w >= w;
    assert d <= -1 ==> d * w <= -w;
  }

  /** A reading differs from the number by a multiple of the word's range. */
  lemma WrapCongruent(x: int)
    ensures (x - Wrap32(x)) % 0x1_0000_0000 == 0 && (x - Wrap64(x)) % 0x1_0000_0000_0000_0000 == 0
  {
    UniqueResidue(x - Wrap32(x), x / TWO_32 + (if x % TWO_32 < TWO_31 then 0 else 1), TWO_32, 0);
    UniqueResidue(x - Wrap64(x), x / TWO_64 + (if x % TWO_64 < TWO_63 then 0 else 1), TWO_64, 0);
  }

  lemma NarrowResidue(m: nat)
    ensures m % TWO_64 % TWO_32 == m % TWO_32
  {
    var q, r := m / TWO_64, m % TWO_64;
    UniqueResidue(m, q * TWO_32 + r / TWO_32, TWO_32, r % TWO_32);
  }

  lemma WrapNegated64(m: nat)
    ensures Wrap64((TWO_64 - m % TWO_64) % TWO_64) == Wrap64(-(m as int))
  {
    var q, r, n: int := m / TWO_64, m % TWO_64, -(m as int);
    if r == 0 {
      UniqueResidue(n, -q, TWO_64, 0);
    } else {
      UniqueResidue(n, -q - 1, TWO_64, TWO_64 - r);
    }
    WrapResidue64(n);
  }

  lemma WrapResidue64(x: int)
    ensures Wrap64(x % TWO_64) == Wrap64(x)
  {
    UniqueResidue(x % TWO_64, 0, TWO_64, x % TWO_64);
  }

  lemma WrapNegated32(m: nat)
    ensures Wrap32((TWO_32 - m % TWO_32) % TWO_32) == Wrap32(-(m as int))
  {
    var q, r, n: int := m / TWO_32, m % TWO_32, -(m as int);
    if r == 0 {
      UniqueResidue(n, -q, TWO_32, 0);
    } else {
      UniqueResidue(n, -q - 1, TWO_32, TWO_32 - r);
    }
    WrapResidue32(n);
  }

  lemma WrapResidue32(x: int)
    ensures Wrap32(x % TWO_32) == Wrap32(x)
  {
    UniqueResidue(x % TWO_32, 0, TWO_32, x % TWO_32);
  }

  /** Reading the low 32 bits of a 64-bit word loses nothing that they hold. */
  lemma WrapTwice(x: int)
    ensures Wrap32(x) == Wrap32(Wrap64(x))
  {
    var q, r, y := x / TWO_64, x % TWO_64, Wrap64(x);
    var q', r' := r / TWO_32, r % TWO_32;
    UniqueResidue(x, q * TWO_32 + q', TWO_32, r');
    UniqueResidue(y, if y == r then q' else q' - TWO_32, TWO_32, r');
  }

  lemma WrapExact(x: int)
    ensures Wrap32(x) == x <==> -TWO_31 <= x < TWO_31
    ensures Wrap64(x) == x <==> -TWO_63 <= x < TWO_63
  {
    if -TWO_31 <= x < TWO_31 {
      UniqueResidue(x, if x < 0 then -1 else 0, TWO_32, if x < 0 then x + TWO_32 else x);
    }
    if -TWO_63 <= x < TWO_63 {
      UniqueResidue(x, if x < 0 then -1 else 0, TWO_64, if x < 0 then x + TWO_64 else x);
    }
  }
}
