/** Shifts and bitwise or on unsigned words. */
module Words {

  function Pow2(n: nat): (r: nat)
    ensures r > 0
  {
    if n == 0 then 1 else 2 * Pow2(n - 1)
  }

  lemma {:induction false} Pow2Add(a: nat, b: nat)
    ensures Pow2(a + b) == Pow2(a) * Pow2(b)
  {
    if a > 0 {
      Pow2Add(a - 1, b);
    }
  }

  const WORD: nat := 0x1_0000_0000_0000_0000

  lemma Pow2Double(n: nat, p: nat)
    requires Pow2(n) == p
    ensures Pow2(n + n) == p * p
  {
    Pow2Add(n, n);
  }

  lemma Pow2Word(n: nat)
    requires n == 64
    ensures Pow2(n) == WORD
  {
    var eight := 8;
    assert Pow2(eight) == 256;
    hide Pow2;
    Pow2Double(eight, 0x100);
    Pow2Double(eight + eight, 0x1_0000);
    Pow2Double(eight + eight + (eight + eight), 0x1_0000_0000);
  }

  /** `word >> n` */
  function ShiftRight(word: nat, n: nat): nat
    decreases n
  {
    if n == 0 then word else ShiftRight(word / 2, n - 1)
  }

  lemma {:induction false} ShiftBound(word: nat, n: nat, bits: nat)
    requires word < Pow2(bits + n)
    ensures ShiftRight(word, n) < Pow2(bits)
    decreases n
  {
    if n > 0 {
      assert Pow2(bits + n) == 2 * Pow2(bits + (n - 1));
      ShiftBound(word / 2, n - 1, bits);
    }
  }

  /** `a | b` */
  function Or(a: nat, b: nat): nat {
    if a == 0 then b
    else if b == 0 then a
    else 2 * Or(a / 2, b / 2) + (if a % 2 == 1 || b % 2 == 1 then 1 else 0)
  }

  lemma {:induction false} OrBound(a: nat, b: nat, k: nat)
    requires a < Pow2(k) && b < Pow2(k)
    ensures Or(a, b) < Pow2(k)
    decreases k
  {
    if a != 0 && b != 0 {
      OrBound(a / 2, b / 2, k - 1);
    }
  }

  /** Fields that do not overlap: or-ing is adding. */
  lemma {:induction false} OrFields(high: nat, low: nat, k: nat)
    requires low < Pow2(k)
    ensures Or(high * Pow2(k), low) == high * Pow2(k) + low
    ensures Or(low, high * Pow2(k)) == high * Pow2(k) + low
    decreases k
  {
    if k > 0 && low != 0 && high != 0 {
      var half := high * Pow2(k - 1);
      assert high * Pow2(k) == 2 * half;
      assert half > 0;
      OrFields(high, low / 2, k - 1);
    }
  }

  /** The low bits of an or, whatever else is or-ed in above them. */
  lemma {:induction false} OrLow(high: nat, low: nat, k: nat)
    ensures Or(high * Pow2(k), low) % Pow2(k) == low % Pow2(k)
    decreases k
  {
    if k > 0 && low != 0 && high != 0 {
      var half, p := high * Pow2(k - 1), Pow2(k - 1);
      assert high * Pow2(k) == 2 * half;
      assert half > 0;
      OrLow(high, low / 2, k - 1);
      DoubleMod(Or(half, low / 2), low % 2, p);
      DoubleMod(low / 2, low % 2, p);
    } else if high == 0 {
      assert high * Pow2(k) == 0;
    } else if low == 0 {
      MultipleMod(high, Pow2(k));
    }
  }

  lemma MultipleMod(a: nat, p: nat)
    requires p > 0
    ensures a * p % p == 0
  {
    ModUnique(a * p, p, a, 0);
  }

  /** Appending a bit to a number and its remainder. */
  lemma DoubleMod(a: nat, bit: nat, p: nat)
    requires p > 0 && bit < 2
    ensures (2 * a + bit) % (2 * p) == 2 * (a % p) + bit
  {
    var q, r := a / p, a % p;
    assert 2 * a + bit == (2 * r + bit) + (2 * p) * q;
    assert 2 * r + bit < 2 * p;
    ModUnique(2 * a + bit, 2 * p, q, 2 * r + bit);
  }

  lemma ModUnique(x: nat, m: nat, q: nat, r: nat)
    requires x == r + m * q && r < m
    ensures x % m == r && x / m == q
  {
    var d: int := x / m - q;
    assert m * d + x % m == r;
    assert d >= 1 ==> m * d >= m;
    assert d <= -1 ==> m * d + m <= 0;
  }
}
