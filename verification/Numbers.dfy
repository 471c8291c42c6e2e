/** Arithmetic that several modules need: powers, division, machine words. */
module Numbers {
  import opened Words

  const TWO32 := 0x1_0000_0000

  function Pow2(k: nat): (r: nat)
    ensures r > 0
  {
    if k == 0 then 1 else 2 * Pow2(k - 1)
  }

  lemma {:induction false} Pow2Monotone(a: nat, b: nat)
    requires a <= b
    ensures Pow2(a) <= Pow2(b)
    decreases b - a
  {
    if a < b { Pow2Monotone(a + 1, b); }
  }

  lemma {:induction false} Pow2Add(a: nat, b: nat)
    ensures Pow2(a + b) == Pow2(a) * Pow2(b)
  {
    if a > 0 {
      Pow2Add(a - 1, b);
      assert Pow2(a + b) == 2 * (Pow2(a - 1) * Pow2(b));
    }
  }

  lemma MulAssociative(a: nat, b: nat, c: nat)
    ensures a * b * c == a * (b * c)
  {
  }

  lemma MulMonotone(m: nat, a: int, b: int)
    ensures a < b ==> m * a + m <= m * b
  {
    if a < b {
      var d := b - a - 1;
      assert m * b == m * a + m + m * d;
      NotNegative(m, d);
    }
  }

  lemma NotNegative(a: nat, b: nat)
    ensures a * b >= 0
  {
  }

  lemma DivisionUnique(a: nat, m: nat, q: nat, r: nat)
    requires m > 0 && a == m * q + r && r < m
    ensures a % m == r && a / m == q
  {
    var d := a / m;
    assert a == m * d + a % m;
    MulMonotone(m, d, q);
    MulMonotone(m, q, d);
  }

  /** Dividing off a multiple. */
  lemma ShiftSum(c: nat, q: nat, r: nat)
    requires c > 0
    ensures (c * q + r) / c == q + r / c
  {
    assert r == c * (r / c) + r % c;
    assert c * (q + r / c) == c * q + c * (r / c);
    DivisionUnique(c * q + r, c, q + r / c, r % c);
  }

  lemma Shifted(x: nat)
    ensures x / 0x100 / 0x100 == x / 0x1_0000 && x / 0x100 / 0x100 / 0x100 == x / 0x100_0000
  {
  }

  // ----- the low 32 bits -----

  function Low(a: nat): uint32 {
    a % TWO32
  }

  /** M is 2 to a width of at least 32 bits. */
  ghost predicate Wide(m: nat) {
    m > 0 && m % TWO32 == 0
  }

  lemma WideEnough(m: nat)
    requires Wide(m)
    ensures m >= TWO32
  {
  }

  lemma {:induction false} WideWords(width: nat)
    requires width >= 32
    ensures Wide(Pow2(width))
    decreases width
  {
    if width == 32 {
      Pow2Of32();
    } else {
      WideWords(width - 1);
      Doubled(Pow2(width - 1));
    }
  }

  lemma Doubled(m: nat)
    requires Wide(m)
    ensures Wide(2 * m)
  {
    assert 2 * m == TWO32 * (2 * (m / TWO32));
  }

  lemma Pow2Of32()
    ensures Pow2(32) == TWO32
  {
    assert Pow2(8) == 0x100;
    assert Pow2(16) == 0x1_0000;
    assert Pow2(24) == 0x100_0000;
  }

  lemma LowOfWrapped(a: nat, m: nat)
    requires Wide(m)
    ensures Low(a % m) == Low(a)
  {
    var k, q := m / TWO32, a / m;
    assert a == m * q + a % m;
    assert m == TWO32 * k;
    MulAssociative(TWO32, k, q);
    LowOfSum(a % m, k * q);
  }

  lemma LowOfSum(a: nat, k: nat)
    ensures Low(a + TWO32 * k) == Low(a)
  {
    var q := a / TWO32;
    assert a == TWO32 * q + Low(a);
    DivisionUnique(a + TWO32 * k, TWO32, q + k, Low(a));
  }

  lemma AddLow(a: nat, b: nat, m: nat)
    requires Wide(m)
    ensures Low((a + b) % m) == (Low(a) + Low(b)) % TWO32
  {
    LowOfWrapped(a + b, m);
    var q, k := a / TWO32, b / TWO32;
    assert a == TWO32 * q + Low(a) && b == TWO32 * k + Low(b);
    LowOfSum(Low(a) + Low(b), q + k);
  }

  // ----- numbers in memory -----

  ghost function Power(k: nat): (n: nat)
    ensures n > 0
  {
    if k == 0 then 1 else 0x100 * Power(k - 1)
  }

  /** The k low-order bytes of a number, lowest first. */
  function LittleEndian(v: nat, k: nat): (b: Bytes)
    ensures |b| == k
  {
    if k == 0 then [] else [v % 0x100] + LittleEndian(v / 0x100, k - 1)
  }
}
