// Integer arithmetic as JavaScript performs it: the bitwise operators first
// reduce their operands to 32 bits, and all but `>>>` give a signed result.
// Every operand here is a whole number below 2^53 in magnitude, where a
// double is exact.
module JsArithmetic {

  const TWO31 := 0x8000_0000
  const TWO32 := 0x1_0000_0000
  const TWO53 := 0x20_0000_0000_0000

  function ToUint32(x: int): (r: nat)
    ensures r < TWO32
  {
    x % TWO32
  }

  function ToInt32(x: int): (r: int)
    ensures -TWO31 <= r < TWO31
    ensures ToUint32(r) == ToUint32(x)
  {
    var u := ToUint32(x);
    if u < TWO31 then u else u - TWO32
  }

  function Pow2(k: nat): (r: nat)
    ensures r > 0
  {
    if k == 0 then 1 else 2 * Pow2(k - 1)
  }

  lemma DivNonNegative(a: nat, m: nat)
    requires m > 0
    ensures a / m >= 0
  {
  }

  // Bit by bit operations on unsigned values.

  function And(a: nat, b: nat): nat {
    if a == 0 || b == 0 then 0 else
    (if a % 2 == 1 && b % 2 == 1 then 1 else 0) + 2 * And(a / 2, b / 2)
  }

  function Or(a: nat, b: nat): nat
    decreases a + b
  {
    if a == 0 then b else if b == 0 then a
    else (if a % 2 + b % 2 > 0 then 1 else 0) + 2 * Or(a / 2, b / 2)
  }

  function Xor(a: nat, b: nat): nat
    decreases a + b
  {
    if a == 0 then b else if b == 0 then a
    else (if a % 2 != b % 2 then 1 else 0) + 2 * Xor(a / 2, b / 2)
  }

  // The JavaScript operators `&`, `|`, `^`, `<<`, `>>` and `>>>`.

  function BitAnd(x: int, y: int): int {
    ToInt32(And(ToUint32(x), ToUint32(y)))
  }

  function BitOr(x: int, y: int): int {
    ToInt32(Or(ToUint32(x), ToUint32(y)))
  }

  function BitXor(x: int, y: int): int {
    ToInt32(Xor(ToUint32(x), ToUint32(y)))
  }

  function Shl(x: int, k: nat): int {
    ToInt32(x * Pow2(k % 32))
  }

  function Shr(x: int, k: nat): int {
    ToInt32(x) / Pow2(k % 32)
  }

  function Ushr(x: int, k: nat): nat {
    DivNonNegative(ToUint32(x), Pow2(k % 32));
    ToUint32(x) / Pow2(k % 32)
  }

  // Facts about single bits and masks.

  lemma {:induction false} Pow2Adds(j: nat, k: nat)
    ensures Pow2(j + k) == Pow2(j) * Pow2(k)
  {
    if j > 0 {
      Pow2Adds(j - 1, k);
      assert Pow2(j + k) == 2 * Pow2(j - 1 + k);
    }
  }

  lemma Pow2Values()
    ensures Pow2(7) == 0x80 && Pow2(8) == 0x100 && Pow2(16) == 0x1_0000 && Pow2(24) == 0x100_0000
    ensures Pow2(31) == TWO31 && Pow2(32) == TWO32
  {
    assert Pow2(8) == 0x100;
    Pow2Adds(8, 8);
    Pow2Adds(8, 16);
    Pow2Adds(7, 24);
    Pow2Adds(16, 16);
  }

  lemma {:induction false} Pow2Monotone(j: nat, k: nat)
    requires j <= k
    ensures Pow2(j) <= Pow2(k)
  {
    if j < k {
      Pow2Monotone(j, k - 1);
    }
  }

  // Masking with 2^k - 1 keeps the k lowest bits.
  lemma {:induction false} AndLowMask(a: nat, k: nat)
    ensures And(a, Pow2(k) - 1) == a % Pow2(k)
  {
    if k == 0 {
      assert Pow2(k) == 1;
    } else if a == 0 {
      SmallMod(a, Pow2(k));
    } else {
      var p := Pow2(k - 1);
      AndLowMask(a / 2, k - 1);
      HalfMod(a, p);
    }
  }

  lemma HalfMod(a: nat, p: nat)
    requires p > 0
    ensures a % (2 * p) == a % 2 + 2 * ((a / 2) % p)
  {
    var h := a / 2;
    var q, r := h / p, h % p;
    assert h == p * q + r;
    assert q * (2 * p) == 2 * (p * q);
    ModUnique(a, 2 * p, q, 2 * r + a % 2);
  }

  lemma MulAtLeast(d: int, m: int)
    requires d >= 1 && m >= 0
    ensures d * m >= m
  {
  }

  lemma MulDistributes(a: int, b: int, m: int)
    ensures (a - b) * m == a * m - b * m
  {
  }

  // Quotient and remainder are determined by the division equation.
  lemma ModUnique(a: int, m: int, q: int, r: int)
    requires m > 0 && a == q * m + r && 0 <= r < m
    ensures a % m == r && a / m == q
  {
    var q', r' := a / m, a % m;
    assert a == m * q' + r' && m * q' == q' * m;
    assert (q - q') * m == q * m - q' * m == r' - r;
    if q > q' {
      MulAtLeast(q - q', m);
      assert false;
    } else if q < q' {
      MulAtLeast(q' - q, m);
      MulDistributes(q', q, m);
      assert false;
    }
  }

  // Masking an n-bit value with the n - k highest of its n bits clears the
  // k lowest bits.
  lemma {:induction false} AndHighMask(a: nat, k: nat, n: nat)
    requires k <= n && a < Pow2(n)
    ensures Pow2(k) <= Pow2(n)
    ensures And(a, Pow2(n) - Pow2(k)) == a - a % Pow2(k)
  {
    Pow2Monotone(k, n);
    if k == 0 {
      AndLowMask(a, n);
      SmallMod(a, Pow2(n));
    } else if k == n {
      SmallMod(a, Pow2(n));
    } else {
      hide And;
      AndHighMask(a / 2, k - 1, n - 1);
      HalfMod(a, Pow2(k - 1));
      AndEven(a, Pow2(n - 1) - Pow2(k - 1));
    }
  }

  lemma AndEven(a: nat, b: nat)
    ensures And(a, 2 * b) == 2 * And(a / 2, b)
  {
  }

  lemma SmallMod(a: int, m: int)
    requires 0 <= a < m
    ensures a % m == a && a / m == 0
  {
  }

  lemma SmallUint(x: int)
    requires 0 <= x < TWO32
    ensures ToUint32(x) == x
  {
  }

  // Combining disjoint bit ranges is addition.
  lemma {:induction false} OrDisjoint(a: nat, b: nat, k: nat)
    requires b < Pow2(k)
    ensures Or(a * Pow2(k), b) == a * Pow2(k) + b
  {
    if k == 0 {
      assert b == 0 && a * 1 == a;
    } else if a != 0 && b != 0 {
      var p := Pow2(k - 1);
      var x := a * Pow2(k);
      assert x == 2 * (a * p) && x > 0;
      assert x / 2 == a * p && x % 2 == 0;
      OrDisjoint(a, b / 2, k - 1);
    }
  }

  lemma {:induction false} XorBound(a: nat, b: nat, k: nat)
    requires a < Pow2(k) && b < Pow2(k)
    ensures Xor(a, b) < Pow2(k)
  {
    if a > 0 && b > 0 {
      XorBound(a / 2, b / 2, k - 1);
    }
  }

  lemma NestedMod(n: int, m: nat, c: nat)
    requires m > 0 && c > 0 && m * c > 0
    ensures (n % (m * c)) % m == n % m
  {
    var q, u := n / (m * c), n % (m * c);
    var p, r := u / m, u % m;
    Regroup(m, c, q, p, r);
    ModUnique(n, m, c * q + p, r);
  }

  lemma Regroup(m: int, c: int, q: int, p: int, r: int)
    ensures (m * c) * q + (m * p + r) == (c * q + p) * m + r
  {
    MulDistributes(c * q, -p, m);
  }
}
