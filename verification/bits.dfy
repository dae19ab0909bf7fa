/** Arithmetic helpers shared by the model: bytes, powers of two, integer
    logarithms, the lowest set bit, rounding, and 32-bit wrap-around. */
module Bits {

  type byte = x: int | 0 <= x < 256

  /** Number of values of an unsigned 32-bit integer. */
  const U32_LIMIT: nat := 0x1_0000_0000

  /** Wrap-around addition on unsigned 32-bit values (erofs_blk_t). */
  function Add32(a: nat, b: nat): (r: nat)
    ensures r < U32_LIMIT
    ensures a + b < U32_LIMIT ==> r == a + b
  {
    (a + b) % U32_LIMIT
  }

  /** Wrap-around subtraction on unsigned 32-bit values. */
  function Sub32(a: nat, b: nat): (r: nat)
    requires a < U32_LIMIT && b < U32_LIMIT
    ensures r < U32_LIMIT
    ensures b <= a ==> r == a - b
  {
    if b <= a then a - b else a + U32_LIMIT - b
  }

  function Pow2(n: nat): (r: nat)
    ensures r >= 1
  {
    if n == 0 then 1 else 2 * Pow2(n - 1)
  }

  lemma {:induction false} Pow2Add(a: nat, b: nat)
    ensures Pow2(a + b) == Pow2(a) * Pow2(b)
  {
    if a > 0 {
      Pow2Add(a - 1, b);
      assert Pow2(a + b) == 2 * Pow2(a - 1 + b);
    }
  }

  lemma Pow2Split(total: nat, part: nat)
    requires part <= total
    ensures Pow2(total) == Pow2(total - part) * Pow2(part)
  {
    Pow2Add(total - part, part);
    assert total - part + part == total;
  }

  lemma {:induction false} Pow2Monotone(a: nat, b: nat)
    requires a <= b
    ensures Pow2(a) <= Pow2(b)
  {
    if a < b {
      Pow2Monotone(a, b - 1);
    }
  }

  /** Division and remainder are determined by any decomposition x = q*d + r. */
  lemma DivModUnique(x: nat, d: nat, q: nat, r: nat)
    requires d >= 1 && r < d && x == q * d + r
    ensures x / d == q && x % d == r
  {
    var q0, r0 := x / d, x % d;
    assert x == q0 * d + r0;
    if q0 > q {
      assert false by {
        MulAtLeast(q0 - q, d);
      }
    } else if q0 < q {
      assert false by {
        MulAtLeast(q - q0, d);
      }
    }
  }

  lemma MulAtLeast(k: nat, d: nat)
    requires k >= 1
    ensures k * d >= d
  {
  }

  lemma MulMod(k: nat, m: nat)
    requires m >= 1
    ensures (k * m) % m == 0 && (k * m) / m == k
  {
    DivModUnique(k * m, m, k, 0);
  }

  /** A smaller power of two divides a larger one. */
  lemma Pow2Divides(a: nat, b: nat)
    requires a <= b
    ensures Pow2(b) % Pow2(a) == 0
  {
    Pow2Add(b - a, a);
    MulMod(Pow2(b - a), Pow2(a));
  }

  /** Bitwise OR of two n-bit values. */
  function BitOr(a: nat, b: nat, n: nat): (r: nat)
    requires a < Pow2(n) && b < Pow2(n)
    ensures r < Pow2(n)
    ensures a <= r && b <= r
    ensures a == 0 ==> r == b
    ensures b == 0 ==> r == a
    decreases n
  {
    if n == 0 then 0
    else 2 * BitOr(a / 2, b / 2, n - 1) + (if a % 2 == 1 || b % 2 == 1 then 1 else 0)
  }

  /** h * d + v: the value v packed below the field h of width d. */
  function Pack(h: nat, v: nat, d: nat, n: nat): (r: nat)
    requires v < d
    ensures r / d == h && r % d == v
    ensures h < n ==> r < n * d
  {
    DivModUnique(h * d + v, d, h, v);
    PackBelow(h, v, d, n);
    h * d + v
  }

  lemma PackBelow(h: nat, v: nat, d: nat, n: nat)
    requires v < d
    ensures h < n ==> h * d + v < n * d
  {
    if h < n {
      MulMonotone(h + 1, n, d);
      Distribute(h, 1, d);
    }
  }

  /** Floor of the base-2 logarithm of a positive number. */
  function Ilog2(x: nat): (r: nat)
    requires x >= 1
    ensures Pow2(r) <= x < Pow2(r + 1)
  {
    if x == 1 then 0 else 1 + Ilog2(x / 2)
  }

  /** Number of trailing zero bits of a positive number. */
  function Tz(x: nat): (r: nat)
    requires x >= 1
    ensures x % Pow2(r) == 0
    ensures (x / Pow2(r)) % 2 == 1
  {
    if x % 2 == 1 then 0
    else
      var t := Tz(x / 2);
      DivDiv(x, 2, Pow2(t));
      DivOfDiv(x, 2, Pow2(t));
      t + 1
  }

  lemma DivDiv(x: nat, a: nat, b: nat)
    requires a >= 1 && b >= 1 && x % a == 0
    ensures (x / a) % b == 0 ==> x % (a * b) == 0
  {
    var q := x / a;
    assert x == q * a;
    if q % b == 0 {
      var s := q / b;
      assert q == s * b;
      assert x == s * (a * b) by {
        assert x == (s * b) * a;
      }
      MulMod(s, a * b);
    }
  }

  lemma DivOfDiv(x: nat, a: nat, b: nat)
    requires a >= 1 && b >= 1
    ensures x / a / b == x / (a * b)
  {
    var q, ra := x / a, x % a;
    DivNonneg(x, a);
    DivNonneg(q, b);
    var s, rb := q / b, q % b;
    assert x == q * a + ra;
    assert q == s * b + rb;
    Distribute(s * b, rb, a);
    MulRotate(s, b, a);
    assert x == s * (a * b) + (rb * a + ra);
    MulMonotone(rb, b - 1, a);
    Distribute(b - 1, 1, a);
    assert rb * a + ra < a * b;
    DivModUnique(x, a * b, s, rb * a + ra);
  }

  lemma MulRotate(x: nat, y: nat, z: nat)
    ensures (x * y) * z == x * (z * y)
  {
  }

  lemma Distribute(x: nat, y: nat, m: nat)
    ensures (x + y) * m == x * m + y * m
  {
  }

  lemma MulMonotone(x: nat, y: nat, m: nat)
    requires x <= y
    ensures x * m <= y * m
  {
  }

  /** The lowest set bit of x as a value (x & -x); zero for zero. */
  function Lowbit(x: nat): (r: nat)
  {
    if x == 0 then 0 else Pow2(Tz(x))
  }

  /** Any power of two no larger than the lowest set bit of x divides x. */
  lemma LowbitDivides(x: nat, a: nat)
    requires x >= 1 && Pow2(a) <= Lowbit(x)
    ensures x % Pow2(a) == 0
  {
    var t := Tz(x);
    if a > t {
      Pow2Monotone(t + 1, a);
      assert false;
    }
    Pow2Divides(a, t);
    ModTransitive(x, Pow2(a), Pow2(t));
  }

  lemma ModTransitive(x: nat, a: nat, b: nat)
    requires a >= 1 && b >= 1 && x % b == 0 && b % a == 0
    ensures x % a == 0
  {
    var p := x / b;
    var q := b / a;
    assert x == p * b;
    assert b == q * a;
    assert x == (p * q) * a by {
      assert p * b == p * (q * a);
    }
    MulMod(p * q, a);
  }

  /** Reducing modulo a multiple of d first does not change the remainder
      modulo d. */
  lemma ModOfMultiple(x: nat, m: nat, d: nat)
    requires d >= 1 && m >= 1 && m % d == 0
    ensures (x % m) % d == x % d
  {
    var k, r := x / m, x % m;
    var b := m / d;
    var s, t := r / d, r % d;
    assert x == k * m + r;
    assert r == s * d + t;
    assert m == b * d;
    assert k * m == (k * b) * d by {
      MulRotate(k, b, d);
    }
    Distribute(k * b, s, d);
    DivModUnique(x, d, k * b + s, t);
  }

  /** If 2^(a+b) divides x * 2^b then 2^a divides x. */
  lemma ShiftedDivides(x: nat, a: nat, b: nat)
    requires (x * Pow2(b)) % Pow2(a + b) == 0
    ensures x % Pow2(a) == 0
  {
    Pow2Add(a, b);
    ScaledDivides(x, Pow2(a), Pow2(b));
  }

  lemma ScaledDivides(x: nat, m: nat, s: nat)
    requires m >= 1 && s >= 1 && (x * s) % (m * s) == 0
    ensures x % m == 0
  {
    var q := DivExact(x * s, m * s);
    MulRotate(q, m, s);
    MulCancel(x, q * m, s);
    MulMod(q, m);
  }

  /** The quotient of an exact division. */
  lemma DivExact(x: nat, d: nat) returns (q: nat)
    requires d >= 1 && x % d == 0
    ensures x == q * d
  {
    DivNonneg(x, d);
    q := x / d;
  }

  lemma MulCancel(x: nat, y: nat, m: nat)
    requires m >= 1 && x * m == y * m
    ensures x == y
  {
    DivModUnique(x * m, m, x, 0);
    DivModUnique(y * m, m, y, 0);
  }

  /** The sum of two multiples of m is a multiple of m. */
  lemma ModAddAligned(a: nat, b: nat, m: nat)
    requires m >= 1 && a % m == 0 && b % m == 0
    ensures (a + b) % m == 0
  {
    var p, q := a / m, b / m;
    assert a + b == (p + q) * m;
    MulMod(p + q, m);
  }

  lemma MulLess(x: nat, y: nat, m: nat)
    requires x * m < y * m
    ensures x < y
  {
    if x >= y {
      MulMonotone(y, x, m);
    }
  }

  /** q*d <= x exactly when q <= x/d. */
  lemma DivLower(x: nat, d: nat, q: nat)
    requires d >= 1
    ensures q * d <= x <==> q <= x / d
  {
    var q0, r0 := x / d, x % d;
    if q <= q0 {
      MulMonotone(q, q0, d);
    } else {
      MulMonotone(q0 + 1, q, d);
    }
  }

  lemma DivNonneg(x: nat, d: nat)
    requires d >= 1
    ensures x / d >= 0 && 0 <= x % d < d
  {
  }

  /** x >> n on unsigned values. */
  function Shr(x: nat, n: nat): nat
  {
    DivNonneg(x, Pow2(n));
    x / Pow2(n)
  }

  /** x & ((1 << n) - 1): the low n bits. */
  function LowBits(x: nat, n: nat): nat
  {
    DivNonneg(x, Pow2(n));
    x % Pow2(n)
  }

  /** Shifting out zero low bits loses nothing. */
  lemma ShrExact(x: nat, n: nat)
    requires x % Pow2(n) == 0
    ensures Shr(x, n) * Pow2(n) == x
  {
    ShrSplit(x, n);
  }

  lemma ShrSplit(x: nat, n: nat)
    ensures x == Shr(x, n) * Pow2(n) + LowBits(x, n) && LowBits(x, n) < Pow2(n)
  {
    var p := Pow2(n);
    DivNonneg(x, p);
  }

  function CeilDiv(a: nat, b: nat): (r: nat)
    requires b >= 1
    ensures r * b >= a
    ensures a > 0 ==> (r - 1) * b < a
    ensures a == 0 ==> r == 0
  {
    (a + b - 1) / b
  }

  function RoundUp(a: nat, b: nat): (r: nat)
    requires b >= 1
    ensures r % b == 0 && a <= r < a + b
  {
    MulMod(CeilDiv(a, b), b);
    CeilDiv(a, b) * b
  }

  function Min(a: nat, b: nat): nat
  {
    if a < b then a else b
  }
}
