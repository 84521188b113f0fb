/**
 Integer facts behind the short-code generator: powers, congruence, the greatest
 common divisor with its Bezout coefficients, and cancellation modulo a power.
 */
module Arithmetic {

  function Pow(b: nat, n: nat): (r: nat)
    ensures b > 0 ==> r > 0
  {
    if n == 0 then 1 else MulPos(b, Pow(b, n - 1)); b * Pow(b, n - 1)
  }

  lemma MulPos(a: nat, b: nat)
    ensures a * b >= 0
    ensures a > 0 && b > 0 ==> a * b > 0
  {
  }

  lemma DivModUnique(a: int, m: int, q: int, r: int)
    requires m > 0 && 0 <= r < m && a == q * m + r
    ensures a / m == q && a % m == r
  {
    var d := a / m - q;
    assert d * m == r - a % m by {
      assert a == (a / m) * m + a % m;
      assert d * m == (a / m) * m - q * m;
    }
    if d > 0 {
      MulMono(1, d, m);
    } else if d < 0 {
      MulMono(d, -1, m);
    }
  }

  lemma DivNat(a: nat, m: nat)
    requires m > 0
    ensures a / m >= 0 && 0 <= a % m < m
  {
  }

  lemma MulMono(a: int, b: int, m: int)
    requires a <= b && m >= 0
    ensures a * m <= b * m
  {
  }

  /** Adding a multiple of the modulus does not change a remainder. */
  lemma ModShift(a: int, k: int, m: int)
    requires m > 0
    ensures (a + k * m) % m == a % m
  {
    var q, r := a / m, a % m;
    assert a + k * m == (q + k) * m + r;
    DivModUnique(a + k * m, m, q + k, r);
  }

  lemma Division(a: int, m: int)
    requires m > 0
    ensures a == (a / m) * m + a % m && 0 <= a % m < m
  {
  }

  /** Equal remainders and a difference that the modulus divides are the same thing. */
  lemma ModEqual(a: int, b: int, m: int)
    requires m > 0
    ensures a % m == b % m <==> (a - b) % m == 0
  {
    var q := (a - b) / m;
    if (a - b) % m == 0 {
      assert a == b + q * m;
      ModShift(b, q, m);
    }
    if a % m == b % m {
      assert a - b == 0 + (a / m - b / m) * m;
      ModShift(0, a / m - b / m, m);
    }
  }

  lemma ModMulLeft(a: int, k: int, m: int)
    requires m > 0
    ensures (k * a) % m == (k * (a % m)) % m
  {
    assert k * a == k * (a % m) + (k * (a / m)) * m by {
      assert a == (a / m) * m + a % m;
      assert k * ((a / m) * m) == (k * (a / m)) * m;
    }
    ModShift(k * (a % m), k * (a / m), m);
  }

  lemma ModAddLeft(a: int, c: int, m: int)
    requires m > 0
    ensures (a + c) % m == (a % m + c) % m
  {
    assert a + c == a % m + c + (a / m) * m;
    ModShift(a % m + c, a / m, m);
  }

  /** A remainder modulo a product, split into a low digit and the rest. */
  lemma ModOfProduct(m: int, b: int, p: int)
    requires b > 0 && p > 0
    ensures b * p > 0 && m % (b * p) == m % b + b * ((m / b) % p)
  {
    var hi, lo := m / b, m % b;
    var q, r := hi / p, hi % p;
    var v := lo + b * r;
    assert 0 <= v < b * p by {
      MulMono(0, r, b);
      MulMono(r + 1, p, b);
      assert (r + 1) * b == r * b + b;
    }
    assert m == q * (b * p) + v by {
      assert m == hi * b + lo && hi == q * p + r;
      assert hi * b == (q * p) * b + r * b;
      assert (q * p) * b == q * (b * p);
    }
    DivModUnique(m, b * p, q, v);
  }

  /** Euclid's algorithm. */
  function Gcd(a: nat, b: nat): (g: nat)
    ensures a > 0 || b > 0 ==> g > 0
    decreases b
  {
    if b == 0 then a else Gcd(b, a % b)
  }

  /** The combination q*b + r is a multiple of g when b and r are. */
  lemma DividesCombination(g: int, b: int, q: int, r: int)
    requires g > 0 && b % g == 0 && r % g == 0
    ensures (q * b + r) % g == 0
  {
    ModMulLeft(b, q, g);
    assert (q * b) % g == (q * 0) % g;
    ModAddLeft(q * b, r, g);
  }

  lemma {:induction false} GcdDivides(a: nat, b: nat)
    requires a > 0 || b > 0
    ensures a % Gcd(a, b) == 0 && b % Gcd(a, b) == 0
    decreases b
  {
    var g := Gcd(a, b);
    if b == 0 {
      DivModUnique(a, a, 1, 0);
    } else {
      var q, r := a / b, a % b;
      Division(a, b);
      GcdDivides(b, r);
      DividesCombination(g, b, q, r);
    }
  }

  lemma {:induction false} Bezout(a: nat, b: nat) returns (x: int, y: int)
    ensures a * x + b * y == Gcd(a, b)
    decreases b
  {
    if b == 0 {
      x, y := 1, 0;
    } else {
      var q, r := a / b, a % b;
      Division(a, b);
      var x', y' := Bezout(b, r);
      x, y := y', x' - q * y';
      BezoutStep(a, b, q, r, x', y');
    }
  }

  lemma BezoutStep(a: int, b: int, q: int, r: int, x: int, y: int)
    requires a == q * b + r
    ensures a * y + b * (x - q * y) == b * x + r * y
  {
    assert b * (x - q * y) == b * x - b * (q * y);
    assert b * (q * y) == (q * b) * y;
    assert a * y == (q * b) * y + r * y;
  }

  /** A combination of a and b that equals one leaves no common divisor but one. */
  lemma CombinationIsCoprime(a: nat, b: nat, x: int, y: int)
    requires a * x + b * y == 1
    ensures Gcd(a, b) == 1
  {
    assert a != 0 || b != 0;
    var g := Gcd(a, b);
    GcdDivides(a, b);
    DividesCombination(g, b, y, 0);
    DividesCombination(g, a, x, b * y);
    if g > 1 {
      DivModUnique(1, g, 0, 1);
    }
  }

  /** Being coprime to a base is being coprime to its powers. */
  lemma {:induction false} CoprimePower(n: nat, b: nat, l: nat) returns (x: int, y: int)
    requires Gcd(n, b) == 1
    ensures n * x + Pow(b, l) * y == 1
  {
    if l == 0 {
      x, y := 0, 1;
      assert n * x == 0;
    } else {
      var x1, y1 := Bezout(n, b);
      var x2, y2 := CoprimePower(n, b, l - 1);
      x, y := CombineUnits(n, b, Pow(b, l - 1), x1, y1, x2, y2);
    }
  }

  lemma CombineUnits(n: int, b: int, c: int, x1: int, y1: int, x2: int, y2: int) returns (x: int, y: int)
    requires n * x1 + b * y1 == 1 && n * x2 + c * y2 == 1
    ensures n * x + (b * c) * y == 1
  {
    x, y := x1 + b * y1 * x2, y1 * y2;
    calc {
      n * x + (b * c) * y;
      { assert n * (b * y1 * x2) == (b * y1) * (n * x2); }
      { assert n * x == n * x1 + n * (b * y1 * x2); }
      n * x1 + (b * y1) * (n * x2) + (b * c) * (y1 * y2);
      { assert (b * c) * (y1 * y2) == (b * y1) * (c * y2); }
      n * x1 + (b * y1) * (n * x2) + (b * y1) * (c * y2);
      { assert (b * y1) * (n * x2) + (b * y1) * (c * y2) == (b * y1) * (n * x2 + c * y2); }
      n * x1 + (b * y1) * (n * x2 + c * y2);
      n * x1 + (b * y1) * 1;
      1;
    }
  }

  /** n*u + m*v == 1 makes u an inverse of n modulo m. */
  lemma InverseTimes(n: int, u: int, m: int, v: int, t: int)
    requires n * u + m * v == 1
    ensures n * (u * t) == t + (-(v * t)) * m
  {
    assert n * (u * t) == (n * u) * t;
    assert (n * u) * t == (1 - m * v) * t;
    assert (1 - m * v) * t == t - (m * v) * t;
    assert (m * v) * t == (v * t) * m;
  }

  /** A unit modulo m reaches every residue. */
  lemma SolveCongruence(n: int, m: int, u: int, v: int, t: int) returns (d: nat)
    requires m > 0 && n * u + m * v == 1
    ensures d < m && (n * d) % m == t % m
  {
    d := (u * t) % m;
    InverseTimes(n, u, m, v, t);
    ModMulLeft(u * t, n, m);
    ModShift(t, -(v * t), m);
  }

  /** Cancellation: a unit modulo m can be dropped from a product that vanishes modulo m. */
  lemma CancelUnit(n: int, k: int, m: int, x: int, y: int)
    requires m > 0 && n * x + m * y == 1
    ensures (n * k) % m == 0 <==> k % m == 0
  {
    assert x * 0 == 0 == n * 0;
    ModMulLeft(k, n, m);
    CancelForward(n, k, m, x, y);
  }

  lemma CancelForward(n: int, k: int, m: int, x: int, y: int)
    requires m > 0 && n * x + m * y == 1
    ensures (n * k) % m == 0 ==> k % m == 0
  {
    var z := n * k;
    ModMulLeft(z, x, m);
    assert x * z == n * (x * k);
    InverseTimes(n, x, m, y, k);
    ModShift(k, -(y * k), m);
    assert x * 0 == 0;
  }
}
