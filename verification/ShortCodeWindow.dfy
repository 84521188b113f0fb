/**
 Uniqueness of codes for consecutive identifiers, and the parameter checks that the
 comments on the options ask for.
 */
module ShortCodeWindow {
  import opened Common
  import opened Arithmetic
  import opened Digits
  import opened ShortCode
  import opened ShortCodeDecoder
  import opened ShortCodeUniqueness

  function Multiplier(p: Params): nat {
    p.n1 % TWO_TO_THE_64
  }

  /** Salted values differ by the multiplied distance, less 2^64 for every lap in between. */
  lemma EnlargedDifference(p: Params, x: nat, y: nat)
    ensures Enlarged(p, x) - Enlarged(p, y) == Multiplier(p) * (x - y) - TWO_TO_THE_64 * (Lap(p, x) - Lap(p, y))
  {
    var n, t := Multiplier(p), TWO_TO_THE_64;
    assert x * n + p.salt == Lap(p, x) * t + Enlarged(p, x);
    assert y * n + p.salt == Lap(p, y) * t + Enlarged(p, y);
    assert n * (x - y) == x * n - y * n;
  }

  /** A stretch of identifiers whose ends are in one lap is in one lap. */
  lemma LapBetween(p: Params, x: nat, y: nat, z: nat)
    requires x <= y <= z && Lap(p, x) == Lap(p, z)
    ensures Lap(p, y) == Lap(p, x)
  {
    var n, t := Multiplier(p), TWO_TO_THE_64;
    MulMono(x, y, n);
    MulMono(y, z, n);
    DivMono(x * n + p.salt, y * n + p.salt, t);
    DivMono(y * n + p.salt, z * n + p.salt, t);
  }

  lemma DivMono(a: int, b: int, m: int)
    requires m > 0 && a <= b
    ensures a / m <= b / m
  {
    var q := b / m;
    assert b < (q + 1) * m;
    if a / m > q {
      MulMono(q + 1, a / m, m);
    }
  }

  /** In one lap, with the multiplier coprime to the base, a shared code means congruent identifiers and conversely. */
  lemma SharedCodeInLap(p: Params, x: nat, y: nat)
    requires p.Valid() && !Divides256(p) && Invertible(p) && Gcd(Multiplier(p), |p.chars|) == 1
    requires Lap(p, x) == Lap(p, y)
    ensures Code(p, x) == Code(p, y) <==> x % CodeCount(p) == y % CodeCount(p)
  {
    var w := CodeCount(p);
    CollisionSet(p, x, y);
    EnlargedDifference(p, x, y);
    ModEqual(Enlarged(p, x), Enlarged(p, y), w);
    ModEqual(x, y, w);
    var u, v := CoprimePower(Multiplier(p), |p.chars|, p.l);
    CancelUnit(Multiplier(p), x - y, w, u, v);
  }

  ghost predicate UniqueFrom(p: Params, x: nat)
    requires p.Valid()
  {
    forall y: nat, z: nat ::
      x <= y < x + CodeCount(p) && x <= z < x + CodeCount(p) && Code(p, y) == Code(p, z) ==> y == z
  }

  /** Closer than the modulus and congruent is equal. */
  lemma CloseAndCongruent(y: int, z: int, m: int)
    requires m > 0 && y % m == z % m && -m < y - z < m
    ensures y == z
  {
    ModEqual(y, z, m);
    if y < z { DivModUnique(y - z, m, -1, y - z + m); }
    if y > z { DivModUnique(y - z, m, 0, y - z); }
  }

  lemma UniqueWhenSound(p: Params, x: nat)
    requires p.Valid() && !Divides256(p) && Invertible(p) && Gcd(Multiplier(p), |p.chars|) == 1
    requires Lap(p, x) == Lap(p, x + CodeCount(p) - 1)
    ensures UniqueFrom(p, x)
  {
    var w := CodeCount(p);
    forall y: nat, z: nat | x <= y < x + w && x <= z < x + w && Code(p, y) == Code(p, z) ensures y == z {
      LapBetween(p, x, y, x + w - 1);
      LapBetween(p, x, z, x + w - 1);
      SharedCodeInLap(p, y, z);
      CloseAndCongruent(y, z, w);
    }
  }

  /** An identifier of the window whose salted value has a wanted residue. */
  lemma SolveInWindow(p: Params, x: nat, m: nat) returns (y: nat)
    requires p.Valid() && Gcd(Multiplier(p), |p.chars|) == 1
    requires Lap(p, x) == Lap(p, x + CodeCount(p) - 1)
    ensures x <= y < x + CodeCount(p) && Enlarged(p, y) % CodeCount(p) == m % CodeCount(p)
  {
    var w, n := CodeCount(p), Multiplier(p);
    var u, v := CoprimePower(n, |p.chars|, p.l);
    var gap: int := m - Enlarged(p, x);
    var d := SolveCongruence(n, w, u, v, gap);
    y := x + d;
    LapBetween(p, x, y, x + w - 1);
    EnlargedDifference(p, y, x);
    ModAddLeft(n * d, Enlarged(p, x), w);
    ModAddLeft(gap, Enlarged(p, x), w);
  }

  /** A proper fraction of b^l that a multiplier with a divisor in common with b sends to a multiple of b^l. */
  lemma VanishingStep(n: nat, b: nat, l: nat) returns (step: nat, k: nat)
    requires b > 0 && l > 0 && Gcd(n, b) != 1
    ensures 0 < step < Pow(b, l) && n * step == k * Pow(b, l)
  {
    var g := Gcd(n, b);
    GcdDivides(n, b);
    Division(n, g);
    Division(b, g);
    k := n / g;
    step := ProperFraction(b / g, g, Pow(b, l - 1));
    assert (b / g) * g == b;
    assert (k * g) * step == k * (step * g);
  }

  lemma ProperFraction(f: int, g: int, rest: int) returns (step: int)
    requires g > 1 && f * g > 0 && rest > 0
    ensures step == f * rest && 0 < step < (f * g) * rest && step * g == (f * g) * rest
  {
    if f <= 0 { MulMono(f, 0, g); }
    step := f * rest;
    MulPos(f, rest);
    MulMono(2, g, step);
    assert step * g == (f * g) * rest;
  }

  /** A multiplier with a divisor in common with the base repeats a code within the window. */
  lemma CommonDivisorCollides(p: Params, x: nat) returns (y: nat)
    requires p.Valid() && !Divides256(p) && Gcd(Multiplier(p), |p.chars|) != 1
    requires Lap(p, x) == Lap(p, x + CodeCount(p) - 1)
    ensures x < y < x + CodeCount(p) && Code(p, x) == Code(p, y)
  {
    var step, k := VanishingStep(Multiplier(p), |p.chars|, p.l);
    y := x + step;
    LapBetween(p, x, y, x + CodeCount(p) - 1);
    EnlargedDifference(p, y, x);
    ModShift(Enlarged(p, x), k, CodeCount(p));
    SameDigits(Enlarged(p, x), Enlarged(p, y), |p.chars|, p.l);
  }

  /**
   The promise of a unique code, decided: over as many consecutive identifiers as there
   are codes, all in one lap, no two share a code exactly when the parameter set is
   invertible and its multiplier is coprime to the number of characters.
   */
  lemma UniqueIffSound(p: Params, x: nat)
    requires p.Valid() && !Divides256(p) && |p.chars| > 1
    requires Lap(p, x) == Lap(p, x + CodeCount(p) - 1)
    ensures UniqueFrom(p, x) <==> Invertible(p) && Gcd(Multiplier(p), |p.chars|) == 1
  {
    var w := CodeCount(p);
    if Gcd(Multiplier(p), |p.chars|) != 1 {
      var y := CommonDivisorCollides(p, x);
      assert Code(p, x) == Code(p, y);
    } else if Invertible(p) {
      UniqueWhenSound(p, x);
    } else {
      var a, b := NotInvertibleCollides(p);
      var y := SolveInWindow(p, x, a);
      var z := SolveInWindow(p, x, b);
      DivModUnique(a, w, 0, a);
      DivModUnique(b, w, 0, b);
      SameDigits(Enlarged(p, y), a, |p.chars|, p.l);
      SameDigits(Enlarged(p, z), b, |p.chars|, p.l);
      assert Code(p, y) == Code(p, z) && y != z;
    }
  }

  /** Such a window uses every string of the code length over the characters. */
  lemma WindowFillsCodes(p: Params, x: nat, code: string) returns (y: nat)
    requires p.Valid() && !Divides256(p) && Invertible(p) && Gcd(Multiplier(p), |p.chars|) == 1
    requires Lap(p, x) == Lap(p, x + CodeCount(p) - 1)
    requires IsCode(p, code)
    ensures x <= y < x + CodeCount(p) && Code(p, y) == Some(code)
  {
    y := SolveInWindow(p, x, Decode(p, code));
    SharedCode(p, Enlarged(p, y), Decode(p, code));
    CodeOfDecode(p, code);
  }

  /** The first identifier of the next lap. */
  lemma FirstOfNextLap(p: Params, x: nat, z: nat) returns (c: nat)
    requires x <= z && Lap(p, z) == Lap(p, x) + 1
    ensures x < c <= z && Lap(p, c - 1) == Lap(p, x) && Lap(p, c) == Lap(p, x) + 1
    decreases z - x
  {
    if Lap(p, x + 1) == Lap(p, x) {
      c := FirstOfNextLap(p, x + 1, z);
    } else {
      LapMono(p, x, x + 1);
      LapMono(p, x + 1, z);
      c := x + 1;
    }
  }

  lemma LapMono(p: Params, x: nat, y: nat)
    requires x <= y
    ensures Lap(p, x) <= Lap(p, y)
  {
    var n := Multiplier(p);
    MulMono(x, y, n);
    DivMono(x * n + p.salt, y * n + p.salt, TWO_TO_THE_64);
  }

  /** When the number of codes divides 2^64, laps do not matter. */
  lemma LapsHarmless(p: Params, y: nat, z: nat)
    requires p.Valid() && !Divides256(p) && Invertible(p) && Gcd(Multiplier(p), |p.chars|) == 1
    requires TWO_TO_THE_64 % CodeCount(p) == 0 && Code(p, y) == Code(p, z)
    ensures y % CodeCount(p) == z % CodeCount(p)
  {
    var w, n, k := CodeCount(p), Multiplier(p), Lap(p, z) - Lap(p, y);
    CollisionSet(p, y, z);
    EnlargedDifference(p, z, y);
    ModEqual(Enlarged(p, z), Enlarged(p, y), w);
    WholeLaps(Enlarged(p, z) - Enlarged(p, y), k, TWO_TO_THE_64, w);
    var u, v := CoprimePower(n, |p.chars|, p.l);
    CancelUnit(n, z - y, w, u, v);
    ModEqual(z, y, w);
  }

  lemma WholeLaps(a: int, k: int, t: nat, w: nat)
    requires w > 0 && t % w == 0
    ensures (a + t * k) % w == a % w
  {
    var q := t / w;
    assert t * k == (q * k) * w by {
      assert t == q * w;
    }
    ModShift(a, q * k, w);
  }

  /** Then codes are unique over every window, however many multiples of 2^64 it passes. */
  lemma UniqueWhenDividing(p: Params, x: nat)
    requires p.Valid() && !Divides256(p) && Invertible(p) && Gcd(Multiplier(p), |p.chars|) == 1
    requires TWO_TO_THE_64 % CodeCount(p) == 0
    ensures UniqueFrom(p, x)
  {
    var w := CodeCount(p);
    forall y: nat, z: nat | x <= y < x + w && x <= z < x + w && Code(p, y) == Code(p, z) ensures y == z {
      LapsHarmless(p, y, z);
      CloseAndCongruent(y, z, w);
    }
  }

  /** The distance at which a lap repeats the residues of the lap before. */
  lemma LapShift(n: nat, w: nat, t: nat, u: int, v: int) returns (d: nat)
    requires w > 0 && n * u + w * v == 1 && t % w != 0
    ensures 0 < d < w && (n * d) % w == t % w
  {
    d := SolveCongruence(n, w, u, v, t);
    assert d == 0 ==> n * d == 0;
  }

  lemma LapCollision(p: Params, x: nat) returns (y: nat, z: nat)
    requires p.Valid() && !Divides256(p) && Invertible(p) && Gcd(Multiplier(p), |p.chars|) == 1
    requires Lap(p, x + CodeCount(p) - 1) == Lap(p, x) + 1 && TWO_TO_THE_64 % CodeCount(p) != 0
    ensures x <= y < z < x + CodeCount(p) && Code(p, y) == Code(p, z)
  {
    var w, n, t := CodeCount(p), Multiplier(p), TWO_TO_THE_64;
    var u, v := CoprimePower(n, |p.chars|, p.l);
    var c := FirstOfNextLap(p, x, x + w - 1);
    var d := LapShift(n, w, t, u, v);
    y := if c - d >= x then c - d else x;
    z := y + d;
    LapBetween(p, x, y, c - 1);
    LapBetween(p, c, z, x + w - 1);
    EnlargedDifference(p, z, y);
    ModEqual(n * d, t, w);
    ModEqual(Enlarged(p, z), Enlarged(p, y), w);
    CollisionSet(p, y, z);
  }

  /**
   Where a window passes exactly one multiple of 2^64, a sound parameter set still gives
   unique codes exactly when the number of codes divides 2^64, that is, only for a base that
   is a power of two. With the default thirty characters such a window repeats a code.
   */
  lemma UniqueAcrossLapIffPowerOfTwo(p: Params, x: nat)
    requires p.Valid() && !Divides256(p) && Invertible(p) && Gcd(Multiplier(p), |p.chars|) == 1
    requires Lap(p, x + CodeCount(p) - 1) == Lap(p, x) + 1
    ensures UniqueFrom(p, x) <==> TWO_TO_THE_64 % CodeCount(p) == 0
  {
    if TWO_TO_THE_64 % CodeCount(p) == 0 {
      UniqueWhenDividing(p, x);
    } else {
      var y, z := LapCollision(p, x);
      assert Code(p, y) == Code(p, z);
    }
  }

  lemma CountsDown(p: Params, y: nat)
    requires Multiplier(p) == TWO_TO_THE_64 - 1 && y <= p.salt
    ensures Enlarged(p, y) == p.salt - y && Lap(p, y) == y
  {
    assert y * Multiplier(p) + p.salt == y * TWO_TO_THE_64 + (p.salt - y);
    DivModUnique(y * Multiplier(p) + p.salt, TWO_TO_THE_64, y, p.salt - y);
  }

  /**
   With more multiples in the window the converse fails: the multiplier -1 passes one at
   every identifier and just counts down, with unique codes for any number of codes.
   */
  lemma CountingDownStaysUnique(p: Params, x: nat)
    requires p.Valid() && !Divides256(p) && Invertible(p) && Multiplier(p) == TWO_TO_THE_64 - 1
    requires x + CodeCount(p) - 1 <= p.salt
    ensures Lap(p, x + CodeCount(p) - 1) == Lap(p, x) + CodeCount(p) - 1 && UniqueFrom(p, x)
  {
    var w := CodeCount(p);
    CountsDown(p, x);
    CountsDown(p, x + w - 1);
    forall y: nat, z: nat | x <= y < x + w && x <= z < x + w && Code(p, y) == Code(p, z) ensures y == z {
      CollisionSet(p, y, z);
      CountsDown(p, y);
      CountsDown(p, z);
      ModEqual(p.salt - z, p.salt - y, w);
      ModEqual(y, z, w);
      CloseAndCongruent(y, z, w);
    }
  }

  lemma ThirtyToTheEighth()
    ensures Pow(30, 8) == 656100000000
  {
    assert Pow(30, 3) == 27000;
    assert Pow(30, 6) == 729000000;
  }

  /** Two identifiers less than the number of codes apart that the default settings give one code. */
  lemma DefaultLapCollision()
    ensures DEFAULT_PARAMS.Valid() && !Divides256(DEFAULT_PARAMS)
    ensures Code(DEFAULT_PARAMS, 1085102177286848979) == Code(DEFAULT_PARAMS, 1085102592563881427)
    ensures 1085102592563881427 - 1085102177286848979 < CodeCount(DEFAULT_PARAMS)
  {
    var p := DEFAULT_PARAMS;
    DefaultsAreSound();
    ThirtyToTheEighth();
    var x, y := 1085102177286848979, 1085102592563881427;
    assert Enlarged(p, x) == 18446737014000000012;
    assert Enlarged(p, y) == 12;
    CollisionSet(p, x, y);
    assert 18446737014000000012 % 656100000000 == 12;
  }

  // The checks that the option comments name.

  /** A multiplier coprime to l reaches every residue. */
  lemma ResidueReached(n2: nat, l: nat, q: nat) returns (i: nat)
    requires q < l && Gcd(n2, l) == 1
    ensures i < l && (n2 * i) % l == q
  {
    var x, y := Bezout(n2, l);
    i := SolveCongruence(n2, l, x, y, q);
    DivModUnique(q, l, 0, q);
  }

  lemma OneReachedIsCoprime(n2: nat, l: nat, i: nat)
    requires 1 < l && (n2 * i) % l == 1
    ensures Gcd(n2, l) == 1
  {
    var k := (n2 * i) / l;
    assert l * (-k) == -(k * l);
    CombinationIsCoprime(n2, l, i, -k);
  }

  /** With no byte wrapping in the box, it covers every position exactly when n2 and l are coprime. */
  lemma BoxCoversIffCoprime(n2: nat, l: nat)
    requires 0 < l < 256 && (l - 1) * n2 <= 255
    ensures BoxCovers(n2, l) <==> Gcd(n2, l) == 1
  {
    if Gcd(n2, l) == 1 {
      forall q | 0 <= q < l ensures Shown(q, n2, l) {
        var i := ResidueReached(n2, l, q);
        BoxWithoutWrap(i, n2, l);
      }
    }
    if BoxCovers(n2, l) {
      if l == 1 {
        Gcd1(n2);
      } else {
        assert Shown(1, n2, l);
        var i :| 0 <= i < l && PBox(i, n2, l) == 1;
        BoxWithoutWrap(i, n2, l);
        OneReachedIsCoprime(n2, l, i);
      }
    }
  }

  lemma Gcd1(n: nat)
    ensures Gcd(n, 1) == 1
  {
    assert n % 1 == 0;
  }

  lemma BoxWithoutWrap(i: nat, n2: nat, l: nat)
    requires i < l < 256 && (l - 1) * n2 <= 255
    ensures PBox(i, n2, l) == (n2 * i) % l
  {
    MulMono(i, l - 1, n2);
    MulPos(i, n2);
    if l == 1 {
      assert i == 0 && n2 * i == 0 && 0 * (n2 % 256) == 0;
    } else {
      MulMono(1, l - 1, n2);
      assert n2 % 256 == n2 && i % 256 == i && (i * n2) % 256 == i * n2;
    }
  }

  /** l * (b - 1) at most 255 keeps the diffusion within a byte. */
  lemma NoWrapWhenShort(b: nat, l: nat)
    requires b > 0 && l * (b - 1) <= 255
    ensures NoHarmfulWrap(b, l)
  {
    forall i, u | 0 <= i < l && 0 <= u < b ensures Carry(i, u) + b <= 256 {
      MulMono(i, l - 1, u);
      MulMono(u, b - 1, l - 1);
      assert (l - 1) * (b - 1) == l * (b - 1) - (b - 1);
      MulPos(i, u);
      DivModUnique(i * u, 256, 0, i * u);
    }
  }

  /** The documented side conditions are enough. */
  lemma DocumentedConditionsSuffice(p: Params)
    requires p.Valid() && |p.chars| < 256 && p.l < 256 && DistinctChars(p.chars) && p.n2 >= 0
    requires p.l * (|p.chars| - 1) <= 255 && (p.l - 1) * p.n2 <= 255 && Gcd(p.n2, p.l) == 1
    ensures !Divides256(p) && Invertible(p)
  {
    NoWrapWhenShort(|p.chars|, p.l);
    BoxCoversIffCoprime(p.n2, p.l);
  }

  /** The characters of the default set, in ascending order. */
  lemma BaseCharsAscend(i: nat)
    requires i < 30
    ensures |BASE_CHARS| == 30
    ensures BASE_CHARS[i] as int ==
      i + (if i < 8 then 50 else if i < 16 then 57 else if i < 21 then 58 else if i < 26 then 59 else 60)
  {
  }

  lemma DefaultsAreSound()
    ensures DEFAULT_PARAMS.Valid() && !Divides256(DEFAULT_PARAMS) && Invertible(DEFAULT_PARAMS)
    ensures |DEFAULT_PARAMS.chars| == 30 && Gcd(Multiplier(DEFAULT_PARAMS), 30) == 1
  {
    forall i, j | 0 <= i < j < |BASE_CHARS| ensures BASE_CHARS[i] != BASE_CHARS[j] {
      BaseCharsAscend(i);
      BaseCharsAscend(j);
    }
    BaseCharsAscend(0);
    assert Gcd(5, 8) == Gcd(8, 5) == Gcd(5, 3) == Gcd(3, 2) == Gcd(2, 1) == Gcd(1, 0) == 1;
    assert Gcd(17, 30) == Gcd(30, 17) == Gcd(17, 13) == Gcd(13, 4) == Gcd(4, 1) == Gcd(1, 0) == 1;
    DocumentedConditionsSuffice(DEFAULT_PARAMS);
  }
}
