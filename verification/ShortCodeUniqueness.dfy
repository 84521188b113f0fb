/**
 Exactly when the generator keeps its promise of a unique code: collisions of numbers,
 and uniqueness over a window of as many consecutive identifiers as there are codes.
 */
module ShortCodeUniqueness {
  import opened Arithmetic
  import opened Digits
  import opened ShortCode
  import opened ShortCodeDecoder

  /** How many codes there are. */
  function CodeCount(p: Params): (n: nat)
    requires p.Valid()
    ensures n > 0
  {
    Pow(|p.chars|, p.l)
  }

  /** Two numbers share a code exactly when they agree modulo the number of codes. */
  lemma SharedCode(p: Params, x: nat, y: nat)
    requires p.Valid() && !Divides256(p) && Invertible(p)
    ensures CodeOfNumber(p, x) == CodeOfNumber(p, y) <==> x % CodeCount(p) == y % CodeCount(p)
  {
    DecodeOfCode(p, x);
    DecodeOfCode(p, y);
    SameDigits(x, y, |p.chars|, p.l);
  }

  /** Two identifiers, wherever they lie, collide exactly when their salted values agree modulo the number of codes. */
  lemma CollisionSet(p: Params, x: nat, y: nat)
    requires p.Valid() && !Divides256(p) && Invertible(p)
    ensures Code(p, x) == Code(p, y) <==> Enlarged(p, x) % CodeCount(p) == Enlarged(p, y) % CodeCount(p)
  {
    SharedCode(p, Enlarged(p, x), Enlarged(p, y));
  }

  // Collisions of a parameter set that is not invertible.

  function CodeOfDigits(p: Params, ds: seq<nat>): string
    requires p.Valid() && !Divides256(p) && |ds| == p.l
  {
    DivNat(|p.chars|, 256);
    Spelled(Shuffled(Mixed(ds, |p.chars|), p.n2), p.chars)
  }

  /** Different numbers below the number of codes with one code. */
  predicate Collide(p: Params, x: nat, y: nat)
    requires p.Valid() && !Divides256(p)
  {
    x < CodeCount(p) && y < CodeCount(p) && x != y && CodeOfNumber(p, x) == CodeOfNumber(p, y)
  }

  lemma DigitCollision(p: Params, dx: seq<nat>, dy: seq<nat>)
    requires p.Valid() && !Divides256(p)
    requires |dx| == |dy| == p.l && IsDigits(dx, |p.chars|) && IsDigits(dy, |p.chars|)
    requires dx != dy && CodeOfDigits(p, dx) == CodeOfDigits(p, dy)
    ensures Collide(p, Value(dx, |p.chars|), Value(dy, |p.chars|))
  {
    ValueBound(dx, |p.chars|);
    ValueBound(dy, |p.chars|);
    DigitsOfValue(dx, |p.chars|);
    DigitsOfValue(dy, |p.chars|);
  }

  function Zeros(l: nat): (s: seq<nat>)
    ensures |s| == l && forall i :: 0 <= i < l ==> s[i] == 0
  {
    seq(l, _ => 0)
  }

  lemma ZeroUnits(d: nat, i: nat, b: nat)
    requires b % 256 > 0
    ensures MixDigit(d, i, 0, b) == d % 256 % (b % 256)
  {
    assert (i % 256) * 0 == 0;
  }

  /** Digits that differ at k only, with one units symbol, mix alike away from k. */
  lemma MixedApart(dx: seq<nat>, dy: seq<nat>, b: nat, k: nat)
    requires |dx| == |dy| && k < |dx| && b % 256 > 0
    requires forall q :: 0 <= q < |dx| && q != k ==> dx[q] == dy[q]
    requires Units(dx, b) == Units(dy, b)
    ensures forall q :: 0 <= q < |dx| && q != k ==> Mixed(dx, b)[q] == Mixed(dy, b)[q]
    ensures MixDigit(dx[k], k, Units(dx, b), b) == MixDigit(dy[k], k, Units(dx, b), b) ==> Mixed(dx, b) == Mixed(dy, b)
  {
    var u := Units(dx, b);
    forall q | 0 <= q < |dx| && q != k ensures Mixed(dx, b)[q] == Mixed(dy, b)[q] {
      assert Mixed(dx, b)[q] == MixDigit(dx[q], q, u, b);
    }
  }

  lemma Unit256(b: nat)
    requires b % 256 > 0
    ensures 0 % 256 % (b % 256) == 0 && 256 % 256 % (b % 256) == 0
  {
  }

  /** With 257 characters or more, two values of the highest digit look alike. */
  lemma TooManyChars(p: Params) returns (x: nat, y: nat)
    requires p.Valid() && !Divides256(p) && |p.chars| > 256
    ensures Collide(p, x, y)
  {
    var b, k := |p.chars|, p.l - 1;
    var dx, dy := Zeros(p.l), Zeros(p.l)[k := 256];
    ZeroUnits(0, k, b);
    ZeroUnits(256, k, b);
    Unit256(b);
    assert dy[0] == 0 || dy[0] == 256;
    assert Units(dx, b) == Units(dy, b) == 0;
    MixedApart(dx, dy, b, k);
    assert dx[k] != dy[k];
    DigitCollision(p, dx, dy);
    x, y := Value(dx, b), Value(dy, b);
  }

  /** A repeated character spells two values of the highest digit alike. */
  lemma RepeatedChar(p: Params) returns (x: nat, y: nat)
    requires p.Valid() && !Divides256(p) && |p.chars| < 256 && !DistinctChars(p.chars)
    ensures Collide(p, x, y)
  {
    var b, k := |p.chars|, p.l - 1;
    var i, j :| 0 <= i < j < b && p.chars[i] == p.chars[j];
    var dx, dy := Zeros(p.l)[k := i], Zeros(p.l)[k := j];
    LastDigitShows(p.l, i, b);
    LastDigitShows(p.l, j, b);
    assert dx[k] != dy[k];
    var sx, sy := Mixed(dx, b), Mixed(dy, b);
    assert forall q :: 0 <= q < p.l ==> p.chars[sx[q]] == p.chars[sy[q]];
    assert CodeOfDigits(p, dx) == CodeOfDigits(p, dy);
    DigitCollision(p, dx, dy);
    x, y := Value(dx, b), Value(dy, b);
  }

  lemma LastDigitShows(l: nat, d: nat, b: nat)
    requires l > 0 && d < b < 256
    ensures Mixed(Zeros(l)[l - 1 := d], b) == Zeros(l)[l - 1 := d]
  {
    var ds := Zeros(l)[l - 1 := d];
    SmallMod(d, b);
    SmallMod(0, b);
    var u := Units(ds, b);
    forall q | 0 <= q < l ensures MixDigit(ds[q], q, u, b) == ds[q] {
      assert q == 0 || u == 0;
      assert (q % 256) * u == 0;
    }
  }

  lemma BoxAtZero(n2: int, l: nat)
    requires l % 256 > 0
    ensures PBox(0, n2, l) == 0
  {
    assert 0 * (n2 % 256) == 0;
  }

  /** Digits that differ only at a position the box never shows spell one code. */
  lemma UnseenDigit(p: Params, dx: seq<nat>, dy: seq<nat>, q: nat)
    requires p.Valid() && !Divides256(p) && |dx| == |dy| == p.l && q < p.l && !Shown(q, p.n2, p.l)
    requires Units(dx, |p.chars|) == Units(dy, |p.chars|)
    requires forall i :: 0 <= i < p.l && i != q ==> dx[i] == dy[i]
    ensures CodeOfDigits(p, dx) == CodeOfDigits(p, dy)
  {
    MixedApart(dx, dy, |p.chars|, q);
    var tx, ty := Shuffled(Mixed(dx, |p.chars|), p.n2), Shuffled(Mixed(dy, |p.chars|), p.n2);
    forall i | 0 <= i < p.l ensures tx[i] == ty[i] {
      assert PBox(i, p.n2, p.l) != q;
    }
    assert tx == ty;
  }

  /** A digit that the box never shows can take two values unnoticed. */
  lemma HiddenPosition(p: Params) returns (x: nat, y: nat)
    requires p.Valid() && !Divides256(p) && 1 < |p.chars| && !BoxCovers(p.n2, p.l)
    ensures Collide(p, x, y)
  {
    var q :| 0 <= q < p.l && !Shown(q, p.n2, p.l);
    BoxAtZero(p.n2, p.l);
    assert q != 0;
    var dx, dy := Zeros(p.l), Zeros(p.l)[q := 1];
    UnseenDigit(p, dx, dy, q);
    assert dx[q] != dy[q];
    DigitCollision(p, dx, dy);
    x, y := Value(dx, |p.chars|), Value(dy, |p.chars|);
  }

  /**
   A sum that can pass 255 in a base that does not divide 256: of the wrapped sums
   0, 1, ... one has the remainder of a sum that did not wrap.
   */
  lemma WrapCollision(c: nat, b: nat) returns (d: nat, e: nat)
    requires 0 < b < 256 && c < 256 < c + b && 256 % b != 0
    ensures d < b && e < b && d != e && (d + c) % 256 % b == (e + c) % 256 % b
  {
    var k := c + b - 256;
    var s := 256 % b;
    var r := if s + k > b then s + k - b else 0;
    // e + c is the one among the b sums c .. c + b - 1 with remainder r
    e := (r - c) % b;
    ModAddLeft(r - c, c, b);
    SmallMod(r, b);
    d := r + 256 - c;
    DivModUnique(d + c, 256, 1, r);
    if e + c >= 256 {
      var j := e + c - 256;
      ModAddLeft(256, j, b);
      assert (s + j) % b == r;
      if s + j < b {
        SmallMod(s + j, b);
      } else {
        DivModUnique(s + j, b, 1, s + j - b);
      }
      assert false;
    }
    DivModUnique(e + c, 256, 0, e + c);
  }

  lemma HarmfulWrap(p: Params) returns (x: nat, y: nat)
    requires p.Valid() && !Divides256(p) && |p.chars| < 256 && p.l < 256 && !NoHarmfulWrap(|p.chars|, p.l)
    ensures Collide(p, x, y)
  {
    var b := |p.chars|;
    var i, u :| 0 <= i < p.l && 0 <= u < b && Carry(i, u) + b > 256;
    var c := Carry(i, u);
    assert i > 0 by { assert 0 * u == 0; }
    var d, e := WrapCollision(c, b);
    var dx, dy := Zeros(p.l)[0 := u][i := d], Zeros(p.l)[0 := u][i := e];
    assert dx[i] != dy[i];
    SmallMod(u, b);
    assert Units(dx, b) == Units(dy, b) == u;
    CarriedMix(d, i, u, b);
    CarriedMix(e, i, u, b);
    MixedApart(dx, dy, b, i);
    DigitCollision(p, dx, dy);
    x, y := Value(dx, b), Value(dy, b);
  }

  /** More than one character and not invertible: some two numbers collide. */
  lemma NotInvertibleCollides(p: Params) returns (x: nat, y: nat)
    requires p.Valid() && !Divides256(p) && |p.chars| > 1 && !Invertible(p)
    ensures Collide(p, x, y)
  {
    if |p.chars| >= 256 {
      x, y := TooManyChars(p);
    } else if !DistinctChars(p.chars) {
      x, y := RepeatedChar(p);
    } else if !BoxCovers(p.n2, p.l) {
      x, y := HiddenPosition(p);
    } else {
      CoveredLength(p.n2, p.l);
      x, y := HarmfulWrap(p);
    }
  }

  /** The two loops lose nothing but the high quotient exactly for the invertible parameter sets. */
  lemma NothingLostIffInvertible(p: Params)
    requires p.Valid() && !Divides256(p) && |p.chars| > 1
    ensures Invertible(p) <==>
      forall x: nat, y: nat ::
        x < CodeCount(p) && y < CodeCount(p) && CodeOfNumber(p, x) == CodeOfNumber(p, y) ==> x == y
  {
    var w := CodeCount(p);
    if Invertible(p) {
      forall x: nat, y: nat | x < w && y < w && CodeOfNumber(p, x) == CodeOfNumber(p, y) ensures x == y {
        SharedCode(p, x, y);
        DivModUnique(x, w, 0, x);
        DivModUnique(y, w, 0, y);
      }
    } else {
      var x, y := NotInvertibleCollides(p);
    }
  }
}
