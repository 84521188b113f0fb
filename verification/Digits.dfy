/** Positional notation, least significant digit first. */
module Digits {
  import opened Arithmetic

  predicate IsDigits(ds: seq<nat>, b: nat) {
    forall i :: 0 <= i < |ds| ==> ds[i] < b
  }

  /** The l lowest base-b digits of m. */
  function DigitsOf(m: nat, b: nat, l: nat): (ds: seq<nat>)
    requires b > 0
    ensures |ds| == l && IsDigits(ds, b)
    decreases l
  {
    if l == 0 then [] else
      DivNat(m, b);
      [m % b] + DigitsOf(m / b, b, l - 1)
  }

  function Value(ds: seq<nat>, b: nat): nat {
    if |ds| == 0 then 0 else MulPos(b, Value(ds[1..], b)); ds[0] + b * Value(ds[1..], b)
  }

  lemma {:induction false} ValueBound(ds: seq<nat>, b: nat)
    requires b > 0 && IsDigits(ds, b)
    ensures Value(ds, b) < Pow(b, |ds|)
  {
    if |ds| > 0 {
      ValueBound(ds[1..], b);
      HighDigitsBound(ds[0], Value(ds[1..], b), b, Pow(b, |ds| - 1));
    }
  }

  lemma HighDigitsBound(d: nat, v: nat, b: nat, p: nat)
    requires d < b && v < p
    ensures d + b * v < b * p
  {
    MulMono(v + 1, p, b);
    assert b * (v + 1) == b * v + b;
  }

  /** Reading digits back yields the number modulo the power of the base. */
  lemma {:induction false} ValueOfDigits(m: nat, b: nat, l: nat)
    requires b > 0
    ensures Value(DigitsOf(m, b, l), b) == m % Pow(b, l)
    decreases l
  {
    if l == 0 {
      DivModUnique(m, 1, m, 0);
    } else {
      DivNat(m, b);
      ValueOfDigits(m / b, b, l - 1);
      assert DigitsOf(m, b, l)[1..] == DigitsOf(m / b, b, l - 1);
      ModOfProduct(m, b, Pow(b, l - 1));
    }
  }

  lemma {:induction false} DigitsOfValue(ds: seq<nat>, b: nat)
    requires b > 0 && IsDigits(ds, b)
    ensures DigitsOf(Value(ds, b), b, |ds|) == ds
  {
    if |ds| > 0 {
      DivModUnique(Value(ds, b), b, Value(ds[1..], b), ds[0]);
      DigitsOfValue(ds[1..], b);
    }
  }

  /** Two numbers have the same l digits exactly when they agree modulo b^l. */
  lemma SameDigits(x: nat, y: nat, b: nat, l: nat)
    requires b > 0
    ensures DigitsOf(x, b, l) == DigitsOf(y, b, l) <==> x % Pow(b, l) == y % Pow(b, l)
  {
    ValueOfDigits(x, b, l);
    ValueOfDigits(y, b, l);
    DigitsOfValue(DigitsOf(x, b, l), b);
    DigitsOfValue(DigitsOf(y, b, l), b);
  }
}
