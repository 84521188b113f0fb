/** Every symbol of a code in closed form, without the loops. */
module ShortCodeForm {
  import opened Arithmetic
  import opened Common
  import opened Digits
  import opened ShortCode

  lemma DivOfDiv(m: nat, b: nat, p: nat)
    requires b > 0 && p > 0
    ensures b * p > 0 && m / b / p == m / (b * p)
  {
    var hi, lo := m / b, m % b;
    var q, r := hi / p, hi % p;
    Division(m, b);
    Division(hi, p);
    MulMono(r + 1, p, b);
    assert hi * b == q * (b * p) + r * b;
    MulPos(r, b);
    MulPos(b, p);
    DivModUnique(m, b * p, q, r * b + lo);
  }

  /** Digit q of a number by one division and one remainder. */
  lemma {:induction false} DigitAt(m: nat, b: nat, l: nat, q: nat)
    requires b > 0 && q < l
    ensures DigitsOf(m, b, l)[q] == m / Pow(b, q) % b
    decreases q
  {
    if q == 0 {
      assert m / 1 == m;
    } else {
      DivNat(m, b);
      DigitAt(m / b, b, l - 1, q - 1);
      DivOfDiv(m, b, Pow(b, q - 1));
    }
  }

  /** The place in the number that position i of the code shows. */
  function Place(i: nat, n2: int, l: nat): (q: int)
    requires l % 256 > 0
  {
    (i % 256) * (n2 % 256) % 256 % (l % 256)
  }

  lemma MixInPlace(d: nat, q: nat, u: nat, b: nat)
    requires q < 256 && b % 256 > 0
    ensures q * u >= 0 && MixDigit(d, q, u, b) == (d + q * u) % 256 % (b % 256)
  {
    MulPos(q, u);
    assert q % 256 == q;
    ModAddLeft(d, q * u, 256);
  }

  lemma DigitsInPlace(m: nat, b: nat, l: nat, q: nat)
    requires b % 256 > 0 && q < l && q < 256
    ensures var u := m % b % 256 % (b % 256);
      Mixed(DigitsOf(m, b, l), b)[q] == (m / Pow(b, q) % b + q * u) % 256 % (b % 256)
  {
    var ds := DigitsOf(m, b, l);
    DigitAt(m, b, l, q);
    assert ds[0] == m % b;
    MixInPlace(ds[q], q, Units(ds, b), b);
  }

  /**
   Position i of the code shows the digit of the salted identifier at its place, plus the
   place times the units digit, in bytes.
   */
  lemma SymbolAt(p: Params, id: nat, i: nat)
    requires p.Valid() && i < p.l && |p.chars| % 256 > 0 && p.l % 256 > 0
    ensures var b := |p.chars|; var q := Place(i, p.n2, p.l);
      var salted := (id * (p.n1 % 0x1_0000_0000_0000_0000) + p.salt) % 0x1_0000_0000_0000_0000;
      && 0 <= q < p.l
      && Code(p, id).Some? && |Code(p, id).value| == p.l
      && Code(p, id).value[i] ==
        p.chars[(salted / Pow(b, q) % b + q * (salted % b % 256 % (b % 256))) % 256 % (b % 256)]
  {
    var q, m := PBox(i, p.n2, p.l), Enlarged(p, id);
    assert q == Place(i, p.n2, p.l);
    DigitsInPlace(m, |p.chars|, p.l, q);
  }
}
