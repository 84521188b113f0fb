/**
 Undoing the short-code generator. When a parameter set is invertible, a decoder reads
 back everything but the high quotient of the salted identifier, and every string of the
 right length over the character set is the code of some number.
 */
module ShortCodeDecoder {
  import opened Arithmetic
  import opened Digits
  import opened ShortCode

  predicate DistinctChars(chars: string) {
    forall i, j :: 0 <= i < j < |chars| ==> chars[i] != chars[j]
  }

  /** What the units digit u adds to digit i, as a byte. */
  function Carry(i: nat, u: nat): (c: nat)
    ensures c < 256
  {
    MulPos(i, u); i * u % 256
  }

  /** No byte wraps when a digit and its carry are added, or wrapping does no harm. */
  predicate NoHarmfulWrap(b: nat, l: nat)
    requires b > 0
  {
    256 % b == 0 || forall i, u :: 0 <= i < l && 0 <= u < b ==> Carry(i, u) + b <= 256
  }

  predicate Shown(q: nat, n2: int, l: nat)
    requires l % 256 > 0
  {
    exists i :: 0 <= i < l && PBox(i, n2, l) == q
  }

  /** The permutation box shows every position. */
  predicate BoxCovers(n2: int, l: nat)
    requires l % 256 > 0
  {
    forall q :: 0 <= q < l ==> Shown(q, n2, l)
  }

  /** What a caller can check of a parameter set before asking for codes. */
  predicate Invertible(p: Params)
    requires p.Valid() && !Divides256(p)
  {
    && |p.chars| < 256
    && DistinctChars(p.chars)
    && NoHarmfulWrap(|p.chars|, p.l)
    && BoxCovers(p.n2, p.l)
  }

  function IndexOf(chars: string, c: char): (k: nat)
    requires c in chars
    ensures k < |chars| && chars[k] == c
  {
    if chars[0] == c then 0 else 1 + IndexOf(chars[1..], c)
  }

  /** The first position that shows digit q. */
  function Source(q: nat, n2: int, l: nat): (k: nat)
    requires l % 256 > 0 && Shown(q, n2, l)
    ensures k < l && PBox(k, n2, l) == q
  {
    SourceFrom(q, n2, l, 0)
  }

  function SourceFrom(q: nat, n2: int, l: nat, i: nat): (k: nat)
    requires l % 256 > 0 && i <= l
    requires exists j :: i <= j < l && PBox(j, n2, l) == q
    ensures k < l && PBox(k, n2, l) == q
    decreases l - i
  {
    if PBox(i, n2, l) == q then i else SourceFrom(q, n2, l, i + 1)
  }

  predicate IsCode(p: Params, code: string) {
    |code| == p.l && forall i :: 0 <= i < |code| ==> code[i] in p.chars
  }

  function Unshuffled(p: Params, code: string): (s: seq<nat>)
    requires p.Valid() && !Divides256(p) && Invertible(p) && IsCode(p, code)
    ensures |s| == p.l
    ensures forall q :: 0 <= q < p.l ==>
      Shown(q, p.n2, p.l) && s[q] < |p.chars| && p.chars[s[q]] == code[Source(q, p.n2, p.l)]
  {
    seq(p.l, q requires 0 <= q < p.l => IndexOf(p.chars, code[Source(q, p.n2, p.l)]))
  }

  function Unmixed(s: seq<nat>, b: nat): (ds: seq<nat>)
    requires |s| > 0 && b > 0
    ensures |ds| == |s| && IsDigits(ds, b)
    ensures forall i :: 0 <= i < |s| ==> ds[i] == (s[i] - Carry(i, s[0])) % b
  {
    seq(|s|, i requires 0 <= i < |s| => (s[i] - Carry(i, s[0])) % b)
  }

  /** The decoder. */
  function Decode(p: Params, code: string): (m: nat)
    requires p.Valid() && !Divides256(p) && Invertible(p) && IsCode(p, code)
    ensures m < Pow(|p.chars|, p.l)
  {
    var ds := Unmixed(Unshuffled(p, code), |p.chars|);
    ValueBound(ds, |p.chars|);
    Value(ds, |p.chars|)
  }

  lemma CarriedMix(d: nat, i: nat, u: nat, b: nat)
    requires 0 < b < 256 && i < 256
    ensures MixDigit(d, i, u, b) == (d + Carry(i, u)) % 256 % b
  {
    MulPos(i, u);
    assert i % 256 == i;
    assert MixDigit(d, i, u, b) == (d % 256 + i * u) % 256 % b;
    ModAddLeft(d, i * u, 256);
    ModAddLeft(i * u, d, 256);
  }

  /** Wrapping at 256 does not change a remainder by a divisor of 256. */
  lemma WrapByDivisor(x: nat, b: nat)
    requires 0 < b && 256 % b == 0
    ensures x % 256 % b == x % b
  {
    var q, r, f := x / 256, x % 256, 256 / b;
    Division(256, b);
    assert q * (f * b) == (q * f) * b;
    ModShift(r, q * f, b);
  }

  lemma FitsByte(d: nat, c: nat, b: nat)
    requires d < b && c + b <= 256
    ensures (d + c) % 256 == d + c
  {
  }

  /** Mixing is addition modulo the base whenever wrapping is harmless. */
  lemma MixIsAddition(d: nat, i: nat, u: nat, b: nat, l: nat)
    requires 0 < b < 256 && d < b && u < b && i < l && NoHarmfulWrap(b, l) && l <= 256
    ensures MixDigit(d, i, u, b) == (d + Carry(i, u)) % b
  {
    CarriedMix(d, i, u, b);
    if 256 % b == 0 {
      WrapByDivisor(d + Carry(i, u), b);
    } else {
      FitsByte(d, Carry(i, u), b);
    }
  }

  lemma MixInverse(d: nat, i: nat, u: nat, b: nat, l: nat)
    requires 0 < b < 256 && d < b && u < b && i < l && NoHarmfulWrap(b, l) && l <= 256
    ensures (MixDigit(d, i, u, b) - Carry(i, u)) % b == d
  {
    var c: int := Carry(i, u);
    MixIsAddition(d, i, u, b, l);
    ModAddLeft(d + c, -c, b);
    DivModUnique(d, b, 0, d);
  }

  lemma UnmixInverse(s: nat, i: nat, u: nat, b: nat, l: nat)
    requires 0 < b < 256 && s < b && u < b && i < l && NoHarmfulWrap(b, l) && l <= 256
    ensures MixDigit((s - Carry(i, u)) % b, i, u, b) == s
  {
    var c := Carry(i, u);
    MixIsAddition((s - c) % b, i, u, b, l);
    ModAddLeft(s - c, c, b);
    DivModUnique(s, b, 0, s);
  }

  /** A box that shows every position has at most 255 of them. */
  lemma CoveredLength(n2: int, l: nat)
    requires l % 256 > 0 && BoxCovers(n2, l)
    ensures l < 256
  {
    assert Shown(l - 1, n2, l);
  }

  lemma UnmixOfMixed(ds: seq<nat>, b: nat)
    requires 0 < |ds| < 256 && 0 < b < 256 && IsDigits(ds, b) && NoHarmfulWrap(b, |ds|)
    ensures Unmixed(Mixed(ds, b), b) == ds
  {
    var s := Mixed(ds, b);
    var u := Units(ds, b);
    assert u == ds[0] == s[0] by { SmallMod(ds[0], b); }
    forall i | 0 <= i < |ds| ensures Unmixed(s, b)[i] == ds[i] {
      MixInverse(ds[i], i, u, b, |ds|);
    }
  }

  lemma MixOfUnmixed(s: seq<nat>, b: nat)
    requires 0 < |s| < 256 && 0 < b < 256 && IsDigits(s, b) && NoHarmfulWrap(b, |s|)
    ensures Mixed(Unmixed(s, b), b) == s
  {
    var ds := Unmixed(s, b);
    SmallMod(s[0], b);
    assert ds[0] == s[0];
    forall i | 0 <= i < |s| ensures Mixed(ds, b)[i] == s[i] {
      UnmixInverse(s[i], i, s[0], b, |s|);
    }
  }

  lemma SmallMod(d: nat, b: nat)
    requires d < b < 256
    ensures d % 256 % (b % 256) == d && d % b == d && Carry(0, d) == 0
  {
    DivModUnique(d, b, 0, d);
  }

  lemma SpelledIsCode(p: Params, m: nat)
    requires p.Valid() && !Divides256(p)
    ensures IsCode(p, CodeOfNumber(p, m))
  {
  }

  /** The decoder recovers the number's residue from its code. */
  lemma DecodeOfCode(p: Params, m: nat)
    requires p.Valid() && !Divides256(p) && Invertible(p)
    ensures IsCode(p, CodeOfNumber(p, m))
    ensures Decode(p, CodeOfNumber(p, m)) == m % Pow(|p.chars|, p.l)
  {
    var b, l := |p.chars|, p.l;
    CoveredLength(p.n2, l);
    var ds := DigitsOf(m, b, l);
    var s := Mixed(ds, b);
    var code := CodeOfNumber(p, m);
    SpelledIsCode(p, m);
    forall q | 0 <= q < l ensures Unshuffled(p, code)[q] == s[q] {
      assert Shown(q, p.n2, l);
      var k := Source(q, p.n2, l);
      assert code[k] == p.chars[s[q]];
    }
    assert Unshuffled(p, code) == s;
    UnmixOfMixed(ds, b);
    ValueOfDigits(m, b, l);
  }

  /** Every string of the right length over the character set is a code. */
  lemma CodeOfDecode(p: Params, code: string)
    requires p.Valid() && !Divides256(p) && Invertible(p) && IsCode(p, code)
    ensures CodeOfNumber(p, Decode(p, code)) == code
  {
    var b, l := |p.chars|, p.l;
    CoveredLength(p.n2, l);
    var s := Unshuffled(p, code);
    var ds := Unmixed(s, b);
    DigitsOfValue(ds, b);
    MixOfUnmixed(s, b);
    BoxInjective(p.n2, l);
    forall i | 0 <= i < l ensures CodeOfNumber(p, Decode(p, code))[i] == code[i] {
      var q := PBox(i, p.n2, l);
      assert Shown(q, p.n2, l);
      var k := Source(q, p.n2, l);
      assert k == i;
    }
  }

  function Below(l: nat): (s: set<nat>)
    ensures forall k: nat :: k in s <==> k < l
  {
    if l == 0 then {} else Below(l - 1) + {l - 1}
  }

  lemma {:induction false} BelowSize(l: nat)
    ensures |Below(l)| == l
  {
    if l > 0 {
      BelowSize(l - 1);
    }
  }

  function Image(s: set<nat>, n2: int, l: nat): set<nat>
    requires l % 256 > 0
  {
    set k | k in s :: PBox(k, n2, l)
  }

  lemma {:induction false} ImageSize(s: set<nat>, n2: int, l: nat)
    requires l % 256 > 0
    ensures |Image(s, n2, l)| <= |s|
    decreases |s|
  {
    if s != {} {
      var k :| k in s;
      ImageSize(s - {k}, n2, l);
      assert Image(s, n2, l) == Image(s - {k}, n2, l) + {PBox(k, n2, l)};
    }
  }

  /** A box from l positions onto l positions shows none of them twice. */
  lemma BoxInjective(n2: int, l: nat)
    requires l % 256 > 0 && BoxCovers(n2, l)
    ensures forall i, j :: 0 <= i < l && 0 <= j < l && PBox(i, n2, l) == PBox(j, n2, l) ==> i == j
  {
    forall i, j | 0 <= i < l && 0 <= j < l && PBox(i, n2, l) == PBox(j, n2, l)
      ensures i == j
    {
      if i != j {
        var rest := Below(l) - {j};
        forall q | q in Below(l) ensures q in Image(rest, n2, l) {
          assert Shown(q, n2, l);
          var k :| 0 <= k < l && PBox(k, n2, l) == q;
          assert PBox(if k == j then i else k, n2, l) == q;
        }
        ImageSize(rest, n2, l);
        BelowSize(l);
        SubsetSize(Below(l), Image(rest, n2, l));
        assert false;
      }
    }
  }

  lemma {:induction false} SubsetSize(s: set<nat>, t: set<nat>)
    requires s <= t
    ensures |s| <= |t|
    decreases |s|
  {
    if s != {} {
      var k :| k in s;
      SubsetSize(s - {k}, t - {k});
    }
  }
}
