/**
 Where the comparison of semantic versions is an order: the exact class of pre-release
 identifiers on which it is transitive, which is wider than the one that follows clause 11.
 */
module VersionOrder {
  import opened SemVerPrecedence
  import opened Version
  import opened VersionCompare
  import opened VersionGrammar
  import opened VersionSyntax
  import opened VersionText

  predicate Fits(x: string) {
    ParseUint(x).Some?
  }

  /**
   A number that fits, or a text that splits the fitting numbers into low and high ones:
   above all of them, below all of them, behind 0 only, or behind 0 and 1 only.
   */
  predicate OrderedId(x: string) {
    ValidId(x) && (Fits(x) || SortsHigh(x) || x[0] == '-' || x[0] == '0' || "1-" <= x)
  }

  /** The class contains the one that follows clause 11, and more. */
  lemma GoodIsOrdered(x: string)
    ensures GoodId(x) ==> OrderedId(x)
    ensures OrderedId("-") && !GoodId("-")
  {
    assert !Digit.Has("-"[0]) && Nines("-") == 0;
  }

  lemma FitsIsCanonical(n: string)
    requires ValidId(n) && Fits(n)
    ensures Digit.All(n) && NatOf(n) == ParseUint(n).value && !ZeroPrefixed(n)
    ensures n[0] == '0' ==> n == "0" && NatOf(n) == 0
  {
    if n == "0" {
      assert "0"[..0] == "";
    }
  }

  lemma OneIsNext(n: string)
    requires ValidId(n) && Fits(n) && NatOf(n) < 1
    ensures n == "0"
  {
    FitsIsCanonical(n);
    DecimalOfNat(n);
  }

  lemma HyphenBelowDigit(m: string, x: string)
    requires |m| > 1 && Digit.All(m) && m[0] == '1' && "1-" <= x
    ensures TextCmp(m, x) == 1
  {
    assert x[0] == '1' && x[1] == '-';
    assert Digit.Has(m[1]) && TextCmp(m[1..], x[1..]) == 1;
  }

  /** Below a text of the class, every number that is less than a number is below with it. */
  lemma CutIsDown(n: string, m: string, x: string)
    requires ValidId(n) && ValidId(m) && Fits(n) && Fits(m) && OrderedId(x) && !Fits(x)
    requires IdentifierCmp(n, m) == -1 && TextCmp(m, x) == -1
    ensures TextCmp(n, x) == -1
  {
    FitsIsCanonical(n);
    FitsIsCanonical(m);
    if SortsHigh(x) {
      NumberBelowHigh(n, x);
    } else if "1-" <= x {
      assert x[0] == '1' && x[1] == '-';
      assert m[0] == '1';
      if |m| > 1 {
        HyphenBelowDigit(m, x);
      }
      assert m == "1" && "1"[..0] == "";
      OneIsNext(n);
    }
  }

  lemma SameIdentifier(x: string, y: string)
    requires ValidId(x) && ValidId(y) && IdentifierCmp(x, y) == 0
    ensures x == y
  {
    if Fits(x) && Fits(y) {
      FitsIsCanonical(x);
      FitsIsCanonical(y);
      SameNumberSameText(x, y);
    }
  }

  /** Two numbers and a text of the class in between, in front or behind. */
  lemma NumbersAndText(n: string, m: string, x: string)
    requires ValidId(n) && ValidId(m) && Fits(n) && Fits(m) && OrderedId(x) && !Fits(x)
    ensures IdentifierCmp(n, m) == -1 && TextCmp(m, x) == -1 ==> TextCmp(n, x) == -1
    ensures IdentifierCmp(n, m) == -1 && TextCmp(x, n) == -1 ==> TextCmp(x, m) == -1
    ensures TextCmp(n, x) == -1 && TextCmp(x, m) == -1 ==> IdentifierCmp(n, m) == -1
  {
    TextCmpOpposite(n, x);
    TextCmpOpposite(m, x);
    assert m != x && n != x;
    if IdentifierCmp(n, m) == -1 && TextCmp(m, x) == -1 {
      CutIsDown(n, m, x);
    }
    if TextCmp(n, x) == -1 && TextCmp(x, m) == -1 {
      if IdentifierCmp(n, m) == 0 {
        SameIdentifier(n, m);
      } else if IdentifierCmp(n, m) == 1 {
        CutIsDown(m, n, x);
      }
    }
  }

  /** On the class the comparison of identifiers is transitive. */
  lemma IdentifierTransitive(x: string, y: string, z: string)
    requires OrderedId(x) && OrderedId(y) && OrderedId(z)
    requires IdentifierCmp(x, y) == -1 && IdentifierCmp(y, z) == -1
    ensures IdentifierCmp(x, z) == -1
  {
    if Fits(x) && Fits(y) && !Fits(z) {
      NumbersAndText(x, y, z);
    } else if !Fits(x) && Fits(y) && Fits(z) {
      NumbersAndText(y, z, x);
    } else if Fits(x) && !Fits(y) && Fits(z) {
      NumbersAndText(x, z, y);
    } else if !(Fits(x) && Fits(y) && Fits(z)) {
      TextCmpTransitive(x, y, z);
    }
  }

  // Outside the class.

  lemma ShortNinesFit(x: string)
    requires x != "" && Nines(x) == |x| < 19
    ensures Fits(x)
  {
    AllNines(x);
    PowMono(|x|, 19);
    TenToTheNineteenth();
  }

  /** A text outside the class is in a circle with two numbers: nines, and the power of ten behind them. */
  lemma Circle(x: string) returns (n: string, m: string)
    requires ValidId(x) && !OrderedId(x)
    ensures GoodId(n) && GoodId(m) && Digit.All(n) && Digit.All(m)
    ensures n == Repeat('9', Nines(x) + 1) && m == "1" + Zeros(Nines(x) + 1)
    ensures IdentifierCmp(n, m) == -1 && IdentifierCmp(m, x) == -1 && IdentifierCmp(x, n) == -1
  {
    var k := Nines(x);
    n, m := Repeat('9', k + 1), "1" + Zeros(k + 1);
    assert Identifier.Has(x[0]) && '1' <= x[0] <= '9';
    if k == |x| {
      ShortNinesFit(x);
    }
    assert x[k] < '9' by { assert Identifier.Has(x[k]); }
    NinesAndPower(k + 1);
    assert x[..k] == n[..k];
    TextCmpFinds(x, n, k);
    TenBelow(x, k);
  }

  /** Nines, and the power of ten behind them. */
  lemma NinesAndPower(k: nat)
    requires 0 < k <= 19
    ensures var n, m := Repeat('9', k), "1" + Zeros(k);
      GoodId(n) && GoodId(m) && Digit.All(n) && Digit.All(m) && IdentifierCmp(n, m) == -1
  {
    NinesAreGood(k);
    AllNines(Repeat('9', k));
    PowerOfTen(k);
    PowMono(k, 19);
    TenToTheNineteenth();
  }

  lemma OneAndTen()
    ensures Fits("1") && Fits("10")
  {
    assert "10"[..1] == "1" && "1"[..0] == "";
    assert NatOf("1") == 1 && NatOf("10") == 10;
  }

  /**
   In text order a power of ten is below what starts with a higher digit, or with 1 and then
   anything but a hyphen.
   */
  lemma TenBelow(x: string, k: nat)
    requires ValidId(x) && !OrderedId(x) && '1' <= x[0] <= '9' && k == Nines(x)
    ensures TextCmp("1" + Zeros(k + 1), x) == -1
  {
    var m := "1" + Zeros(k + 1);
    if x[0] == '1' {
      assert k == 0 && m == "10";
      OneAndTen();
      assert |x| == 1 ==> x == "1";
      assert !("1-" <= x) ==> x[1] != '-';
      assert Identifier.Has(x[1]);
      if x[1] == '0' {
        assert |x| == 2 ==> x == "10";
        assert x[..2] == m[..2];
        TextCmpFinds(m, x, 2);
      } else {
        assert x[..1] == m[..1];
        TextCmpFinds(m, x, 1);
      }
    }
  }

  predicate GoodOr(x: string, a: string) {
    GoodId(a) || a == x
  }

  /** With x beside the identifiers that follow clause 11, the comparison is transitive. */
  ghost predicate TransitiveWith(x: string) {
    forall a, b, c ::
      GoodOr(x, a) && GoodOr(x, b) && GoodOr(x, c) && IdentifierCmp(a, b) <= 0 && IdentifierCmp(b, c) <= 0 ==>
        IdentifierCmp(a, c) <= 0
  }

  /** The class is exact: an identifier outside it breaks transitivity already beside the numbers. */
  lemma OrderedIff(x: string)
    requires ValidId(x)
    ensures OrderedId(x) <==> TransitiveWith(x)
  {
    if OrderedId(x) {
      forall a, b, c |
        GoodOr(x, a) && GoodOr(x, b) && GoodOr(x, c) && IdentifierCmp(a, b) <= 0 && IdentifierCmp(b, c) <= 0
        ensures IdentifierCmp(a, c) <= 0
      {
        AtMostTransitive(a, b, c);
      }
    } else {
      var n, m := Circle(x);
      IdentifierCmpOpposite(x, n);
      assert IdentifierCmp(n, x) == 1;
    }
  }

  lemma IdentifierCmpOpposite(x: string, y: string)
    ensures IdentifierCmp(x, y) == -IdentifierCmp(y, x)
  {
    TextCmpOpposite(x, y);
  }

  lemma AtMostTransitive(x: string, y: string, z: string)
    requires OrderedId(x) && OrderedId(y) && OrderedId(z)
    requires IdentifierCmp(x, y) <= 0 && IdentifierCmp(y, z) <= 0
    ensures IdentifierCmp(x, z) <= 0
    ensures IdentifierCmp(x, z) == 0 ==> IdentifierCmp(x, y) == 0 && IdentifierCmp(y, z) == 0
  {
    if IdentifierCmp(x, y) == 0 {
      SameIdentifier(x, y);
    } else if IdentifierCmp(y, z) == 0 {
      SameIdentifier(y, z);
    } else {
      IdentifierTransitive(x, y, z);
    }
  }

  // Whole versions.

  predicate AllOrdered(xs: seq<string>) {
    forall i :: 0 <= i < |xs| ==> OrderedId(xs[i])
  }

  /** A parsed semantic version whose pre-release identifiers are in the class. */
  predicate OrderedVersion(v: Version) {
    WellFormedSemantic(v) && AllOrdered(IdsOf(v))
  }

  lemma {:induction false} ListsTransitive(xs: seq<string>, ys: seq<string>, zs: seq<string>, i: nat)
    requires AllOrdered(xs) && AllOrdered(ys) && AllOrdered(zs) && i <= |xs| && i <= |ys| && i <= |zs|
    requires IdentifiersCmp(xs, ys, i) <= 0 && IdentifiersCmp(ys, zs, i) <= 0
    ensures IdentifiersCmp(xs, zs, i) <= 0
    decreases |xs| - i
  {
    if i < |xs| && i < |ys| && i < |zs| {
      AtMostTransitive(xs[i], ys[i], zs[i]);
      if IdentifierCmp(xs[i], zs[i]) == 0 {
        ListsTransitive(xs, ys, zs, i + 1);
      }
    }
  }

  lemma PreReleaseTransitive(p: string, q: string, r: string)
    requires (p == "" || AllOrdered(Split(p))) && (q == "" || AllOrdered(Split(q))) && (r == "" || AllOrdered(Split(r)))
    requires PreReleaseCmp(p, q) <= 0 && PreReleaseCmp(q, r) <= 0
    ensures PreReleaseCmp(p, r) <= 0
  {
    if p != q && q != r && p != "" && q != "" && r != "" {
      ListsTransitive(Split(p), Split(q), Split(r), 0);
    }
  }

  /** On versions of the class the comparison is a total preorder. */
  lemma OrderIsTotalPreorder(u: Version, v: Version, w: Version)
    requires OrderedVersion(u) && OrderedVersion(v) && OrderedVersion(w)
    ensures Cmp(u, v) <= 0 || Cmp(v, u) <= 0
    ensures Cmp(u, v) <= 0 && Cmp(v, w) <= 0 ==> Cmp(u, w) <= 0
  {
    CmpOpposite(u, v);
    ThreeComponents(u.components, v.components);
    ThreeComponents(v.components, w.components);
    ThreeComponents(u.components, w.components);
    if Cmp(u, v) <= 0 && Cmp(v, w) <= 0 && u.components == v.components == w.components {
      PreReleaseTransitive(u.preRelease, v.preRelease, w.preRelease);
    }
  }

  // Versions outside the class.

  lemma {:induction false} FirstNotOrdered(ids: seq<string>) returns (k: nat)
    requires !AllOrdered(ids)
    ensures k < |ids| && !OrderedId(ids[k]) && forall i :: 0 <= i < k ==> OrderedId(ids[i])
  {
    if OrderedId(ids[0]) {
      var j := FirstNotOrdered(ids[1..]);
      k := j + 1;
      forall i | 0 <= i < k ensures OrderedId(ids[i]) {
        assert i > 0 ==> ids[i] == ids[1..][i - 1];
      }
    } else {
      k := 0;
    }
  }

  lemma OrderedCut(v: Version, k: nat, n: string)
    requires WellFormedSemantic(v) && k < |IdsOf(v)| && OrderedId(n)
    requires forall i :: 0 <= i < k ==> OrderedId(IdsOf(v)[i])
    ensures OrderedVersion(Cut(v, k, n))
  {
    IdsOfCut(v, k, n);
    assert forall i :: 0 <= i < k ==> (IdsOf(v)[..k] + [n])[i] == IdsOf(v)[i];
  }

  /**
   Every semantic version outside the class is in a circle with two versions of it, which share
   the identifiers in front of its first one outside and go on with two numbers.
   */
  lemma VersionCircle(v: Version) returns (k: nat, n: string, m: string)
    requires WellFormedSemantic(v) && !OrderedVersion(v)
    ensures k < |IdsOf(v)| && !OrderedId(IdsOf(v)[k])
    ensures n == Repeat('9', Nines(IdsOf(v)[k]) + 1) && m == "1" + Zeros(Nines(IdsOf(v)[k]) + 1)
    ensures OrderedVersion(Cut(v, k, n)) && OrderedVersion(Cut(v, k, m))
    ensures LessThan(Cut(v, k, n), Cut(v, k, m)) && LessThan(Cut(v, k, m), v) && LessThan(v, Cut(v, k, n))
  {
    IdsAreValid(v);
    k := FirstNotOrdered(IdsOf(v));
    n, m := Circle(IdsOf(v)[k]);
    OrderedCut(v, k, n);
    OrderedCut(v, k, m);
    IdsOfCut(v, k, n);
    IdsOfCut(v, k, m);
    CmpOfIds(Cut(v, k, n), Cut(v, k, m), k);
    CmpOfIds(Cut(v, k, m), v, k);
    CmpOfIds(v, Cut(v, k, n), k);
  }

  predicate OrderedOr(v: Version, a: Version) {
    OrderedVersion(a) || a == v
  }

  /** With v beside the versions of the class, the comparison is transitive. */
  ghost predicate TransitiveBeside(v: Version) {
    forall a, b, c ::
      OrderedOr(v, a) && OrderedOr(v, b) && OrderedOr(v, c) && Cmp(a, b) <= 0 && Cmp(b, c) <= 0 ==> Cmp(a, c) <= 0
  }

  /** The class is exact for versions: no semantic version can be added without losing transitivity. */
  lemma OrderedVersionIff(v: Version)
    requires WellFormedSemantic(v)
    ensures OrderedVersion(v) <==> TransitiveBeside(v)
  {
    if OrderedVersion(v) {
      forall a, b, c |
        OrderedOr(v, a) && OrderedOr(v, b) && OrderedOr(v, c) && Cmp(a, b) <= 0 && Cmp(b, c) <= 0
        ensures Cmp(a, c) <= 0
      {
        OrderIsTotalPreorder(a, b, c);
      }
    } else {
      var k, n, m := VersionCircle(v);
      CmpOpposite(Cut(v, k, n), v);
      assert Cmp(Cut(v, k, n), v) == 1;
    }
  }

  function WithPre(x: string): Version {
    Version([1, 0, 0], true, x, "")
  }

  lemma WithPreIsSemantic(x: string)
    requires ValidId(x)
    ensures WellFormedSemantic(WithPre(x)) && IdsOf(WithPre(x)) == [x]
  {
    assert '.' !in x by {
      assert forall i :: 0 <= i < |x| ==> Identifier.Has(x[i]);
    }
    SplitOfPlain(x);
  }

  lemma CutOfOne(x: string, y: string)
    requires ValidId(x)
    ensures IdsOf(WithPre(x)) == [x] && Cut(WithPre(x), 0, y) == WithPre(y)
  {
    WithPreIsSemantic(x);
    assert [x][..0] + [y] == [y];
    assert [y][1..] == [] && Join([y]) == y + "" == y;
  }

  lemma OneA()
    ensures ValidId("1a") && !OrderedId("1a") && Nines("1a") == 0
  {
    assert !Digit.Has("1a"[1]);
  }

  /** Three semantic versions in a circle: 1.0.0-9 below 1.0.0-10 below 1.0.0-1a below 1.0.0-9. */
  lemma ComparisonCycle()
    ensures LessThan(WithPre("9"), WithPre("10")) && LessThan(WithPre("10"), WithPre("1a"))
    ensures LessThan(WithPre("1a"), WithPre("9"))
    ensures WellFormedSemantic(WithPre("9")) && WellFormedSemantic(WithPre("10")) && WellFormedSemantic(WithPre("1a"))
  {
    var x := "1a";
    OneA();
    CutOfOne(x, "9");
    CutOfOne(x, "10");
    WithPreIsSemantic(x);
    assert !OrderedId(IdsOf(WithPre(x))[0]);
    var k, n, m := VersionCircle(WithPre(x));
    assert n == "9" && m == "10";
  }
}
