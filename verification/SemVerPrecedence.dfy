/**
 Clause 11 of Semantic Versioning 2.0.0, stated on its own, and the exact class of
 pre-release identifiers on which the comparison follows it.
 */
module SemVerPrecedence {
  import opened Common
  import opened Arithmetic
  import opened VersionText
  import opened Version
  import opened VersionGrammar
  import opened VersionCompare

  // The clause.

  ghost predicate TextBelowAt(x: string, y: string, k: nat) {
    k <= |x| && k < |y| && x[..k] == y[..k] && (k == |x| || x[k] < y[k])
  }

  /** ASCII order: the first difference decides, and a proper prefix comes first. */
  ghost predicate TextBelow(x: string, y: string) {
    exists k: nat :: TextBelowAt(x, y, k)
  }

  /** Clause 11.4 for one identifier. */
  ghost predicate IdBelow(x: string, y: string) {
    if Digit.All(x) && Digit.All(y) then NatOf(x) < NatOf(y)
    else if Digit.All(x) then true
    else if Digit.All(y) then false
    else TextBelow(x, y)
  }

  ghost predicate IdsBelowAt(xs: seq<string>, ys: seq<string>, k: nat) {
    k <= |xs| && k < |ys| && xs[..k] == ys[..k] && (k == |xs| || IdBelow(xs[k], ys[k]))
  }

  /** Clauses 11.3 and 11.4: a pre-release comes before the release, and identifiers decide from the left. */
  ghost predicate PreReleaseBelow(p: string, q: string) {
    p != "" && (q == "" || exists k: nat :: IdsBelowAt(Split(p), Split(q), k))
  }

  /** Clause 11: major, minor, patch, pre-release. */
  ghost predicate Precedes(v: Version, o: Version)
    requires |v.components| == |o.components| == 3
  {
    var a, b := v.components, o.components;
    if a[0] != b[0] then a[0] < b[0]
    else if a[1] != b[1] then a[1] < b[1]
    else if a[2] != b[2] then a[2] < b[2]
    else PreReleaseBelow(v.preRelease, o.preRelease)
  }

  // The class of identifiers.

  /** An identifier that the parser lets through in a pre-release. */
  predicate ValidId(x: string) {
    x != "" && Identifier.All(x) && !BadIdentifier(x)
  }

  /** How many nines lead the text. */
  function Nines(x: string): (k: nat)
    ensures k <= |x| && forall i :: 0 <= i < k ==> x[i] == '9'
    ensures k < |x| ==> x[k] != '9'
  {
    if |x| > 0 && x[0] == '9' then 1 + Nines(x[1..]) else 0
  }

  predicate IsLetter(c: char) {
    'A' <= c <= 'Z' || 'a' <= c <= 'z'
  }

  /** Nineteen leading nines, or a letter behind the leading nines: text order puts it above every number that fits. */
  predicate SortsHigh(x: string) {
    Nines(x) >= 19 || (Nines(x) < |x| && IsLetter(x[Nines(x)]))
  }

  /** A number that fits the integer width, or a word that sorts high; every word that starts with a letter does. */
  predicate GoodId(x: string) {
    ValidId(x) && if Digit.All(x) then ParseUint(x).Some? else SortsHigh(x)
  }

  lemma LetterFirstIsGood(x: string)
    requires ValidId(x) && IsLetter(x[0])
    ensures GoodId(x)
  {
    assert !Digit.Has(x[0]);
  }

  // Text order.

  lemma {:induction false} TextCmpFinds(x: string, y: string, k: nat)
    requires TextBelowAt(x, y, k)
    ensures TextCmp(x, y) == -1
  {
    if k > 0 {
      assert x[0] == x[..k][0] && y[0] == y[..k][0];
      assert x[1..][..k - 1] == x[..k][1..] && y[1..][..k - 1] == y[..k][1..];
      TextCmpFinds(x[1..], y[1..], k - 1);
    }
  }

  lemma {:induction false} TextCmpIff(x: string, y: string)
    ensures TextCmp(x, y) == -1 <==> TextBelow(x, y)
  {
    forall k: nat | TextBelowAt(x, y, k) ensures TextCmp(x, y) == -1 {
      TextCmpFinds(x, y, k);
    }
    if TextCmp(x, y) == -1 {
      if x == "" || x[0] != y[0] {
        assert TextBelowAt(x, y, 0);
      } else {
        TextCmpIff(x[1..], y[1..]);
        var k: nat :| TextBelowAt(x[1..], y[1..], k);
        assert x[..k + 1] == [x[0]] + x[1..][..k] && y[..k + 1] == [y[0]] + y[1..][..k];
        assert TextBelowAt(x, y, k + 1);
      }
    }
  }

  lemma {:induction false} TextCmpTransitive(x: string, y: string, z: string)
    requires TextCmp(x, y) == -1 && TextCmp(y, z) == -1
    ensures TextCmp(x, z) == -1
  {
    if x != "" && x[0] == y[0] == z[0] {
      TextCmpTransitive(x[1..], y[1..], z[1..]);
    }
  }

  // Sizes of numbers.

  lemma {:induction false} NatOfBound(s: string)
    requires Digit.All(s)
    ensures NatOf(s) < Pow(10, |s|)
  {
    if |s| > 0 {
      NatOfBound(s[..|s| - 1]);
    }
  }

  lemma {:induction false} PrefixIsTenth(s: string, m: nat)
    requires Digit.All(s) && m < |s|
    ensures NatOf(s) >= 10 * NatOf(s[..m])
  {
    var t := s[..|s| - 1];
    if m < |t| {
      PrefixIsTenth(t, m);
      assert t[..m] == s[..m];
    } else {
      assert s[..m] == t;
    }
  }

  lemma {:induction false} AllNines(s: string)
    requires forall i :: 0 <= i < |s| ==> s[i] == '9'
    ensures Digit.All(s) && NatOf(s) == Pow(10, |s|) - 1
  {
    if |s| > 0 {
      AllNines(s[..|s| - 1]);
    }
  }

  lemma TenToTheNineteenth()
    ensures Pow(10, 19) == 10000000000000000000 < UINT_LIMIT
  {
    assert Pow(10, 3) == 1000;
    assert Pow(10, 6) == 1000000;
    assert Pow(10, 10) == 10000000000;
    assert Pow(10, 14) == 100000000000000;
  }

  /** A number that fits and starts with nineteen nines is those nines. */
  lemma NineteenNinesEnd(x: string)
    requires Digit.All(x) && NatOf(x) < UINT_LIMIT && Nines(x) >= 19
    ensures |x| == 19
  {
    AllNines(x[..19]);
    TenToTheNineteenth();
    if |x| > 19 {
      PrefixIsTenth(x, 19);
    }
  }

  lemma TooLargeIsLong(x: string)
    requires Digit.All(x) && NatOf(x) >= UINT_LIMIT
    ensures |x| >= 20
  {
    NatOfBound(x);
    TenToTheNineteenth();
    if |x| < 20 {
      PowMono(|x|, 19);
    }
  }

  lemma {:induction false} PowMono(m: nat, n: nat)
    requires m <= n
    ensures Pow(10, m) <= Pow(10, n)
    decreases n
  {
    if m < n {
      PowMono(m, n - 1);
    }
  }

  // Agreement on good identifiers.

  /** A number that fits is below, in text order, whatever sorts high and is no such number. */
  lemma NumberBelowHigh(x: string, y: string)
    requires ValidId(x) && ParseUint(x).Some? && SortsHigh(y) && ParseUint(y).None?
    ensures TextCmp(x, y) == -1
  {
    var i, j := Nines(x), Nines(y);
    if i < |x| && i < j {
      assert x[..i] == y[..i];
      TextCmpFinds(x, y, i);
    } else if |x| <= j {
      assert |x| == |y| ==> x == y;
      assert x[..|x|] == y[..|x|];
      TextCmpFinds(x, y, |x|);
    } else {
      assert j < 19 by {
        if j >= 19 { NineteenNinesEnd(x); }
      }
      assert Digit.Has(x[j]) && IsLetter(y[j]);
      assert x[..j] == y[..j];
      TextCmpFinds(x, y, j);
    }
  }

  lemma SameNumberSameText(x: string, y: string)
    requires x != "" && y != "" && Digit.All(x) && Digit.All(y) && !ZeroPrefixed(x) && !ZeroPrefixed(y)
    ensures NatOf(x) == NatOf(y) <==> x == y
  {
    DecimalOfNat(x);
    DecimalOfNat(y);
  }

  /** On good identifiers the comparison is clause 11.4. */
  lemma IdentifierAgrees(x: string, y: string)
    requires GoodId(x) && GoodId(y)
    ensures IdentifierCmp(x, y) == -1 <==> IdBelow(x, y)
    ensures IdentifierCmp(x, y) == 1 <==> IdBelow(y, x)
    ensures IdentifierCmp(x, y) == 0 <==> x == y
  {
    TextCmpOpposite(x, y);
    if Digit.All(x) && Digit.All(y) {
      SameNumberSameText(x, y);
    } else if Digit.All(x) {
      NumberBelowHigh(x, y);
    } else if Digit.All(y) {
      NumberBelowHigh(y, x);
    } else {
      TextCmpIff(x, y);
      TextCmpIff(y, x);
    }
  }

  ghost predicate Agrees(x: string, y: string) {
    IdentifierCmp(x, y) == -1 <==> IdBelow(x, y)
  }

  function Repeat(c: char, k: nat): (s: string)
    ensures |s| == k && forall i :: 0 <= i < k ==> s[i] == c
  {
    seq(k, _ => c)
  }

  lemma {:induction false} NinesOfRepeat(k: nat, rest: string)
    requires |rest| == 0 || rest[0] != '9'
    ensures Nines(Repeat('9', k) + rest) == k
  {
    if k > 0 {
      assert (Repeat('9', k) + rest)[1..] == Repeat('9', k - 1) + rest;
      NinesOfRepeat(k - 1, rest);
    } else {
      assert Repeat('9', k) + rest == rest;
    }
  }

  lemma NinesAreGood(k: nat)
    requires 0 < k <= 19
    ensures GoodId(Repeat('9', k)) && Digit.All(Repeat('9', k)) && NatOf(Repeat('9', k)) < UINT_LIMIT
  {
    AllNines(Repeat('9', k));
    PowMono(k, 19);
    TenToTheNineteenth();
  }

  lemma NinesAndHyphen()
    ensures GoodId(Repeat('9', 19) + "-") && !Digit.All(Repeat('9', 19) + "-")
  {
    var y := Repeat('9', 19) + "-";
    NinesOfRepeat(19, "-");
    assert !Digit.Has(y[19]);
  }

  /** Every other identifier that the parser lets through is ordered against the clause with some good one. */
  lemma BadIdDisagrees(x: string) returns (y: string)
    requires ValidId(x) && !GoodId(x)
    ensures GoodId(y) && !Agrees(x, y)
  {
    var k := Nines(x);
    if k < 19 {
      // k+1 nines: a smaller number, but the larger text
      y := Repeat('9', k + 1);
      NinesAreGood(k + 1);
      if Digit.All(x) {
        TooLargeIsLong(x);
      }
      assert k == |x| ==> Digit.All(x);
      assert x[k] < '9' by { assert Identifier.Has(x[k]); }
      assert x[..k] == y[..k];
      TextCmpFinds(x, y, k);
    } else {
      // a number that is too large, against a word: the larger text
      y := Repeat('9', 19) + "-";
      NinesAndHyphen();
      TooLargeIsLong(x);
      assert Digit.Has(x[19]);
      assert x[..19] == y[..19];
      TextCmpFinds(y, x, 19);
      TextCmpOpposite(x, y);
    }
  }

  /** The good identifiers are exactly those that the comparison orders by the clause against all good ones. */
  lemma GoodIdsAreExact(x: string)
    requires ValidId(x)
    ensures GoodId(x) <==> forall y :: GoodId(y) ==> Agrees(x, y)
  {
    if GoodId(x) {
      forall y | GoodId(y) ensures Agrees(x, y) {
        IdentifierAgrees(x, y);
      }
    } else {
      var y := BadIdDisagrees(x);
    }
  }

  // Whole versions.

  predicate GoodPreRelease(p: string) {
    p == "" || forall i :: 0 <= i < |Split(p)| ==> GoodId(Split(p)[i])
  }

  /** A parsed semantic version whose pre-release identifiers are good. */
  predicate GoodVersion(v: Version) {
    WellFormedSemantic(v) && GoodPreRelease(v.preRelease)
  }

  predicate AllGood(xs: seq<string>) {
    forall i :: 0 <= i < |xs| ==> GoodId(xs[i])
  }

  lemma {:induction false} IdentifiersCmpFinds(xs: seq<string>, ys: seq<string>, i: nat)
    requires AllGood(xs) && AllGood(ys) && i <= |xs| && i <= |ys| && xs[..i] == ys[..i]
    ensures IdentifiersCmp(xs, ys, i) == -1 ==> exists k: nat :: IdsBelowAt(xs, ys, k)
    ensures IdentifiersCmp(xs, ys, i) == 1 ==> exists k: nat :: IdsBelowAt(ys, xs, k)
    ensures IdentifiersCmp(xs, ys, i) == 0 ==> xs == ys
    decreases |xs| - i
  {
    if i < |xs| && i < |ys| {
      IdentifierAgrees(xs[i], ys[i]);
      if xs[i] == ys[i] {
        assert xs[..i + 1] == xs[..i] + [xs[i]] && ys[..i + 1] == ys[..i] + [ys[i]];
        IdentifiersCmpFinds(xs, ys, i + 1);
      } else {
        assert IdsBelowAt(xs, ys, i) || IdsBelowAt(ys, xs, i);
      }
    } else {
      if |xs| < |ys| { assert IdsBelowAt(xs, ys, i); }
      if |ys| < |xs| { assert IdsBelowAt(ys, xs, i); }
      assert |xs| == |ys| ==> xs == xs[..i] && ys == ys[..i];
    }
  }

  lemma IdIrreflexive(x: string)
    ensures !IdBelow(x, x)
  {
    TextCmpIff(x, x);
  }

  lemma IdsBelowFirst(xs: seq<string>, ys: seq<string>, j: nat, k: nat)
    requires AllGood(xs) && AllGood(ys) && IdsBelowAt(xs, ys, j)
    ensures !IdsBelowAt(ys, xs, k) && xs != ys
  {
    if j < |xs| {
      IdIrreflexive(xs[j]);
      IdentifierAgrees(xs[j], ys[j]);
    }
    if k < |xs| && k < |ys| {
      IdIrreflexive(xs[k]);
    }
    if k < j && k < |ys| && k < |xs| {
      assert xs[k] == xs[..j][k] == ys[..j][k] == ys[k];
    }
    if j < k && k <= |ys| && j < |xs| {
      assert k <= |xs| ==> ys[..k][j] == ys[j] && xs[..k][j] == xs[j];
    }
  }

  lemma PreReleaseAgrees(p: string, q: string)
    requires GoodPreRelease(p) && GoodPreRelease(q)
    ensures PreReleaseCmp(p, q) == -1 <==> PreReleaseBelow(p, q)
    ensures PreReleaseCmp(p, q) == 1 <==> PreReleaseBelow(q, p)
    ensures PreReleaseCmp(p, q) == 0 <==> p == q
  {
    var xs, ys := Split(p), Split(q);
    if p != "" && q != "" {
      JoinOfSplit(p);
      JoinOfSplit(q);
      IdentifiersCmpFinds(xs, ys, 0);
      forall j: nat, k: nat | IdsBelowAt(xs, ys, j) ensures !IdsBelowAt(ys, xs, k) && xs != ys {
        IdsBelowFirst(xs, ys, j, k);
      }
      forall j: nat | IdsBelowAt(ys, xs, j) ensures xs != ys {
        IdsBelowFirst(ys, xs, j, 0);
      }
    }
  }

  lemma ThreeComponents(a: seq<uint>, b: seq<uint>)
    requires |a| == |b| == 3
    ensures ComponentsCmp(a, b) ==
      if a[0] != b[0] then Sign(a[0], b[0]) else if a[1] != b[1] then Sign(a[1], b[1]) else Sign(a[2], b[2])
    ensures ComponentsCmp(a, b) == 0 ==> a == b
  {
    assert CommonCmp(a, b, 3) == 0;
    assert CommonCmp(a, b, 2) == Sign(a[2], b[2]);
    assert CommonCmp(a, b, 1) == if a[1] != b[1] then Sign(a[1], b[1]) else CommonCmp(a, b, 2);
  }

  /**
   On good versions the comparison is clause 11, and is zero exactly for versions that differ in
   build metadata at most.
   */
  lemma ComparisonIsPrecedence(v: Version, o: Version)
    requires GoodVersion(v) && GoodVersion(o)
    ensures Cmp(v, o) == -1 <==> Precedes(v, o)
    ensures Cmp(v, o) == 1 <==> Precedes(o, v)
    ensures Cmp(v, o) == 0 <==> v.(buildMetadata := o.buildMetadata) == o
  {
    ThreeComponents(v.components, o.components);
    PreReleaseAgrees(v.preRelease, o.preRelease);
  }

  // Versions outside the class.

  /** The pre-release identifiers of a parsed semantic version. */
  function IdsOf(v: Version): seq<string> {
    if v.preRelease == "" then [] else Split(v.preRelease)
  }

  lemma IdsAreValid(v: Version)
    requires WellFormedSemantic(v)
    ensures forall i :: 0 <= i < |IdsOf(v)| ==> ValidId(IdsOf(v)[i])
  {
  }

  /** The version with its pre-release identifiers up to k, and x in place of the others. */
  function Cut(v: Version, k: nat, x: string): Version
    requires k <= |IdsOf(v)|
  {
    v.(preRelease := Join(IdsOf(v)[..k] + [x]))
  }

  lemma IdsOfCut(v: Version, k: nat, x: string)
    requires WellFormedSemantic(v) && k < |IdsOf(v)| && ValidId(x)
    ensures Cut(v, k, x).preRelease != "" && IdsOf(Cut(v, k, x)) == IdsOf(v)[..k] + [x]
    ensures WellFormedSemantic(Cut(v, k, x))
  {
    var ids := IdsOf(v)[..k] + [x];
    IdsAreValid(v);
    forall i | 0 <= i < |ids| ensures '.' !in ids[i] {
      assert ValidId(ids[i]);
      assert forall j :: 0 <= j < |ids[i]| ==> Identifier.Has(ids[i][j]);
    }
    SplitOfJoin(ids);
    SplitOfPlain("");
    assert ids[|ids| - 1] == x;
  }

  /** The first difference among the identifiers decides. */
  lemma {:induction false} CmpAtDifference(xs: seq<string>, ys: seq<string>, i: nat, k: nat)
    requires i <= k < |xs| && k < |ys| && xs[..k] == ys[..k] && IdentifierCmp(xs[k], ys[k]) != 0
    ensures IdentifiersCmp(xs, ys, i) == IdentifierCmp(xs[k], ys[k])
    decreases k - i
  {
    if i < k {
      assert xs[i] == xs[..k][i] == ys[..k][i] == ys[i];
      assert IdentifierCmp(xs[i], xs[i]) == 0;
      CmpAtDifference(xs, ys, i + 1, k);
    }
  }

  lemma CmpOfIds(v: Version, o: Version, k: nat)
    requires WellFormedSemantic(v) && WellFormedSemantic(o) && v.components == o.components
    requires k < |IdsOf(v)| && k < |IdsOf(o)| && IdsOf(v)[..k] == IdsOf(o)[..k]
    requires IdentifierCmp(IdsOf(v)[k], IdsOf(o)[k]) != 0
    ensures Cmp(v, o) == IdentifierCmp(IdsOf(v)[k], IdsOf(o)[k])
  {
    ThreeComponents(v.components, o.components);
    CmpAtDifference(IdsOf(v), IdsOf(o), 0, k);
  }

  lemma PrefixAgrees(xs: seq<string>, ys: seq<string>, j: nat, k: nat)
    requires k < j <= |xs| && j <= |ys| && xs[..j] == ys[..j]
    ensures xs[k] == ys[k]
  {
    assert xs[k] == xs[..j][k] == ys[..j][k] == ys[k];
  }

  lemma PrecedesOfIds(v: Version, o: Version, k: nat)
    requires WellFormedSemantic(v) && WellFormedSemantic(o) && v.components == o.components
    requires k < |IdsOf(v)| && k < |IdsOf(o)| && IdsOf(v)[..k] == IdsOf(o)[..k] && IdsOf(v)[k] != IdsOf(o)[k]
    ensures Precedes(v, o) <==> IdBelow(IdsOf(v)[k], IdsOf(o)[k])
  {
    var xs, ys := IdsOf(v), IdsOf(o);
    forall j: nat | IdsBelowAt(xs, ys, j) ensures j == k {
      if j < k {
        assert xs[j] == xs[..k][j] == ys[..k][j] == ys[j];
        IdIrreflexive(xs[j]);
      }
      if j > k {
        PrefixAgrees(xs, ys, j, k);
      }
    }
    assert IdBelow(xs[k], ys[k]) ==> IdsBelowAt(xs, ys, k);
  }

  /**
   Every semantic version outside the class is ordered against the clause with a good version:
   one that shares what is good in front.
   */
  lemma BadVersionDisagrees(v: Version) returns (o: Version)
    requires WellFormedSemantic(v) && !GoodVersion(v)
    ensures GoodVersion(o) && !(Cmp(v, o) == -1 <==> Precedes(v, o))
  {
    var ids := IdsOf(v);
    IdsAreValid(v);
    var k := FirstNotGood(ids);
    var y := BadIdDisagrees(ids[k]);
    o := Cut(v, k, y);
    IdsOfCut(v, k, y);
    assert forall i :: 0 <= i < k ==> GoodId((ids[..k] + [y])[i]);
    assert ParseUint(ids[k]).None?;
    CmpOfIds(v, o, k);
    PrecedesOfIds(v, o, k);
  }

  lemma {:induction false} FirstNotGood(ids: seq<string>) returns (k: nat)
    requires !AllGood(ids)
    ensures k < |ids| && !GoodId(ids[k]) && forall i :: 0 <= i < k ==> GoodId(ids[i])
  {
    if GoodId(ids[0]) {
      var j := FirstNotGood(ids[1..]);
      k := j + 1;
      forall i | 0 <= i < k ensures GoodId(ids[i]) {
        assert i > 0 ==> ids[i] == ids[1..][i - 1];
      }
    } else {
      k := 0;
    }
  }

  /** The class is exact for versions: those that the comparison orders by clause 11 against all good versions. */
  lemma GoodVersionsAreExact(v: Version)
    requires WellFormedSemantic(v)
    ensures GoodVersion(v) <==> forall o :: GoodVersion(o) ==> (Cmp(v, o) == -1 <==> Precedes(v, o))
  {
    if GoodVersion(v) {
      forall o | GoodVersion(o) ensures Cmp(v, o) == -1 <==> Precedes(v, o) {
        ComparisonIsPrecedence(v, o);
      }
    } else {
      var o := BadVersionDisagrees(v);
    }
  }
}
