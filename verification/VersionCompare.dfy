/** The comparison of two versions, and the facts that hold of versions of every kind. */
module VersionCompare {
  import opened Common
  import opened VersionText
  import opened Version
  import opened VersionGrammar

  function Sign(a: int, b: int): int {
    if a < b then -1 else if a > b then 1 else 0
  }

  /** Text order, character by character. */
  function TextCmp(a: string, b: string): (c: int)
    ensures c == 0 <==> a == b
    ensures -1 <= c <= 1
  {
    if a == "" then (if b == "" then 0 else -1)
    else if b == "" then 1
    else if a[0] != b[0] then Sign(a[0] as int, b[0] as int)
    else
      assert a == [a[0]] + a[1..] && b == [b[0]] + b[1..];
      TextCmp(a[1..], b[1..])
  }

  predicate OnlyZeros(s: seq<uint>) {
    forall i :: 0 <= i < |s| ==> s[i] == 0
  }

  /** The first difference among the common components from i on. */
  function CommonCmp(a: seq<uint>, b: seq<uint>, i: nat): (c: int)
    ensures -1 <= c <= 1
    decreases |a| - i
  {
    if i < |a| && i < |b| then
      if a[i] != b[i] then Sign(a[i], b[i]) else CommonCmp(a, b, i + 1)
    else 0
  }

  function ComponentsCmp(a: seq<uint>, b: seq<uint>): (c: int)
    ensures -1 <= c <= 1
  {
    if CommonCmp(a, b, 0) != 0 then CommonCmp(a, b, 0)
    else if |b| < |a| && !OnlyZeros(a[|b|..]) then 1
    else if |a| < |b| && !OnlyZeros(b[|a|..]) then -1
    else 0
  }

  function IdentifierCmp(x: string, y: string): (c: int)
    ensures -1 <= c <= 1
  {
    match (ParseUint(x), ParseUint(y))
    case (Some(n), Some(m)) => Sign(n, m)
    case _ => TextCmp(x, y)
  }

  function IdentifiersCmp(xs: seq<string>, ys: seq<string>, i: nat): (c: int)
    ensures -1 <= c <= 1
    decreases |xs| - i
  {
    if i < |xs| && i < |ys| then
      if IdentifierCmp(xs[i], ys[i]) != 0 then IdentifierCmp(xs[i], ys[i]) else IdentifiersCmp(xs, ys, i + 1)
    else Sign(|xs|, |ys|)
  }

  function PreReleaseCmp(p: string, q: string): (c: int)
    ensures -1 <= c <= 1
  {
    if p == q then 0
    else if p == "" then 1
    else if q == "" then -1
    else IdentifiersCmp(Split(p), Split(q), 0)
  }

  function Cmp(v: Version, o: Version): (c: int)
    ensures -1 <= c <= 1
  {
    if ComponentsCmp(v.components, o.components) != 0 then ComponentsCmp(v.components, o.components)
    else if !v.semver || !o.semver then 0
    else PreReleaseCmp(v.preRelease, o.preRelease)
  }

  method AllZeros(a: seq<uint>) returns (z: bool)
    ensures z == OnlyZeros(a)
  {
    for i := 0 to |a|
      invariant OnlyZeros(a[..i])
    {
      if a[i] != 0 {
        return false;
      }
    }
    z := true;
  }

  /** The comparison with its two loops. */
  method CompareInternal(v: Version, o: Version) returns (c: int)
    ensures c == Cmp(v, o)
  {
    var vLen, oLen := |v.components|, |o.components|;
    var i := 0;
    while i < vLen && i < oLen
      invariant 0 <= i <= vLen && i <= oLen
      invariant CommonCmp(v.components, o.components, 0) == CommonCmp(v.components, o.components, i)
    {
      if o.components[i] < v.components[i] {
        return 1;
      } else if o.components[i] > v.components[i] {
        return -1;
      }
      i := i + 1;
    }
    if oLen < vLen {
      var z := AllZeros(v.components[oLen..]);
      if !z { return 1; }
    } else if oLen > vLen {
      var z := AllZeros(o.components[vLen..]);
      if !z { return -1; }
    }
    if !v.semver || !o.semver {
      return 0;
    }
    if v.preRelease == "" && o.preRelease != "" {
      return 1;
    } else if v.preRelease != "" && o.preRelease == "" {
      return -1;
    } else if v.preRelease == o.preRelease {
      return 0;
    }
    c := ComparePreRelease(Split(v.preRelease), Split(o.preRelease));
  }

  method ComparePreRelease(vPR: seq<string>, oPR: seq<string>) returns (c: int)
    ensures c == IdentifiersCmp(vPR, oPR, 0)
  {
    var i := 0;
    while i < |vPR| && i < |oPR|
      invariant 0 <= i <= |vPR| && i <= |oPR|
      invariant IdentifiersCmp(vPR, oPR, 0) == IdentifiersCmp(vPR, oPR, i)
    {
      var vNum, oNum := ParseUint(vPR[i]), ParseUint(oPR[i]);
      if vNum.Some? && oNum.Some? {
        if oNum.value < vNum.value {
          return 1;
        } else if oNum.value > vNum.value {
          return -1;
        }
      } else if TextCmp(oPR[i], vPR[i]) < 0 {
        TextCmpOpposite(oPR[i], vPR[i]);
        return 1;
      } else if TextCmp(oPR[i], vPR[i]) > 0 {
        TextCmpOpposite(oPR[i], vPR[i]);
        return -1;
      }
      i := i + 1;
    }
    if |oPR| < |vPR| {
      return 1;
    } else if |oPR| > |vPR| {
      return -1;
    }
    c := 0;
  }

  predicate AtLeast(v: Version, min: Version) { Cmp(v, min) != -1 }

  predicate LessThan(v: Version, o: Version) { Cmp(v, o) == -1 }

  /** Comparison with a text, parsed as a version of the same kind. */
  method Compare(v: Version, other: string) returns (r: Result<int, ParseError>)
    ensures Parsed(other, v.semver).Err? ==> r == Err(Parsed(other, v.semver).error)
    ensures Parsed(other, v.semver).Ok? ==> r == Ok(Cmp(v, Parsed(other, v.semver).value))
  {
    var ov := Parse(other, v.semver);
    if ov.Err? {
      return Err(ov.error);
    }
    var c := CompareInternal(v, ov.value);
    r := Ok(c);
  }

  // Facts about every pair of versions.

  lemma {:induction false} TextCmpOpposite(a: string, b: string)
    ensures TextCmp(a, b) == -TextCmp(b, a)
  {
    if a != "" && b != "" {
      TextCmpOpposite(a[1..], b[1..]);
    }
  }

  lemma {:induction false} CommonCmpOpposite(a: seq<uint>, b: seq<uint>, i: nat)
    ensures CommonCmp(a, b, i) == -CommonCmp(b, a, i)
    decreases |a| - i
  {
    if i < |a| && i < |b| {
      CommonCmpOpposite(a, b, i + 1);
    }
  }

  lemma {:induction false} IdentifiersCmpOpposite(xs: seq<string>, ys: seq<string>, i: nat)
    ensures IdentifiersCmp(xs, ys, i) == -IdentifiersCmp(ys, xs, i)
    decreases |xs| - i
  {
    if i < |xs| && i < |ys| {
      TextCmpOpposite(xs[i], ys[i]);
      IdentifiersCmpOpposite(xs, ys, i + 1);
    }
  }

  /** Swapping any two versions, of either kind, negates the comparison. */
  lemma CmpOpposite(v: Version, o: Version)
    ensures Cmp(v, o) == -Cmp(o, v)
  {
    CommonCmpOpposite(v.components, o.components, 0);
    IdentifiersCmpOpposite(Split(v.preRelease), Split(o.preRelease), 0);
  }

  lemma {:induction false} CommonCmpSelf(a: seq<uint>, i: nat)
    ensures CommonCmp(a, a, i) == 0
    decreases |a| - i
  {
    if i < |a| {
      CommonCmpSelf(a, i + 1);
    }
  }

  /** A parsed version equals its own printed form. */
  lemma CompareWithOwnText(str: string, v: Version)
    requires Parsed(str, v.semver) == Ok(v)
    ensures Parsed(Text(v), v.semver).Ok? && Cmp(v, Parsed(Text(v), v.semver).value) == 0
  {
    if v.semver {
      SemanticRoundTrip(str, v);
    } else {
      GenericRoundTrip(str, v);
    }
    CommonCmpSelf(v.components, 0);
  }

  // Components as infinite sequences that end in zeros.

  function At(a: seq<uint>, i: nat): uint {
    if i < |a| then a[i] else 0
  }

  ghost predicate AgreeBelow(a: seq<uint>, b: seq<uint>, n: nat) {
    forall j: nat :: j < n ==> At(a, j) == At(b, j)
  }

  ghost predicate BelowAt(a: seq<uint>, b: seq<uint>, i: nat) {
    AgreeBelow(a, b, i) && At(a, i) < At(b, i)
  }

  /** Lexicographic order of the padded sequences. */
  ghost predicate PaddedBelow(a: seq<uint>, b: seq<uint>) {
    exists i: nat :: BelowAt(a, b, i)
  }

  ghost predicate PaddedEqual(a: seq<uint>, b: seq<uint>) {
    forall i: nat :: At(a, i) == At(b, i)
  }

  lemma {:induction false} CommonCmpFinds(a: seq<uint>, b: seq<uint>, i: nat)
    requires AgreeBelow(a, b, i) && i <= |a| && i <= |b|
    ensures CommonCmp(a, b, i) == -1 ==> PaddedBelow(a, b)
    ensures CommonCmp(a, b, i) == 1 ==> PaddedBelow(b, a)
    ensures CommonCmp(a, b, i) == 0 ==> AgreeBelow(a, b, if |a| < |b| then |a| else |b|)
    decreases |a| - i
  {
    if i < |a| && i < |b| {
      if a[i] < b[i] {
        assert BelowAt(a, b, i);
      } else if a[i] > b[i] {
        assert BelowAt(b, a, i);
      } else {
        CommonCmpFinds(a, b, i + 1);
      }
    }
  }

  lemma SurplusFinds(a: seq<uint>, b: seq<uint>)
    requires |a| < |b| && AgreeBelow(a, b, |a|)
    ensures OnlyZeros(b[|a|..]) ==> PaddedEqual(a, b)
    ensures !OnlyZeros(b[|a|..]) ==> PaddedBelow(a, b)
  {
    if OnlyZeros(b[|a|..]) {
      forall i: nat ensures At(a, i) == At(b, i) {
        if |a| <= i < |b| { assert b[i] == b[|a|..][i - |a|]; }
      }
    } else {
      var k :| 0 <= k < |b[|a|..]| && b[|a|..][k] != 0;
      FirstNonzero(a, b, |a|, |a| + k);
    }
  }

  lemma {:induction false} FirstNonzero(a: seq<uint>, b: seq<uint>, i: nat, k: nat)
    requires |a| <= i <= k < |b| && b[k] != 0 && AgreeBelow(a, b, i)
    ensures PaddedBelow(a, b)
    decreases k - i
  {
    if b[i] != 0 {
      assert BelowAt(a, b, i);
    } else {
      FirstNonzero(a, b, i + 1, k);
    }
  }

  lemma PaddedExclusive(a: seq<uint>, b: seq<uint>)
    ensures !(PaddedBelow(a, b) && PaddedBelow(b, a))
    ensures !(PaddedBelow(a, b) && PaddedEqual(a, b))
  {
    forall i: nat, j: nat | BelowAt(a, b, i) && BelowAt(b, a, j) ensures false {
    }
  }

  /** The numeric part of the comparison is the lexicographic order of the zero-padded components. */
  lemma ComponentsCmpIsPadded(a: seq<uint>, b: seq<uint>)
    ensures ComponentsCmp(a, b) == -1 <==> PaddedBelow(a, b)
    ensures ComponentsCmp(a, b) == 1 <==> PaddedBelow(b, a)
    ensures ComponentsCmp(a, b) == 0 <==> PaddedEqual(a, b)
  {
    CommonCmpFinds(a, b, 0);
    if CommonCmp(a, b, 0) == 0 {
      if |a| < |b| { SurplusFinds(a, b); }
      if |b| < |a| { SurplusFinds(b, a); }
    }
    PaddedExclusive(a, b);
    PaddedExclusive(b, a);
  }

  ghost predicate PaddedAtMost(a: seq<uint>, b: seq<uint>) {
    PaddedBelow(a, b) || PaddedEqual(a, b)
  }

  lemma PaddedTransitive(a: seq<uint>, b: seq<uint>, c: seq<uint>)
    requires PaddedAtMost(a, b) && PaddedAtMost(b, c)
    ensures PaddedAtMost(a, c)
  {
    if PaddedBelow(a, b) {
      var j: nat :| BelowAt(a, b, j);
      if PaddedBelow(b, c) {
        var k: nat :| BelowAt(b, c, k);
        assert BelowAt(a, c, if j < k then j else k);
      } else {
        assert BelowAt(a, c, j);
      }
    } else if PaddedBelow(b, c) {
      var k: nat :| BelowAt(b, c, k);
      assert BelowAt(a, c, k);
    }
  }

  /** Unless both versions are semantic, the comparison is the order of the padded components and nothing else. */
  lemma NumbersDecide(v: Version, o: Version)
    requires !(v.semver && o.semver)
    ensures Cmp(v, o) == -1 <==> PaddedBelow(v.components, o.components)
    ensures Cmp(v, o) == 1 <==> PaddedBelow(o.components, v.components)
    ensures Cmp(v, o) == 0 <==> PaddedEqual(v.components, o.components)
  {
    ComponentsCmpIsPadded(v.components, o.components);
  }

  /** For two versions of any kind exactly one of AtLeast and LessThan holds, and either can be asked from the other side. */
  lemma LessThanIsNotAtLeast(v: Version, o: Version)
    ensures LessThan(v, o) <==> !AtLeast(v, o)
    ensures AtLeast(v, o) || AtLeast(o, v)
    ensures LessThan(v, o) ==> !LessThan(o, v)
    ensures !(v.semver && o.semver) ==> (LessThan(v, o) <==> PaddedBelow(v.components, o.components))
  {
    CmpOpposite(v, o);
    ComponentsCmpIsPadded(v.components, o.components);
  }

  /**
   A version that is not semantic sees only the numbers of its semantic neighbours: the order is
   transitive across it unless the numbers agree and the pre-release of the first is the higher.
   */
  lemma TransitiveAcrossKindsIff(v: Version, o: Version, w: Version)
    requires v.semver && !o.semver && w.semver && Cmp(v, o) <= 0 && Cmp(o, w) <= 0
    ensures Cmp(v, w) <= 0 <==>
      PaddedBelow(v.components, w.components) || PreReleaseCmp(v.preRelease, w.preRelease) <= 0
  {
    NumbersDecide(v, o);
    NumbersDecide(o, w);
    ComponentsCmpIsPadded(v.components, w.components);
    PaddedTransitive(v.components, o.components, w.components);
  }

  /**
   Non-semantic versions of any lengths compare by their padded components; the order is
   transitive and blind to a trailing zero.
   */
  lemma GenericOrder(v: Version, o: Version, w: Version)
    requires !v.semver && !o.semver && !w.semver
    ensures Cmp(v, o) == -1 <==> PaddedBelow(v.components, o.components)
    ensures Cmp(v, o) == 0 <==> PaddedEqual(v.components, o.components)
    ensures Cmp(v, o) <= 0 && Cmp(o, w) <= 0 ==> Cmp(v, w) <= 0
    ensures Cmp(v, o.(components := o.components + [0])) == Cmp(v, o)
  {
    ComponentsCmpIsPadded(v.components, o.components);
    ComponentsCmpIsPadded(o.components, w.components);
    ComponentsCmpIsPadded(v.components, w.components);
    if Cmp(v, o) <= 0 && Cmp(o, w) <= 0 {
      PaddedTransitive(v.components, o.components, w.components);
    }
    ComponentsCmpIsPadded(v.components, o.components + [0]);
    TrailingZero(v.components, o.components);
  }

  lemma TrailingZero(a: seq<uint>, b: seq<uint>)
    ensures PaddedBelow(a, b) <==> PaddedBelow(a, b + [0])
    ensures PaddedBelow(b, a) <==> PaddedBelow(b + [0], a)
  {
    var c := b + [0];
    assert forall i: nat :: At(c, i) == At(b, i);
    forall i: nat ensures BelowAt(a, b, i) <==> BelowAt(a, c, i) {}
    forall i: nat ensures BelowAt(b, a, i) <==> BelowAt(c, a, i) {}
  }
}
