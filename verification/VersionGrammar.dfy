/**
 What the version parser accepts, as a grammar, and what follows from it: printing is
 the inverse of parsing.
 */
module VersionGrammar {
  import opened Common
  import opened VersionText
  import opened VersionScanner
  import opened Version

  // Components.

  ghost predicate AreNumerals(comps: seq<string>, ns: seq<uint>, i: nat, semver: bool)
    requires i <= |comps|
  {
    && |ns| == |comps| - i
    && forall k :: i <= k < |comps| ==> ParseComponent(comps[k], k, semver) == Ok(ns[k - i])
  }

  lemma {:induction false} ComponentsIff(comps: seq<string>, i: nat, semver: bool, ns: seq<uint>)
    requires i <= |comps|
    ensures ParseComponents(comps, i, semver) == Ok(ns) <==> AreNumerals(comps, ns, i, semver)
    decreases |comps| - i
  {
    if i < |comps| && |ns| > 0 {
      ComponentsIff(comps, i + 1, semver, ns[1..]);
      assert ns == [ns[0]] + ns[1..];
      if AreNumerals(comps, ns, i, semver) {
        assert ParseComponent(comps[i], i, semver) == Ok(ns[0]);
        forall k | i + 1 <= k < |comps| ensures ParseComponent(comps[k], k, semver) == Ok(ns[1..][k - (i + 1)]) {
          assert ns[1..][k - (i + 1)] == ns[k - i];
        }
      }
      if ParseComponents(comps, i, semver) == Ok(ns) {
        var r := ParseComponents(comps, i + 1, semver);
        assert ns[1..] == r.value;
        forall k | i <= k < |comps| ensures ParseComponent(comps[k], k, semver) == Ok(ns[k - i]) {
          if k > i { assert ns[k - i] == ns[1..][k - (i + 1)]; }
        }
      }
    }
  }

  lemma CanonicalComponent(comp: string, n: uint)
    ensures !ZeroPrefixed(comp) && ParseUint(comp) == Some(n) <==> comp == Decimal(n)
  {
    NatOfDecimal(n);
    if !ZeroPrefixed(comp) && ParseUint(comp) == Some(n) {
      DecimalOfNat(comp);
    }
  }

  /** Semantic components are exactly the canonical numerals. */
  lemma SemanticComponentsIff(comps: seq<string>, ns: seq<uint>)
    ensures ParseComponents(comps, 0, true) == Ok(ns) <==> comps == Decimals(ns)
  {
    ComponentsIff(comps, 0, true, ns);
    if |comps| == |ns| {
      forall k | 0 <= k < |comps|
        ensures ParseComponent(comps[k], k, true) == Ok(ns[k]) <==> comps[k] == Decimal(ns[k])
      {
        CanonicalComponent(comps[k], ns[k]);
      }
    }
  }

  lemma NumeralsHaveNoDot(ns: seq<uint>)
    ensures forall i :: 0 <= i < |ns| ==> '.' !in Decimals(ns)[i]
  {
    forall i | 0 <= i < |ns| ensures '.' !in Decimals(ns)[i] {
      var s := Decimal(ns[i]);
      assert forall j :: 0 <= j < |s| ==> Digit.Has(s[j]);
    }
  }

  lemma SplitOfNumbersText(ns: seq<uint>)
    requires |ns| > 0
    ensures Split(NumbersText(ns)) == Decimals(ns) && IsList(Digit, NumbersText(ns))
  {
    NumeralsHaveNoDot(ns);
    SplitOfJoin(Decimals(ns));
  }

  // Identifiers.

  lemma {:induction false} FirstBadIff(ids: seq<string>)
    ensures FirstBad(ids) == None <==> forall i :: 0 <= i < |ids| ==> !BadIdentifier(ids[i])
  {
    if |ids| > 0 {
      FirstBadIff(ids[1..]);
      if FirstBad(ids) == None {
        forall i | 0 <= i < |ids| ensures !BadIdentifier(ids[i]) {
          if i > 0 { assert ids[i] == ids[1..][i - 1]; }
        }
      }
    }
  }

  predicate GoodIdentifiers(pre: string) {
    forall i :: 0 <= i < |Split(pre)| ==> !BadIdentifier(Split(pre)[i])
  }

  // Semantic versions.

  /**
   Clauses 2, 9 and 10 of Semantic Versioning 2.0.0, with the leading-zero rule on
   pre-release identifiers applied to those that fit the integer width.
   */
  predicate WellFormedSemantic(v: Version) {
    && v.semver && |v.components| == 3
    && IsPart(v.preRelease) && IsPart(v.buildMetadata)
    && GoodIdentifiers(v.preRelease)
  }

  predicate Surrounds(str: string, text: string, ws: string, lead: string, end: string) {
    str == ws + lead + (text + end) && IsLead(ws, lead) && AllSpace(end) && '\n' !in end
  }

  lemma PartHasNoNewline(s: string)
    requires IsPart(s)
    ensures '\n' !in s
  {
    if s != "" {
      ListIsListText(Identifier, s);
      forall i | 0 <= i < |s| ensures s[i] != '\n' {
        assert FitsList(Identifier, s, i);
      }
    }
  }

  /** What follows the numbers of a semantic version. */
  function Tail(v: Version, end: string): string {
    Marked('-', v.preRelease) + (Marked('+', v.buildMetadata) + end)
  }

  lemma TailIsExtra(v: Version, end: string)
    requires IsPart(v.preRelease) && IsPart(v.buildMetadata) && AllSpace(end) && '\n' !in end
    ensures ExtraShape(Tail(v, end), v.preRelease, v.buildMetadata, end)
    ensures '\n' !in Tail(v, end) && !Continues(Digit, Tail(v, end))
    ensures Text(v) + end == NumbersText(v.components) + Tail(v, end)
  {
    PartHasNoNewline(v.preRelease);
    PartHasNoNewline(v.buildMetadata);
    var t := Tail(v, end);
    assert |t| > 0 ==> t[0] == '-' || t[0] == '+' || IsSpace(t[0]);
    var n, p, b := NumbersText(v.components), Marked('-', v.preRelease), Marked('+', v.buildMetadata);
    assert (n + (p + b)) + end == n + (p + (b + end));
  }

  lemma SemanticAccepted(str: string, v: Version, ws: string, lead: string, end: string)
    requires WellFormedSemantic(v) && Surrounds(str, Text(v), ws, lead, end)
    ensures Parsed(str, true) == Ok(v)
  {
    var numbers, extra := NumbersText(v.components), Tail(v, end);
    TailIsExtra(v, end);
    SplitOfNumbersText(v.components);
    assert VersionShape(str, ws, lead, numbers, extra);
    VersionMatchYields(str, numbers, extra);
    SemanticComponentsIff(Split(numbers), v.components);
    ExtraMatchIff(extra, v.preRelease, v.buildMetadata);
    FirstBadIff(Split(v.preRelease));
    if extra == "" {
      assert v.preRelease == "" && v.buildMetadata == "";
    }
  }

  lemma SemanticDecomposed(str: string, v: Version) returns (ws: string, lead: string, end: string)
    requires Parsed(str, true) == Ok(v)
    ensures WellFormedSemantic(v) && Surrounds(str, Text(v), ws, lead, end)
  {
    var (numbers, extra) := MatchVersion(str).value;
    ws, lead := MatchIsShape(str);
    SemanticComponentsIff(Split(numbers), v.components);
    JoinOfSplit(numbers);
    assert numbers == NumbersText(v.components);
    FirstBadIff(Split(v.preRelease));
    if extra == "" {
      end := "";
      SplitOfPlain("");
      assert Text(v) == numbers;
    } else {
      ExtraMatchIff(extra, v.preRelease, v.buildMetadata);
      end :| ExtraShape(extra, v.preRelease, v.buildMetadata, end);
      assert extra == Tail(v, end);
      assert forall c :: c in end ==> c in extra;
      TailIsExtra(v, end);
    }
  }

  /**
   The semantic parser accepts exactly well-formed versions, printed, between an optional lead and
   white space without a newline.
   */
  lemma SemanticIff(str: string, v: Version)
    ensures Parsed(str, true) == Ok(v) <==>
      WellFormedSemantic(v) && exists ws, lead, end :: Surrounds(str, Text(v), ws, lead, end)
  {
    if Parsed(str, true) == Ok(v) {
      var ws, lead, end := SemanticDecomposed(str, v);
    }
    if WellFormedSemantic(v) {
      forall ws, lead, end | Surrounds(str, Text(v), ws, lead, end) ensures Parsed(str, true) == Ok(v) {
        SemanticAccepted(str, v, ws, lead, end);
      }
    }
  }

  /** Parsing the printed form of a parsed version gives the version back. */
  lemma SemanticRoundTrip(str: string, v: Version)
    requires Parsed(str, true) == Ok(v)
    ensures Parsed(Text(v), true) == Ok(v)
  {
    var ws, lead, end := SemanticDecomposed(str, v);
    assert "" + "" + (Text(v) + "") == Text(v);
    SemanticAccepted(Text(v), v, "", "", "");
  }

  // Generic versions.

  predicate WellFormedGeneric(v: Version) {
    !v.semver && |v.components| >= 2 && v.preRelease == "" && v.buildMetadata == ""
  }

  /**
   Numerals, of which only the first must be canonical, followed by a text that does not prolong
   them and has no newline.
   */
  predicate GenericText(str: string, v: Version, ws: string, lead: string, numbers: string, rest: string) {
    && VersionShape(str, ws, lead, numbers, rest)
    && !Continues(Digit, rest)
    && |Split(numbers)| == |v.components|
    && !ZeroPrefixed(Split(numbers)[0])
    && forall k :: 0 <= k < |v.components| ==> ParseUint(Split(numbers)[k]) == Some(v.components[k])
  }

  lemma GenericAccepted(str: string, v: Version, ws: string, lead: string, numbers: string, rest: string)
    requires WellFormedGeneric(v) && GenericText(str, v, ws, lead, numbers, rest)
    ensures Parsed(str, false) == Ok(v)
  {
    VersionMatchYields(str, numbers, rest);
    var comps := Split(numbers);
    forall k | 0 <= k < |comps| ensures ParseComponent(comps[k], k, false) == Ok(v.components[k]) {
      assert ParseUint(Split(numbers)[k]) == Some(v.components[k]);
    }
    ComponentsIff(comps, 0, false, v.components);
  }

  /** The generic parser accepts exactly the generic texts of well-formed versions. */
  lemma GenericIff(str: string, v: Version)
    ensures Parsed(str, false) == Ok(v) <==>
      WellFormedGeneric(v) && exists ws, lead, numbers, rest :: GenericText(str, v, ws, lead, numbers, rest)
  {
    if Parsed(str, false) == Ok(v) {
      var (numbers, rest) := MatchVersion(str).value;
      var ws, lead := MatchIsShape(str);
      var comps := Split(numbers);
      ComponentsIff(comps, 0, false, v.components);
      forall k | 0 <= k < |comps| ensures ParseUint(comps[k]) == Some(v.components[k]) {
        assert ParseComponent(comps[k], k, false) == Ok(v.components[k]);
      }
      assert ParseComponent(comps[0], 0, false).Ok?;
      assert GenericText(str, v, ws, lead, numbers, rest);
    }
    if WellFormedGeneric(v) {
      forall ws, lead, numbers, rest | GenericText(str, v, ws, lead, numbers, rest)
        ensures Parsed(str, false) == Ok(v)
      {
        GenericAccepted(str, v, ws, lead, numbers, rest);
      }
    }
  }

  lemma GenericRoundTrip(str: string, v: Version)
    requires Parsed(str, false) == Ok(v)
    ensures Parsed(Text(v), false) == Ok(v)
  {
    GenericIff(str, v);
    var numbers := NumbersText(v.components);
    SplitOfNumbersText(v.components);
    assert Text(v) == numbers;
    assert Text(v) == "" + "" + (numbers + "");
    forall k | 0 <= k < |v.components|
      ensures ParseUint(Split(numbers)[k]) == Some(v.components[k]) && !ZeroPrefixed(Split(numbers)[k])
    {
      CanonicalComponent(Decimal(v.components[k]), v.components[k]);
    }
    assert VersionShape(Text(v), "", "", numbers, "");
    GenericAccepted(Text(v), v, "", "", numbers, "");
  }

  // Consequences.

  /** The printed form is a normal form: parsed versions of one kind that print alike are equal. */
  lemma TextIsInjective(s: string, t: string, semver: bool, v: Version, w: Version)
    requires Parsed(s, semver) == Ok(v) && Parsed(t, semver) == Ok(w) && Text(v) == Text(w)
    ensures v == w
  {
    if semver {
      SemanticRoundTrip(s, v);
      SemanticRoundTrip(t, w);
    } else {
      GenericRoundTrip(s, v);
      GenericRoundTrip(t, w);
    }
  }

  lemma NewlineRejected(str: string, ws: string, semver: bool)
    requires Parsed(str, semver).Ok? && '\n' in ws
    ensures Parsed(str + ws, semver) == Err(NoVersion)
  {
    var lead, v := MatchIsShape(str);
    var (n, e) := MatchVersion(str).value;
    NumbersHaveNoNewline(n);
    var rest := n + (e + ws);
    assert str + ws == lead + v + rest;
    AfterLeadExact(lead, v, rest);
    NewlineMeansNoMatch(str + ws);
  }

  lemma NewlineMeansNoMatch(str: string)
    requires '\n' in AfterLead(str)
    ensures MatchVersion(str) == None
  {
    var s := AfterLead(str);
    var k := ListPrefix(Digit, s);
    if k > 0 {
      ListPrefixIsList(Digit, s);
      ListIsListText(Digit, s[..k]);
      NumbersHaveNoNewline(s[..k]);
      assert s == s[..k] + s[k..];
    }
  }

  lemma NumbersHaveNoNewline(n: string)
    requires IsList(Digit, n)
    ensures '\n' !in n && |n| > 0 && Digit.Has(n[0])
  {
    ListIsListText(Digit, n);
    forall i | 0 <= i < |n| ensures n[i] != '\n' {
      assert FitsList(Digit, n, i);
    }
    assert FitsList(Digit, n, 0);
  }

  /** White space after an accepted version of either kind is ignored exactly when it contains no newline. */
  lemma TrailingSpaceIffNoNewline(str: string, ws: string, semver: bool, v: Version)
    requires Parsed(str, semver) == Ok(v) && AllSpace(ws)
    ensures Parsed(str + ws, semver) == Ok(v) <==> '\n' !in ws
  {
    if '\n' in ws {
      NewlineRejected(str, ws, semver);
    } else if semver {
      SemanticTrailingSpace(str, ws, v);
    } else {
      GenericTrailingSpace(str, ws, v);
    }
  }

  lemma Regroup(a: string, b: string, c: string, d: string, e: string)
    ensures a + b + (c + d) + e == a + b + (c + (d + e))
  {
  }

  lemma SemanticTrailingSpace(str: string, ws: string, v: Version)
    requires Parsed(str, true) == Ok(v) && AllSpace(ws) && '\n' !in ws
    ensures Parsed(str + ws, true) == Ok(v)
  {
    var l, lead, end := SemanticDecomposed(str, v);
    Regroup(l, lead, Text(v), end, ws);
    SemanticAccepted(str + ws, v, l, lead, end + ws);
  }

  lemma GenericTextGrows(str: string, ws: string, v: Version, l: string, lead: string, numbers: string, rest: string)
    requires GenericText(str, v, l, lead, numbers, rest) && AllSpace(ws) && '\n' !in ws
    ensures GenericText(str + ws, v, l, lead, numbers, rest + ws)
  {
    Regroup(l, lead, numbers, rest, ws);
    assert rest == "" ==> rest + ws == ws;
  }

  lemma GenericTrailingSpace(str: string, ws: string, v: Version)
    requires Parsed(str, false) == Ok(v) && AllSpace(ws) && '\n' !in ws
    ensures Parsed(str + ws, false) == Ok(v)
  {
    GenericIff(str, v);
    var l, lead, numbers, rest :| GenericText(str, v, l, lead, numbers, rest);
    GenericTextGrows(str, ws, v, l, lead, numbers, rest);
    GenericAccepted(str + ws, v, l, lead, numbers, rest + ws);
  }
}
