/**
 The syntax of Semantic Versioning 2.0.0 on its own, for numbers of any size, and exactly
 where the semantic parser, which is documented to accept what obeys it, parts from it.
 */
module VersionSyntax {
  import opened Arithmetic
  import opened Common
  import opened Version
  import opened VersionGrammar
  import opened VersionScanner
  import opened VersionText

  // The clauses.

  predicate Digits(s: string) {
    forall i :: 0 <= i < |s| ==> '0' <= s[i] <= '9'
  }

  predicate LeadingZero(s: string) {
    |s| > 1 && s[0] == '0'
  }

  /** Clause 2: a number without leading zeros. */
  predicate Numeral(s: string) {
    s != "" && Digits(s) && !LeadingZero(s)
  }

  /** Clauses 9 and 10: identifiers comprise only ASCII alphanumerics and hyphens, and are not empty. */
  predicate ClauseIdentifier(s: string) {
    s != "" && forall i :: 0 <= i < |s| ==>
      s[i] == '-' || '0' <= s[i] <= '9' || 'A' <= s[i] <= 'Z' || 'a' <= s[i] <= 'z'
  }

  /** Clause 10: build metadata, if there is any, is a series of dot separated identifiers. */
  predicate StrictBuild(build: string) {
    build != "" ==> forall i :: 0 <= i < |Split(build)| ==> ClauseIdentifier(Split(build)[i])
  }

  /** Clause 9: a pre-release identifier must not be digits with a leading zero. */
  predicate ZeroPrefixedNumeral(id: string) {
    Digits(id) && LeadingZero(id)
  }

  /** Clause 9: a pre-release, if there is any, is a series of dot separated identifiers of that kind. */
  predicate StrictPreRelease(pre: string) {
    StrictBuild(pre) && NoneZeroPrefixed(pre)
  }

  predicate NoneZeroPrefixed(pre: string) {
    forall i :: 0 <= i < |Split(pre)| ==> !ZeroPrefixedNumeral(Split(pre)[i])
  }

  /** White space is what the expressions call so: space, tab, newline, return and form feed. */
  predicate WhiteSpace(s: string) {
    forall i :: 0 <= i < |s| ==> s[i] in " \t\n\r\U{0C}"
  }

  /** The parts of a version text: three numerals, and the pre-release and the build metadata, empty if absent. */
  datatype Parts = Parts(major: string, minor: string, patch: string, pre: string, build: string) {

    /** Clauses 2, 9 and 10. */
    predicate Strict() {
      Numeral(major) && Numeral(minor) && Numeral(patch) && StrictPreRelease(pre) && StrictBuild(build)
    }

    function Numbers(): string {
      Join([major, minor, patch])
    }

    function Text(): string {
      Numbers() + (Marked('-', pre) + Marked('+', build))
    }

    /** The three numbers fit the machine width. */
    predicate Fits() {
      ParseUint(major).Some? && ParseUint(minor).Some? && ParseUint(patch).Some?
    }

    function Value(): Version
      requires Fits()
    {
      Version([ParseUint(major).value, ParseUint(minor).value, ParseUint(patch).value], true, pre, build)
    }
  }

  /** What ParseSemantic is documented for: a strict text, after white space and v, before white space. */
  ghost predicate Documented(str: string, p: Parts, ws: string, lead: string, end: string) {
    && p.Strict() && str == ws + lead + (p.Text() + end)
    && WhiteSpace(ws) && (lead == "" || lead == "v") && WhiteSpace(end)
  }

  /** The classes of the parser are those of the clauses. */
  lemma ClassesAgree(s: string)
    ensures Digit.All(s) <==> Digits(s)
    ensures ZeroPrefixed(s) <==> LeadingZero(s)
    ensures s != "" && Identifier.All(s) <==> ClauseIdentifier(s)
    ensures AllSpace(s) <==> WhiteSpace(s)
  {
    assert s != "0" <==> |s| != 1 || s[0] != '0';
  }

  lemma PartsAgree(s: string)
    ensures IsPart(s) <==> StrictBuild(s)
  {
    forall i | 0 <= i < |Split(s)|
      ensures Split(s)[i] != "" && Identifier.All(Split(s)[i]) <==> ClauseIdentifier(Split(s)[i])
    {
      ClassesAgree(Split(s)[i]);
    }
  }

  lemma StrictForParser(p: Parts)
    requires p.Strict()
    ensures forall s :: s in [p.major, p.minor, p.patch] ==> s != "" && Digit.All(s) && !ZeroPrefixed(s)
    ensures IsPart(p.pre) && IsPart(p.build)
    ensures forall i :: 0 <= i < |Split(p.pre)| ==> !(Digit.All(Split(p.pre)[i]) && ZeroPrefixed(Split(p.pre)[i]))
  {
    forall s | s in [p.major, p.minor, p.patch] ensures s != "" && Digit.All(s) && !ZeroPrefixed(s) {
      ClassesAgree(s);
    }
    PartsAgree(p.pre);
    PartsAgree(p.build);
    forall i | 0 <= i < |Split(p.pre)| ensures !(Digit.All(Split(p.pre)[i]) && ZeroPrefixed(Split(p.pre)[i])) {
      ClassesAgree(Split(p.pre)[i]);
    }
  }

  lemma DocumentedForParser(str: string, p: Parts, ws: string, lead: string, end: string)
    requires Documented(str, p, ws, lead, end)
    ensures IsLead(ws, lead) && AllSpace(end)
  {
    ClassesAgree(ws);
    ClassesAgree(end);
  }

  // The parser on documented texts.

  lemma NumbersOf(p: Parts)
    requires p.Strict()
    ensures Split(p.Numbers()) == [p.major, p.minor, p.patch] && IsList(Digit, p.Numbers())
  {
    StrictForParser(p);
    forall s | s in [p.major, p.minor, p.patch] ensures '.' !in s {
      assert forall i :: 0 <= i < |s| ==> Digit.Has(s[i]);
    }
    SplitOfJoin([p.major, p.minor, p.patch]);
  }

  lemma FitsIffDecimals(p: Parts, ns: seq<uint>)
    requires p.Strict()
    ensures [p.major, p.minor, p.patch] == Decimals(ns) <==> p.Fits() && ns == p.Value().components
  {
    StrictForParser(p);
    if |ns| == 3 {
      CanonicalComponent(p.major, ns[0]);
      CanonicalComponent(p.minor, ns[1]);
      CanonicalComponent(p.patch, ns[2]);
    }
  }

  lemma NewlineAtEnd(str: string, p: Parts, ws: string, lead: string, end: string)
    requires Documented(str, p, ws, lead, end) && '\n' in end
    ensures Parsed(str, true) == Err(NoVersion)
  {
    DocumentedForParser(str, p, ws, lead, end);
    NumbersOf(p);
    NumbersHaveNoNewline(p.Numbers());
    AfterLeadExact(ws, lead, p.Text() + end);
    NewlineMeansNoMatch(str);
  }

  lemma MatchOfDocumented(str: string, p: Parts, ws: string, lead: string, end: string)
    requires Documented(str, p, ws, lead, end) && '\n' !in end
    ensures var extra := Marked('-', p.pre) + (Marked('+', p.build) + end);
      MatchVersion(str) == Some((p.Numbers(), extra)) && ExtraShape(extra, p.pre, p.build, end)
  {
    var extra := Marked('-', p.pre) + (Marked('+', p.build) + end);
    DocumentedForParser(str, p, ws, lead, end);
    StrictForParser(p);
    TailIsExtra(Version([], true, p.pre, p.build), end);
    NumbersOf(p);
    assert p.Text() + end == p.Numbers() + extra;
    assert VersionShape(str, ws, lead, p.Numbers(), extra);
    VersionMatchYields(str, p.Numbers(), extra);
  }

  lemma NoneBad(p: Parts)
    requires p.Strict()
    ensures FirstBad(Split(p.pre)) == None
  {
    StrictForParser(p);
    FirstBadIff(Split(p.pre));
  }

  /**
   A documented text is accepted, with the value it denotes, exactly when its three numbers
   fit the machine width and the white space behind it has no newline.
   */
  lemma DocumentedAcceptedIff(str: string, p: Parts, ws: string, lead: string, end: string)
    requires Documented(str, p, ws, lead, end)
    ensures Parsed(str, true).Ok? <==> p.Fits() && '\n' !in end
    ensures Parsed(str, true).Ok? ==> Parsed(str, true) == Ok(p.Value())
  {
    if '\n' in end {
      NewlineAtEnd(str, p, ws, lead, end);
    } else {
      var extra := Marked('-', p.pre) + (Marked('+', p.build) + end);
      MatchOfDocumented(str, p, ws, lead, end);
      NumbersOf(p);
      NoneBad(p);
      ExtraMatchIff(extra, p.pre, p.build);
      assert extra == "" ==> p.pre == "" && p.build == "";
      var comps := [p.major, p.minor, p.patch];
      var r := ParseComponents(comps, 0, true);
      if r.Ok? {
        SemanticComponentsIff(comps, r.value);
        FitsIffDecimals(p, r.value);
      }
      if p.Fits() {
        SemanticComponentsIff(comps, p.Value().components);
        FitsIffDecimals(p, p.Value().components);
      }
    }
  }

  // Accepted texts.

  /** The parts that a parsed version is printed with. */
  function PartsOf(v: Version): Parts
    requires |v.components| == 3
  {
    Parts(Decimal(v.components[0]), Decimal(v.components[1]), Decimal(v.components[2]), v.preRelease, v.buildMetadata)
  }

  lemma TextOfParts(v: Version)
    requires WellFormedSemantic(v)
    ensures PartsOf(v).Text() == Text(v)
    ensures PartsOf(v).Strict() <==> NoneZeroPrefixed(v.preRelease)
  {
    var p := PartsOf(v);
    PartsAgree(v.preRelease);
    PartsAgree(v.buildMetadata);
    ClassesAgree(p.major);
    ClassesAgree(p.minor);
    ClassesAgree(p.patch);
    assert Decimals(v.components) == [p.major, p.minor, p.patch];
    CanonicalComponent(p.major, v.components[0]);
    CanonicalComponent(p.minor, v.components[1]);
    CanonicalComponent(p.patch, v.components[2]);
  }

  /**
   An accepted text is a documented one exactly when no pre-release identifier is digits with a
   leading zero. Where one is, it does not fit the machine width.
   */
  lemma AcceptedDocumentedIff(str: string, v: Version)
    requires Parsed(str, true) == Ok(v)
    ensures (exists p, ws, lead, end :: Documented(str, p, ws, lead, end)) <==> NoneZeroPrefixed(v.preRelease)
    ensures forall i :: 0 <= i < |Split(v.preRelease)| && ZeroPrefixedNumeral(Split(v.preRelease)[i]) ==>
      DoesNotFit(Split(v.preRelease)[i])
  {
    var ws, lead, end := SemanticDecomposed(str, v);
    TextOfParts(v);
    ClassesAgree(ws);
    ClassesAgree(end);
    if NoneZeroPrefixed(v.preRelease) {
      assert Documented(str, PartsOf(v), ws, lead, end);
    }
    forall p, ws, lead, end | Documented(str, p, ws, lead, end) ensures NoneZeroPrefixed(v.preRelease) {
      DocumentedAcceptedIff(str, p, ws, lead, end);
    }
    forall i | 0 <= i < |Split(v.preRelease)| && ZeroPrefixedNumeral(Split(v.preRelease)[i])
      ensures DoesNotFit(Split(v.preRelease)[i])
    {
      ClassesAgree(Split(v.preRelease)[i]);
      assert !BadIdentifier(Split(v.preRelease)[i]);
    }
  }

  predicate DoesNotFit(s: string) {
    Digit.All(s) && NatOf(s) >= 0x1_0000_0000_0000_0000
  }

  // An input for each way in which the two part.

  function Zeros(k: nat): string {
    seq(k, _ => '0')
  }

  lemma OneMoreZero(s: string, t: string)
    requires Digit.All(s) && t == s + "0"
    ensures Digit.All(t) && NatOf(t) == 10 * NatOf(s)
  {
    assert t[..|t| - 1] == s;
  }

  lemma SmallNumbers()
    ensures NatOf("1") == 1 && NatOf("01") == 1
  {
    assert "1"[..0] == "" && "0"[..0] == "";
    assert "01"[..1] == "0" && NatOf("0") == 0;
  }

  lemma {:induction false} PowerOfTen(k: nat)
    ensures Digit.All("1" + Zeros(k)) && NatOf("1" + Zeros(k)) == Pow(10, k)
  {
    if k == 0 {
      SmallNumbers();
      assert "1" + Zeros(0) == "1";
    } else {
      PowerOfTen(k - 1);
      assert Zeros(k) == Zeros(k - 1) + "0";
      OneMoreZero("1" + Zeros(k - 1), "1" + Zeros(k));
    }
  }

  lemma {:induction false} ZeroPowerOfTen(k: nat)
    ensures Digit.All("01" + Zeros(k)) && NatOf("01" + Zeros(k)) == Pow(10, k)
  {
    if k == 0 {
      SmallNumbers();
      assert "01" + Zeros(0) == "01";
    } else {
      ZeroPowerOfTen(k - 1);
      assert Zeros(k) == Zeros(k - 1) + "0";
      OneMoreZero("01" + Zeros(k - 1), "01" + Zeros(k));
    }
  }

  lemma TenToTheTwentieth()
    ensures Pow(10, 20) >= UINT_LIMIT
  {
    assert Pow(10, 5) == 100000;
    assert Pow(10, 10) == 10000000000;
    assert Pow(10, 15) == 1000000000000000;
  }

  /** Accepted, although clause 9 forbids it: an identifier of digits with a leading zero, too large to be looked at. */
  lemma LeadingZeroAccepted()
    ensures var str := "1.0.0-01" + Zeros(20);
      Parsed(str, true).Ok? && !exists p, ws, lead, end :: Documented(str, p, ws, lead, end)
  {
    var pre := "01" + Zeros(20);
    var str, v := "1.0.0-01" + Zeros(20), Version([1, 0, 0], true, pre, "");
    ZeroPowerOfTen(20);
    TenToTheTwentieth();
    assert '.' !in pre;
    SplitOfPlain(pre);
    assert WellFormedSemantic(v);
    SmallText(v);
    assert Surrounds(str, Text(v), "", "", "");
    SemanticAccepted(str, v, "", "", "");
    AcceptedDocumentedIff(str, v);
    assert ZeroPrefixedNumeral(Split(pre)[0]);
  }

  lemma SmallText(v: Version)
    requires v.components == [1, 0, 0]
    ensures Text(v) == "1.0.0" + (Marked('-', v.preRelease) + Marked('+', v.buildMetadata))
  {
    assert Decimal(1) == "1" && Decimal(0) == "0";
    assert Decimals(v.components) == ["1", "0", "0"];
    assert Join(["1", "0", "0"]) == "1.0.0";
  }

  /** Rejected, although clause 2 allows it: a number that does not fit. */
  lemma LargeNumberRejected()
    ensures var str := "1" + Zeros(20) + ".0.0"; var p := Parts("1" + Zeros(20), "0", "0", "", "");
      Documented(str, p, "", "", "") && Parsed(str, true).Err?
  {
    var str, p := "1" + Zeros(20) + ".0.0", Parts("1" + Zeros(20), "0", "0", "", "");
    PowerOfTen(20);
    TenToTheTwentieth();
    StrictWithoutParts(p);
    assert [p.major, "0", "0"][1..] == ["0", "0"] && Dotted(["0", "0"]) == ".0.0";
    assert p.Numbers() == str;
    assert "" + "" + (p.Text() + "") == str;
    DocumentedAcceptedIff(str, p, "", "", "");
  }

  lemma StrictWithoutParts(p: Parts)
    requires Numeral(p.major) && Numeral(p.minor) && Numeral(p.patch) && p.pre == p.build == ""
    ensures p.Strict() && p.Text() == p.Numbers()
  {
    SplitOfPlain("");
  }

  /** Rejected, although white space behind a version is documented as ignored. */
  lemma NewlineRejectedExample()
    ensures Documented("1.0.0\n", Parts("1", "0", "0", "", ""), "", "", "\n") && Parsed("1.0.0\n", true).Err?
  {
    var p := Parts("1", "0", "0", "", "");
    StrictWithoutParts(p);
    assert p.Numbers() == "1.0.0";
    assert "" + "" + (p.Text() + "\n") == "1.0.0\n";
    DocumentedAcceptedIff("1.0.0\n", p, "", "", "\n");
  }
}
