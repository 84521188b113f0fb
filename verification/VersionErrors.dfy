/** What the version parser says of every text: which error, and of which component. */
module VersionErrors {
  import opened Common
  import opened Version
  import opened VersionGrammar
  import opened VersionScanner
  import opened VersionSyntax
  import opened VersionText

  predicate CarriesOn(rest: string) {
    |rest| > 0 && ('0' <= rest[0] <= '9' || (|rest| > 1 && rest[0] == '.' && '0' <= rest[1] <= '9'))
  }

  /** White space, an optional v, digits between dots, and a line's rest that does not carry them on. */
  ghost predicate ReadsAs(str: string, ws: string, lead: string, comps: seq<string>, rest: string) {
    && |comps| > 0 && (forall i :: 0 <= i < |comps| ==> comps[i] != "" && Digits(comps[i]))
    && str == ws + lead + (Join(comps) + rest)
    && WhiteSpace(ws) && (lead == "" || lead == "v") && '\n' !in rest && !CarriesOn(rest)
  }

  lemma ReadingIsMatch(str: string, ws: string, lead: string, comps: seq<string>, rest: string)
    requires ReadsAs(str, ws, lead, comps, rest)
    ensures MatchVersion(str) == Some((Join(comps), rest)) && Split(Join(comps)) == comps
  {
    forall i | 0 <= i < |comps| ensures Digit.All(comps[i]) && '.' !in comps[i] {
      ClassesAgree(comps[i]);
      assert forall j :: 0 <= j < |comps[i]| ==> Digit.Has(comps[i][j]);
    }
    SplitOfJoin(comps);
    ClassesAgree(ws);
    assert VersionShape(str, ws, lead, Join(comps), rest);
    VersionMatchYields(str, Join(comps), rest);
  }

  lemma MatchIsReading(str: string) returns (ws: string, lead: string, comps: seq<string>, rest: string)
    requires MatchVersion(str).Some?
    ensures ReadsAs(str, ws, lead, comps, rest)
  {
    ws, lead := MatchIsShape(str);
    var numbers := MatchVersion(str).value.0;
    comps, rest := Split(numbers), MatchVersion(str).value.1;
    JoinOfSplit(numbers);
    ClassesAgree(ws);
    forall i | 0 <= i < |comps| ensures comps[i] != "" && Digits(comps[i]) {
      ClassesAgree(comps[i]);
    }
  }

  // The components.

  /** A component that does not pass: a leading zero where there must be none, or a number that does not fit. */
  predicate Offends(comp: string, i: nat, semver: bool) {
    ForbiddenZero(comp, i, semver) || DoesNotFit(comp)
  }

  /** A semantic version has no leading zeros, a generic one none in its first number. */
  predicate ForbiddenZero(comp: string, i: nat, semver: bool) {
    (semver || i == 0) && VersionSyntax.LeadingZero(comp)
  }

  function Complaint(comp: string, i: nat, semver: bool): ParseError {
    if ForbiddenZero(comp, i, semver) then ParseError.LeadingZero(comp) else NotANumber(comp)
  }

  lemma ComponentSays(comp: string, i: nat, semver: bool)
    requires comp != "" && Digits(comp)
    ensures var r := ParseComponent(comp, i, semver);
      if Offends(comp, i, semver) then r == Err(Complaint(comp, i, semver)) else r.Ok? && ParseUint(comp) == Some(r.value)
  {
    ClassesAgree(comp);
  }

  predicate Passes(comps: seq<string>, from: nat, to: nat, semver: bool)
    requires to <= |comps|
  {
    forall i :: from <= i < to ==> !Offends(comps[i], i, semver)
  }

  /** The first offender among the components from i on decides. */
  lemma {:induction false} FirstOffenderSays(comps: seq<string>, i: nat, k: nat, semver: bool)
    requires i <= k < |comps| && forall j :: 0 <= j < |comps| ==> comps[j] != "" && Digits(comps[j])
    requires Passes(comps, i, k, semver) && Offends(comps[k], k, semver)
    ensures ParseComponents(comps, i, semver) == Err(Complaint(comps[k], k, semver))
    decreases k - i
  {
    ComponentSays(comps[i], i, semver);
    if i < k {
      FirstOffenderSays(comps, i + 1, k, semver);
    }
  }

  lemma {:induction false} NoOffender(comps: seq<string>, i: nat, semver: bool)
    requires i <= |comps| && forall j :: 0 <= j < |comps| ==> comps[j] != "" && Digits(comps[j])
    requires Passes(comps, i, |comps|, semver)
    ensures ParseComponents(comps, i, semver).Ok?
    decreases |comps| - i
  {
    if i < |comps| {
      ComponentSays(comps[i], i, semver);
      NoOffender(comps, i + 1, semver);
    }
  }

  lemma {:induction false} ComponentsSayNothingElse(comps: seq<string>, i: nat, semver: bool)
    requires i <= |comps|
    ensures ParseComponents(comps, i, semver).Err? ==>
      var e := ParseComponents(comps, i, semver).error; e.LeadingZero? || e.NotANumber?
    decreases |comps| - i
  {
    if i < |comps| {
      ComponentsSayNothingElse(comps, i + 1, semver);
    }
  }

  // What follows the numbers of a semantic version.

  /** A pre-release and build metadata, each absent or a list of identifiers, before white space. */
  ghost predicate ExtraReadsAs(rest: string, pre: string, build: string, end: string) {
    && StrictBuild(pre) && StrictBuild(build) && WhiteSpace(end)
    && rest == (if pre == "" then "" else "-" + pre) + ((if build == "" then "" else "+" + build) + end)
  }

  lemma ExtraSays(rest: string, pre: string, build: string)
    ensures MatchExtra(rest) == Some((pre, build)) <==> exists end :: ExtraReadsAs(rest, pre, build, end)
  {
    ExtraMatchIff(rest, pre, build);
    PartsAgree(pre);
    PartsAgree(build);
    forall end ensures ExtraShape(rest, pre, build, end) <==> ExtraReadsAs(rest, pre, build, end) {
      ClassesAgree(end);
    }
  }

  /** Digits with a leading zero that fit the integer width. */
  predicate BadNumber(id: string) {
    ZeroPrefixedNumeral(id) && !DoesNotFit(id)
  }

  lemma BadNumberIsBad(id: string)
    ensures BadNumber(id) <==> BadIdentifier(id)
  {
    ClassesAgree(id);
  }

  lemma {:induction false} FirstBadSays(ids: seq<string>, k: nat)
    requires k <= |ids| && (forall j :: 0 <= j < k ==> !BadNumber(ids[j])) && (k < |ids| ==> BadNumber(ids[k]))
    ensures FirstBad(ids) == if k < |ids| then Some(ParseError.LeadingZero(ids[k])) else None
  {
    if |ids| > 0 {
      BadNumberIsBad(ids[0]);
      if k > 0 {
        assert forall j :: 0 <= j < |ids| - 1 ==> ids[1..][j] == ids[j + 1];
        FirstBadSays(ids[1..], k - 1);
      }
    }
  }

  lemma {:induction false} FirstBadSaysNothingElse(ids: seq<string>)
    ensures FirstBad(ids).Some? ==> FirstBad(ids).value.LeadingZero?
  {
    if |ids| > 0 {
      FirstBadSaysNothingElse(ids[1..]);
    }
  }

  // The parser.

  /** A text is said to be no version exactly if it cannot be read so. */
  lemma NoVersionIff(str: string, semver: bool)
    ensures Parsed(str, semver) == Err(NoVersion) <==>
      !exists ws, lead, comps, rest :: ReadsAs(str, ws, lead, comps, rest)
  {
    if MatchVersion(str).Some? {
      var ws, lead, comps, rest := MatchIsReading(str);
      ComponentsSayNothingElse(comps, 0, semver);
      if MatchExtra(rest).Some? {
        FirstBadSaysNothingElse(Split(MatchExtra(rest).value.0));
      }
      ReadingIsMatch(str, ws, lead, comps, rest);
    }
    forall ws, lead, comps, rest | ReadsAs(str, ws, lead, comps, rest) ensures MatchVersion(str).Some? {
      ReadingIsMatch(str, ws, lead, comps, rest);
    }
  }

  /**
   What is said of a text that can be read: first its number of components is judged, then the first
   component that offends; and no other text meets these errors.
   */
  lemma NumbersRefused(str: string, ws: string, lead: string, comps: seq<string>, rest: string, semver: bool)
    requires ReadsAs(str, ws, lead, comps, rest)
    ensures var r := Parsed(str, semver); var counted := if semver then |comps| == 3 else |comps| >= 2;
      && (r == Err(WrongNumberOfComponents) <==> !counted)
      && (forall k :: 0 <= k < |comps| && counted && Passes(comps, 0, k, semver) && Offends(comps[k], k, semver) ==>
            r == Err(Complaint(comps[k], k, semver)))
      && (counted && Passes(comps, 0, |comps|, semver) && !semver ==> r.Ok?)
      && (r.Err? && r.error.NotANumber? ==> counted && !Passes(comps, 0, |comps|, semver))
  {
    ReadingIsMatch(str, ws, lead, comps, rest);
    ComponentsSayNothingElse(comps, 0, semver);
    if MatchExtra(rest).Some? {
      FirstBadSaysNothingElse(Split(MatchExtra(rest).value.0));
    }
    forall k | 0 <= k < |comps| && Passes(comps, 0, k, semver) && Offends(comps[k], k, semver)
      ensures ParseComponents(comps, 0, semver) == Err(Complaint(comps[k], k, semver))
    {
      FirstOffenderSays(comps, 0, k, semver);
    }
    if Passes(comps, 0, |comps|, semver) {
      NoOffender(comps, 0, semver);
    }
  }

  /**
   What is said of a semantic version whose three numbers pass: that the rest is no pre-release and
   build metadata, or else which is its first identifier of digits with a leading zero, if there is one.
   */
  lemma ExtraRefused(str: string, ws: string, lead: string, comps: seq<string>, rest: string)
    requires ReadsAs(str, ws, lead, comps, rest) && |comps| == 3 && Passes(comps, 0, 3, true)
    ensures var r := Parsed(str, true);
      && (r == Err(BadExtra) <==> !exists pre, build, end :: ExtraReadsAs(rest, pre, build, end))
      && forall pre, build, end :: ExtraReadsAs(rest, pre, build, end) ==> IdentifiersSay(pre, build, r)
  {
    ReadingIsMatch(str, ws, lead, comps, rest);
    NoOffender(comps, 0, true);
    forall pre, build, end | ExtraReadsAs(rest, pre, build, end)
      ensures MatchExtra(rest) == Some((pre, build)) && IdentifiersSay(pre, build, Parsed(str, true))
    {
      ExtraSays(rest, pre, build);
      IdentifiersDecide(rest, pre, build, end, ParseComponents(comps, 0, true).value, Parsed(str, true));
    }
    if MatchExtra(rest).Some? {
      var (pre, build) := MatchExtra(rest).value;
      FirstBadSaysNothingElse(Split(pre));
      ExtraSays(rest, pre, build);
    }
  }

  /** The first bad number among the identifiers is complained about; without one the text is accepted with its parts. */
  ghost predicate IdentifiersSay(pre: string, build: string, r: Result<Version, ParseError>) {
    && (forall k :: 0 <= k < |Split(pre)| && BadNumber(Split(pre)[k]) && (forall j :: 0 <= j < k ==> !BadNumber(Split(pre)[j])) ==>
          r == Err(ParseError.LeadingZero(Split(pre)[k])))
    && ((forall k :: 0 <= k < |Split(pre)| ==> !BadNumber(Split(pre)[k])) ==>
          r.Ok? && r.value.preRelease == pre && r.value.buildMetadata == build)
  }

  lemma IdentifiersDecide(rest: string, pre: string, build: string, end: string, ns: seq<uint>, r: Result<Version, ParseError>)
    requires ExtraReadsAs(rest, pre, build, end)
    requires r == if rest == "" then Ok(Version(ns, true, "", "")) else
      match ParseExtra(rest) { case Err(e) => Err(e) case Ok((p, b)) => Ok(Version(ns, true, p, b)) }
    ensures IdentifiersSay(pre, build, r)
  {
    ExtraSays(rest, pre, build);
    var ids := Split(pre);
    if rest == "" {
      assert pre == "" && build == "";
      assert ids == [""];
    }
    forall k | 0 <= k < |ids| && BadNumber(ids[k]) && (forall j :: 0 <= j < k ==> !BadNumber(ids[j]))
      ensures FirstBad(ids) == Some(ParseError.LeadingZero(ids[k]))
    {
      FirstBadSays(ids, k);
    }
    if forall k :: 0 <= k < |ids| ==> !BadNumber(ids[k]) {
      FirstBadSays(ids, |ids|);
    }
  }
}
