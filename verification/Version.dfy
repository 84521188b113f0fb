/** Versions: parsing, printing and comparing. */
module Version {
  import opened Common
  import opened VersionText
  import opened VersionScanner

  datatype Version = Version(components: seq<uint>, semver: bool, preRelease: string, buildMetadata: string)

  datatype ParseError =
    | NoVersion
    | WrongNumberOfComponents
    | LeadingZero(comp: string)
    | NotANumber(comp: string)
    | BadExtra

  // Parsing.

  predicate CountFits(n: nat, semver: bool) {
    if semver then n == 3 else n >= 2
  }

  /** Component i as a number, or what is wrong with it. */
  function ParseComponent(comp: string, i: nat, semver: bool): Result<uint, ParseError> {
    if (i == 0 || semver) && ZeroPrefixed(comp) then Err(LeadingZero(comp))
    else match ParseUint(comp)
         case None => Err(NotANumber(comp))
         case Some(n) => Ok(n)
  }

  /** Components i, i+1, ... as numbers, or the first thing wrong. */
  function ParseComponents(comps: seq<string>, i: nat, semver: bool): (r: Result<seq<uint>, ParseError>)
    requires i <= |comps|
    ensures r.Ok? ==> |r.value| == |comps| - i
    decreases |comps| - i
  {
    if i == |comps| then Ok([]) else
      match ParseComponent(comps[i], i, semver)
      case Err(e) => Err(e)
      case Ok(n) =>
        match ParseComponents(comps, i + 1, semver)
        case Err(e) => Err(e)
        case Ok(ns) => Ok([n] + ns)
  }

  /** An identifier of digits that fits the integer width must not have a leading zero. */
  predicate BadIdentifier(id: string) {
    ParseUint(id).Some? && ZeroPrefixed(id)
  }

  function FirstBad(ids: seq<string>): Option<ParseError> {
    if |ids| == 0 then None
    else if BadIdentifier(ids[0]) then Some(LeadingZero(ids[0]))
    else FirstBad(ids[1..])
  }

  function ParseExtra(extra: string): Result<(string, string), ParseError> {
    match MatchExtra(extra)
    case None => Err(BadExtra)
    case Some((pre, build)) =>
      match FirstBad(Split(pre))
      case Some(e) => Err(e)
      case None => Ok((pre, build))
  }

  function Parsed(str: string, semver: bool): Result<Version, ParseError> {
    match MatchVersion(str)
    case None => Err(NoVersion)
    case Some((numbers, extra)) =>
      var comps := Split(numbers);
      if !CountFits(|comps|, semver) then Err(WrongNumberOfComponents) else
        match ParseComponents(comps, 0, semver)
        case Err(e) => Err(e)
        case Ok(ns) =>
          if !semver || extra == "" then Ok(Version(ns, semver, "", "")) else
            match ParseExtra(extra)
            case Err(e) => Err(e)
            case Ok((pre, build)) => Ok(Version(ns, semver, pre, build))
  }

  /** The parser, with its two loops. */
  method Parse(str: string, semver: bool) returns (r: Result<Version, ParseError>)
    ensures r == Parsed(str, semver)
  {
    var parts := MatchVersion(str);
    if parts.None? {
      return Err(NoVersion);
    }
    var (numbers, extra) := parts.value;
    var comps := Split(numbers);
    if !CountFits(|comps|, semver) {
      return Err(WrongNumberOfComponents);
    }
    var components := new uint[|comps|](_ => 0);
    AfterNothing(ParseComponents(comps, 0, semver));
    assert components[..0] == [];
    for i := 0 to |comps|
      invariant ParseComponents(comps, 0, semver) == After(components[..i], ParseComponents(comps, i, semver))
    {
      if (i == 0 || semver) && ZeroPrefixed(comps[i]) {
        return Err(LeadingZero(comps[i]));
      }
      var num := ParseUint(comps[i]);
      if num.None? {
        return Err(NotANumber(comps[i]));
      }
      components[i] := num.value;
      ghost var before := components[..i];
      assert components[..i + 1] == before + [num.value];
      AfterNext(before, num.value, ParseComponents(comps, i + 1, semver));
    }
    assert components[..|comps|] == components[..] && components[..] + [] == components[..];
    var v := Version(components[..], semver, "", "");
    if semver && extra != "" {
      var extraParts := MatchExtra(extra);
      if extraParts.None? {
        return Err(BadExtra);
      }
      v := v.(preRelease := extraParts.value.0, buildMetadata := extraParts.value.1);
      var ids := Split(v.preRelease);
      for i := 0 to |ids|
        invariant FirstBad(ids) == FirstBad(ids[i..])
      {
        if ParseUint(ids[i]).Some? && ZeroPrefixed(ids[i]) {
          return Err(LeadingZero(ids[i]));
        }
      }
    }
    r := Ok(v);
  }

  /** The numbers read so far, in front of the outcome of the rest. */
  function After(ns: seq<uint>, r: Result<seq<uint>, ParseError>): Result<seq<uint>, ParseError> {
    match r
    case Err(e) => Err(e)
    case Ok(ms) => Ok(ns + ms)
  }

  lemma AfterNothing(r: Result<seq<uint>, ParseError>)
    ensures After([], r) == r
  {
    if r.Ok? {
      assert [] + r.value == r.value;
    }
  }

  lemma AfterNext(ns: seq<uint>, n: uint, r: Result<seq<uint>, ParseError>)
    ensures After(ns, After([n], r)) == After(ns + [n], r)
  {
    if r.Ok? {
      assert ns + ([n] + r.value) == (ns + [n]) + r.value;
    }
  }

  // Printing.

  function Decimals(ns: seq<uint>): (ps: seq<string>)
    ensures |ps| == |ns| && forall i :: 0 <= i < |ns| ==> ps[i] == Decimal(ns[i])
  {
    seq(|ns|, i requires 0 <= i < |ns| => Decimal(ns[i]))
  }

  function NumbersText(ns: seq<uint>): string {
    if |ns| == 0 then "" else Join(Decimals(ns))
  }

  function Text(v: Version): string {
    NumbersText(v.components) + (Marked('-', v.preRelease) + Marked('+', v.buildMetadata))
  }

  /** The printer, writing to a buffer. */
  method String(v: Version) returns (s: string)
    ensures s == Text(v)
  {
    s := "";
    for i := 0 to |v.components|
      invariant s == NumbersText(v.components[..i])
    {
      TextGrows(v.components[..i], v.components[i]);
      assert v.components[..i + 1] == v.components[..i] + [v.components[i]];
      if i > 0 {
        s := s + ".";
      }
      s := s + Decimal(v.components[i]);
    }
    assert v.components[..|v.components|] == v.components;
    if v.preRelease != "" {
      s := s + "-" + v.preRelease;
    }
    if v.buildMetadata != "" {
      s := s + "+" + v.buildMetadata;
    }
  }

  lemma {:induction false} JoinGrows(ps: seq<string>, p: string)
    requires |ps| > 0
    ensures Join(ps + [p]) == Join(ps) + "." + p
  {
    assert (ps + [p])[1..] == ps[1..] + [p];
    if |ps| == 1 {
      assert Join([p]) == p;
    } else {
      JoinGrows(ps[1..], p);
    }
  }

  lemma TextGrows(ns: seq<uint>, n: uint)
    ensures NumbersText(ns + [n]) == NumbersText(ns) + (if |ns| > 0 then "." else "") + Decimal(n)
  {
    assert Decimals(ns + [n]) == Decimals(ns) + [Decimal(n)];
    if |ns| > 0 {
      JoinGrows(Decimals(ns), Decimal(n));
    } else {
      assert ns + [n] == [n] && Decimals([n]) == [Decimal(n)];
      assert Join([Decimal(n)]) == Decimal(n);
    }
  }
}
