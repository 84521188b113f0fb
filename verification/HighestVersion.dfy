/** The highest supported version of a list. */
module HighestVersion {
  import opened Common
  import opened Version
  import opened VersionGrammar
  import opened VersionCompare

  datatype HighestError =
    | EmptyList
    | NoneFound
    | NotMajorOne(v: Version)

  /** An entry that parses, with a major number of at most one. */
  predicate Considered(s: string) {
    Parsed(s, false).Ok? && |Parsed(s, false).value.components| > 0 && Parsed(s, false).value.components[0] <= 1
  }

  predicate ParsesWithMajor(s: string, m: nat) {
    Parsed(s, false).Ok? && |Parsed(s, false).value.components| > 0 && Parsed(s, false).value.components[0] == m
  }

  function VersionOf(s: string): Version
    requires Considered(s)
  {
    Parsed(s, false).value
  }

  predicate HasMajorOne(s: string) {
    Considered(s) && VersionOf(s).components[0] == 1
  }

  /** Entry i is a maximum of the entries from position from on, and the last of its equals. */
  predicate IsHighest(versions: seq<string>, i: nat, from: nat)
    requires from <= i < |versions|
  {
    && Considered(versions[i])
    && (forall j :: from <= j < |versions| && Considered(versions[j]) ==>
          AtLeast(VersionOf(versions[i]), VersionOf(versions[j])))
    && (forall j :: i < j < |versions| && Considered(versions[j]) ==>
          LessThan(VersionOf(versions[j]), VersionOf(versions[i])))
  }

  lemma ParsedGenericShape(s: string)
    requires Parsed(s, false).Ok?
    ensures WellFormedGeneric(Parsed(s, false).value)
  {
    GenericIff(s, Parsed(s, false).value);
  }

  /** Entries order: a strictly greater entry in front is at least every entry behind. */
  lemma NewHighest(versions: seq<string>, held: nat, i: nat)
    requires i < held < |versions| && IsHighest(versions, held, i + 1)
    requires Considered(versions[i]) && LessThan(VersionOf(versions[held]), VersionOf(versions[i]))
    ensures IsHighest(versions, i, i)
  {
    var v, w := VersionOf(versions[i]), VersionOf(versions[held]);
    ParsedGenericShape(versions[i]);
    ParsedGenericShape(versions[held]);
    CmpSelf(v);
    forall j | i < j < |versions| && Considered(versions[j])
      ensures LessThan(VersionOf(versions[j]), v) && AtLeast(v, VersionOf(versions[j]))
    {
      var u := VersionOf(versions[j]);
      ParsedGenericShape(versions[j]);
      BelowThrough(u, w, v);
    }
  }

  lemma CmpSelf(v: Version)
    ensures Cmp(v, v) == 0
  {
    CommonCmpSelf(v.components, 0);
  }

  /** At most w, and w below v. */
  lemma BelowThrough(u: Version, w: Version, v: Version)
    requires !u.semver && !w.semver && !v.semver && AtLeast(w, u) && LessThan(w, v)
    ensures LessThan(u, v) && AtLeast(v, u)
  {
    CmpOpposite(w, u);
    CmpOpposite(u, v);
    CmpOpposite(w, v);
    GenericOrder(u, w, v);
    GenericOrder(v, u, w);
  }

  /** An older highest entry stays highest when the entry in front is not above it. */
  lemma KeepHighest(versions: seq<string>, held: nat, i: nat)
    requires i < held < |versions| && IsHighest(versions, held, i + 1)
    requires Considered(versions[i]) ==> !LessThan(VersionOf(versions[held]), VersionOf(versions[i]))
    ensures IsHighest(versions, held, i)
  {
  }

  lemma MajorDecides(v: Version, w: Version)
    requires |v.components| > 0 && |w.components| > 0
    ensures v.components[0] < w.components[0] ==> !AtLeast(v, w)
  {
    assert v.components[0] != w.components[0] ==>
      CommonCmp(v.components, w.components, 0) == Sign(v.components[0], w.components[0]);
  }

  /** A highest entry has major number one exactly when some entry has. */
  lemma HighestMajor(versions: seq<string>, i: nat)
    requires i < |versions| && IsHighest(versions, i, 0)
    ensures VersionOf(versions[i]).components[0] == 1 <==> exists j :: 0 <= j < |versions| && HasMajorOne(versions[j])
  {
    if j :| 0 <= j < |versions| && HasMajorOne(versions[j]) {
      var v, w := VersionOf(versions[i]), VersionOf(versions[j]);
      MajorDecides(v, w);
    }
    if VersionOf(versions[i]).components[0] == 1 {
      assert HasMajorOne(versions[i]);
    }
  }

  lemma MajorsOf(versions: seq<string>)
    ensures forall j :: 0 <= j < |versions| ==>
      && (ParsesWithMajor(versions[j], 1) <==> HasMajorOne(versions[j]))
      && (Considered(versions[j]) <==> ParsesWithMajor(versions[j], 0) || ParsesWithMajor(versions[j], 1))
  {
  }

  /** No entry considered is above a highest one in the order of the padded components. */
  lemma HighestIsPadded(versions: seq<string>, i: nat)
    requires i < |versions| && IsHighest(versions, i, 0)
    ensures forall j, m: nat :: 0 <= j < |versions| && m <= 1 && ParsesWithMajor(versions[j], m) ==>
      !PaddedBelow(VersionOf(versions[i]).components, Parsed(versions[j], false).value.components)
  {
    forall j, m: nat | 0 <= j < |versions| && m <= 1 && ParsesWithMajor(versions[j], m)
      ensures !PaddedBelow(VersionOf(versions[i]).components, Parsed(versions[j], false).value.components)
    {
      ParsedGenericShape(versions[i]);
      ParsedGenericShape(versions[j]);
      assert AtLeast(VersionOf(versions[i]), VersionOf(versions[j]));
      LessThanIsNotAtLeast(VersionOf(versions[i]), VersionOf(versions[j]));
    }
  }

  /** The highest entry of those from position from on, if there is any. */
  ghost predicate Best(versions: seq<string>, highest: Option<Version>, at: nat, from: nat)
    requires from <= |versions|
  {
    if highest.None? then forall j :: from <= j < |versions| ==> !Considered(versions[j])
    else from <= at < |versions| && IsHighest(versions, at, from) && highest.value == VersionOf(versions[at])
  }

  lemma BestKept(versions: seq<string>, highest: Option<Version>, at: nat, i: nat)
    requires i < |versions| && Best(versions, highest, at, i + 1)
    requires Considered(versions[i]) ==> highest.Some? && !LessThan(highest.value, VersionOf(versions[i]))
    ensures Best(versions, highest, at, i)
  {
    if highest.Some? {
      KeepHighest(versions, at, i);
    }
  }

  lemma BestReplaced(versions: seq<string>, highest: Option<Version>, at: nat, i: nat)
    requires i < |versions| && Best(versions, highest, at, i + 1) && Considered(versions[i])
    requires highest.Some? ==> LessThan(highest.value, VersionOf(versions[i]))
    ensures Best(versions, Some(VersionOf(versions[i])), i, i)
  {
    if highest.Some? {
      NewHighest(versions, at, i);
    } else {
      CmpSelf(VersionOf(versions[i]));
    }
  }

  /** The loop, from the end of the list to its front. */
  method FindHighest(versions: seq<string>) returns (highest: Option<Version>, ghost at: nat)
    ensures Best(versions, highest, at, 0)
    ensures highest.None? <==> forall j :: 0 <= j < |versions| ==> !Considered(versions[j])
    ensures highest.Some? ==>
      exists j :: 0 <= j < |versions| && IsHighest(versions, j, 0) && highest.value == VersionOf(versions[j])
  {
    highest, at := None, 0;
    var i := |versions|;
    while i > 0
      invariant 0 <= i <= |versions| && Best(versions, highest, at, i)
    {
      i := i - 1;
      var current := Parse(versions[i], false);
      if current.Err? {
        BestKept(versions, highest, at, i);
        continue;
      }
      ParsedGenericShape(versions[i]);
      if current.value.components[0] > 1 {
        BestKept(versions, highest, at, i);
        continue;
      }
      var replace := highest.None?;
      if !replace {
        var c := CompareInternal(highest.value, current.value);
        replace := c == -1;
      }
      if replace {
        BestReplaced(versions, highest, at, i);
        highest, at := Some(current.value), i;
      } else {
        BestKept(versions, highest, at, i);
      }
    }
  }

  /**
   The highest version is found exactly when some entry parses with major number one. It
   is then an entry at least as high as every entry considered, and the last of its equals.
   */
  method HighestSupportedVersion(versions: seq<string>) returns (r: Result<Version, HighestError>)
    ensures r.Ok? <==> exists j :: 0 <= j < |versions| && HasMajorOne(versions[j])
    ensures r.Ok? ==> r.value.components != [] && r.value.components[0] == 1
    ensures r.Ok? ==> exists i :: 0 <= i < |versions| && IsHighest(versions, i, 0) && r.value == VersionOf(versions[i])
    ensures forall v :: r == Err(NotMajorOne(v)) ==>
      exists i :: 0 <= i < |versions| && IsHighest(versions, i, 0) && v == VersionOf(versions[i])
    ensures r == Err(EmptyList) <==> |versions| == 0
    ensures r == Err(NoneFound) <==> |versions| > 0 && forall j :: 0 <= j < |versions| ==> !Considered(versions[j])
    ensures r.Ok? <==> exists j :: 0 <= j < |versions| && ParsesWithMajor(versions[j], 1)
    ensures r.Err? && r.error.NotMajorOne? <==>
      && (forall j :: 0 <= j < |versions| ==> !ParsesWithMajor(versions[j], 1))
      && exists j :: 0 <= j < |versions| && ParsesWithMajor(versions[j], 0)
    ensures r.Ok? ==> forall j, m: nat :: 0 <= j < |versions| && m <= 1 && ParsesWithMajor(versions[j], m) ==>
      !PaddedBelow(r.value.components, Parsed(versions[j], false).value.components)
  {
    if |versions| == 0 {
      return Err(EmptyList);
    }
    var highest, at := FindHighest(versions);
    if highest.None? {
      return Err(NoneFound);
    }
    HighestMajor(versions, at);
    MajorsOf(versions);
    HighestIsPadded(versions, at);
    if highest.value.components[0] != 1 {
      return Err(NotMajorOne(highest.value));
    }
    r := Ok(highest.value);
  }
}
