/**
 What a list of options settles, read off the list by positions: of the options for one
 setting the last that is not ignored decides, and without one the setting stays.
 */
module ShortCodeOptions {
  import opened Common
  import opened ShortCode

  datatype Setting = Chars | N1 | N2 | Length | Salt

  /** The option is for that setting and is not ignored. */
  predicate Carries(o: CodeOption, s: Setting) {
    match s
    case Chars => o.WithChars? && o.arr != ""
    case N1 => o.WithN1?
    case N2 => o.WithN2?
    case Length => o.WithL? && o.l >= 1
    case Salt => o.WithSalt? && o.salt != 0
  }

  ghost predicate Decides(os: seq<CodeOption>, i: nat, s: Setting) {
    i < |os| && Carries(os[i], s) && forall j :: i < j < |os| ==> !Carries(os[j], s)
  }

  ghost predicate Silent(os: seq<CodeOption>, s: Setting) {
    forall j :: 0 <= j < |os| ==> !Carries(os[j], s)
  }

  /** One option, and none but it, decides a setting, unless the list is silent about it. */
  lemma {:induction false} OneDecides(os: seq<CodeOption>, s: Setting)
    ensures Silent(os, s) <==> !exists i: nat :: Decides(os, i, s)
    ensures forall i: nat, j: nat :: Decides(os, i, s) && Decides(os, j, s) ==> i == j
  {
    if os != [] {
      var last := |os| - 1;
      OneDecides(os[..last], s);
      if Carries(os[last], s) {
        assert Decides(os, last, s);
      } else {
        assert forall i: nat :: Decides(os[..last], i, s) ==> Decides(os, i, s);
      }
    }
  }

  /** The settings carry what the option says of the setting. */
  predicate Follows(q: Params, o: CodeOption, s: Setting)
    requires Carries(o, s)
  {
    match s
    case Chars => q.chars == o.arr
    case N1 => q.n1 == o.n1
    case N2 => q.n2 == o.n2
    case Length => q.l == o.l
    case Salt => q.salt == o.salt
  }

  predicate Keeps(q: Params, p: Params, s: Setting) {
    match s
    case Chars => q.chars == p.chars
    case N1 => q.n1 == p.n1
    case N2 => q.n2 == p.n2
    case Length => q.l == p.l
    case Salt => q.salt == p.salt
  }

  lemma DecidesInFront(os: seq<CodeOption>, i: nat, s: Setting)
    requires os != [] && Decides(os, i, s) && !Carries(os[|os| - 1], s)
    ensures Decides(os[..|os| - 1], i, s) && os[..|os| - 1][i] == os[i]
  {
  }

  /** Whatever the length and the order of the list, each setting is that of the option that decides it. */
  lemma {:induction false} LastOptionDecides(p: Params, os: seq<CodeOption>, s: Setting)
    ensures forall i: nat :: Decides(os, i, s) ==> Follows(AppliedAll(p, os), os[i], s)
    ensures Silent(os, s) ==> Keeps(AppliedAll(p, os), p, s)
  {
    if os != [] {
      var last := |os| - 1;
      LastOptionDecides(p, os[..last], s);
      OneOption(AppliedAll(p, os[..last]), os[last], s);
      forall i: nat | Decides(os, i, s) ensures Follows(AppliedAll(p, os), os[i], s) {
        if i != last { DecidesInFront(os, i, s); }
      }
    }
  }

  lemma OneOption(p: Params, o: CodeOption, s: Setting)
    ensures if Carries(o, s) then Follows(Applied(p, o), o, s) else Keeps(Applied(p, o), p, s)
  {
  }

  lemma OnlyOneDecides(os: seq<CodeOption>, o: CodeOption, s: Setting)
    requires multiset(os)[o] == 1 && Carries(o, s) && forall x :: x in multiset(os) && Carries(x, s) ==> x == o
    ensures Follows(AppliedAll(DEFAULT_PARAMS, os), o, s)
  {
    assert o in multiset(os) && o in os;
    OneDecides(os, s);
    var i: nat :| Decides(os, i, s);
    assert os[i] in multiset(os);
    LastOptionDecides(DEFAULT_PARAMS, os, s);
  }

  /** One option for each setting, in whatever order. */
  lemma FiveOptions(os: seq<CodeOption>)
    requires multiset(os) == multiset{WithChars("0123456789"), WithN1(9), WithN2(3), WithL(5), WithSalt(56789)}
    ensures AppliedAll(DEFAULT_PARAMS, os) == Params("0123456789", 9, 3, 5, 56789)
  {
    OnlyOneDecides(os, WithChars("0123456789"), Chars);
    OnlyOneDecides(os, WithN1(9), N1);
    OnlyOneDecides(os, WithN2(3), N2);
    OnlyOneDecides(os, WithL(5), Length);
    OnlyOneDecides(os, WithSalt(56789), Salt);
  }
}
