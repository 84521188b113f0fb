/**
 The two anchored expressions of the version parser as hand scanners, each beside the
 declarative shape of the text it accepts.
 */
module VersionScanner {
  import opened Common
  import opened VersionText

  // Longest dotted list at the front of a text.

  function ListEnd(cls: CharClass, s: string, i: nat): (k: nat)
    requires 0 < i <= |s|
    ensures i <= k <= |s|
    decreases |s| - i
  {
    if i < |s| && cls.Has(s[i]) then ListEnd(cls, s, i + 1)
    else if i + 1 < |s| && s[i] == '.' && cls.Has(s[i + 1]) then ListEnd(cls, s, i + 2)
    else i
  }

  function ListPrefix(cls: CharClass, s: string): (k: nat)
    ensures k <= |s|
  {
    if |s| > 0 && cls.Has(s[0]) then ListEnd(cls, s, 1) else 0
  }

  /** A text that would prolong a list in front of it. */
  predicate Continues(cls: CharClass, r: string) {
    |r| > 0 && (cls.Has(r[0]) || (|r| > 1 && r[0] == '.' && cls.Has(r[1])))
  }

  lemma {:induction false} ListEndIsList(cls: CharClass, s: string, i: nat)
    requires 0 < i <= |s| && IsListText(cls, s[..i])
    ensures IsListText(cls, s[..ListEnd(cls, s, i)]) && !Continues(cls, s[ListEnd(cls, s, i)..])
    decreases |s| - i
  {
    var j := if i < |s| && cls.Has(s[i]) then i + 1
             else if i + 1 < |s| && s[i] == '.' && cls.Has(s[i + 1]) then i + 2 else i;
    if j > i {
      var t, u := s[..i], s[..j];
      assert cls.Has(u[i - 1]) by { assert FitsList(cls, t, i - 1); }
      forall m | 0 <= m < j ensures FitsList(cls, u, m) {
        if m < i { assert FitsList(cls, t, m); }
      }
      ListEndIsList(cls, s, j);
    }
  }

  /** Scanning passes through the end of every list at the front. */
  lemma {:induction false} ListEndPasses(cls: CharClass, s: string, i: nat, j: nat)
    requires 0 < i <= j <= |s| && IsListText(cls, s[..j])
    ensures ListEnd(cls, s, i) == ListEnd(cls, s, j)
    decreases j - i
  {
    if i < j {
      assert FitsList(cls, s[..j], i);
      ListEndPasses(cls, s, if cls.Has(s[i]) then i + 1 else i + 2, j);
    }
  }

  lemma ListPrefixPasses(cls: CharClass, n: string, e: string)
    requires IsListText(cls, n)
    ensures ListPrefix(cls, n + e) >= |n|
    ensures !Continues(cls, e) ==> ListPrefix(cls, n + e) == |n|
  {
    var s := n + e;
    assert s[..|n|] == n && s[|n|..] == e;
    assert FitsList(cls, n, 0);
    ListEndPasses(cls, s, 1, |n|);
    if !Continues(cls, e) {
      assert |e| > 0 ==> s[|n|] == e[0];
      assert |e| > 1 ==> s[|n| + 1] == e[1];
    }
  }

  lemma ListPrefixIsList(cls: CharClass, s: string)
    requires ListPrefix(cls, s) > 0
    ensures IsListText(cls, s[..ListPrefix(cls, s)]) && !Continues(cls, s[ListPrefix(cls, s)..])
  {
    assert FitsList(cls, s[..1], 0);
    ListEndIsList(cls, s, 1);
  }

  // Numbers and the rest.

  /** The text after leading white space and an optional v. */
  function AfterLead(s: string): string {
    if |s| > 0 && IsSpace(s[0]) then AfterLead(s[1..])
    else if |s| > 0 && s[0] == 'v' then s[1..]
    else s
  }

  /** The first expression: the dotted numbers and what follows them. */
  function MatchVersion(str: string): Option<(string, string)> {
    var s := AfterLead(str);
    var k := ListPrefix(Digit, s);
    if k == 0 || '\n' in s[k..] then None else Some((s[..k], s[k..]))
  }

  predicate IsLead(ws: string, v: string) {
    AllSpace(ws) && (v == "" || v == "v")
  }

  predicate VersionShape(str: string, ws: string, v: string, numbers: string, extra: string) {
    && str == ws + v + (numbers + extra)
    && IsLead(ws, v)
    && IsList(Digit, numbers)
    && '\n' !in extra
  }

  lemma {:induction false} AfterLeadExact(ws: string, v: string, rest: string)
    requires IsLead(ws, v) && |rest| > 0 && Digit.Has(rest[0])
    ensures AfterLead(ws + v + rest) == rest
  {
    var s := ws + v + rest;
    if |ws| > 0 {
      assert s[1..] == ws[1..] + v + rest;
      AfterLeadExact(ws[1..], v, rest);
    } else if v == "v" {
      assert s == ['v'] + rest;
    } else {
      assert s == rest;
    }
  }

  lemma {:induction false} AfterLeadSplits(s: string) returns (ws: string, v: string)
    ensures IsLead(ws, v) && s == ws + v + AfterLead(s)
  {
    if |s| > 0 && IsSpace(s[0]) {
      var ws', v' := AfterLeadSplits(s[1..]);
      ws, v := [s[0]] + ws', v';
      assert s == [s[0]] + s[1..];
    } else {
      ws, v := "", if |s| > 0 && s[0] == 'v' then "v" else "";
    }
  }

  /** Every shape is found, and the numbers found are the longest of all shapes. */
  lemma VersionShapeFound(str: string, ws: string, v: string, numbers: string, extra: string)
    requires VersionShape(str, ws, v, numbers, extra)
    ensures MatchVersion(str).Some? && numbers <= MatchVersion(str).value.0
    ensures !Continues(Digit, extra) ==> MatchVersion(str) == Some((numbers, extra))
  {
    ListIsListText(Digit, numbers);
    assert FitsList(Digit, numbers, 0);
    var s := numbers + extra;
    assert s[0] == numbers[0];
    AfterLeadExact(ws, v, s);
    ListPrefixPasses(Digit, numbers, extra);
    var k := ListPrefix(Digit, s);
    assert s[k..] == extra[k - |numbers|..];
    assert numbers <= s[..k];
  }

  lemma MatchIsShape(str: string) returns (ws: string, v: string)
    requires MatchVersion(str).Some?
    ensures VersionShape(str, ws, v, MatchVersion(str).value.0, MatchVersion(str).value.1)
    ensures !Continues(Digit, MatchVersion(str).value.1)
  {
    var (n, e) := MatchVersion(str).value;
    ws, v := AfterLeadSplits(str);
    ListPrefixIsList(Digit, AfterLead(str));
    ListIsListText(Digit, n);
    assert AfterLead(str) == n + e;
  }

  /** The first expression accepts exactly the texts of that shape. */
  lemma VersionMatchIff(str: string)
    ensures MatchVersion(str).Some? <==> exists ws, v, n, e :: VersionShape(str, ws, v, n, e)
  {
    if MatchVersion(str).Some? {
      var ws, v := MatchIsShape(str);
    }
    forall ws, v, n, e | VersionShape(str, ws, v, n, e) ensures MatchVersion(str).Some? {
      VersionShapeFound(str, ws, v, n, e);
    }
  }

  /** Of the shapes of a text it yields the one whose numbers cannot be prolonged. */
  lemma VersionMatchYields(str: string, numbers: string, extra: string)
    ensures MatchVersion(str) == Some((numbers, extra)) <==>
      !Continues(Digit, extra) && exists ws, v :: VersionShape(str, ws, v, numbers, extra)
  {
    if MatchVersion(str).Some? {
      var ws, v := MatchIsShape(str);
    }
    if !Continues(Digit, extra) {
      forall ws, v | VersionShape(str, ws, v, numbers, extra) ensures MatchVersion(str) == Some((numbers, extra)) {
        VersionShapeFound(str, ws, v, numbers, extra);
      }
    }
  }

  // Pre-release and build metadata.

  function Marked(mark: char, s: string): string {
    if s == "" then "" else [mark] + s
  }

  /** An optional part: the mark and the longest list of identifiers behind it. */
  function TakePart(mark: char, s: string): (string, string) {
    var k := if |s| > 0 && s[0] == mark then ListPrefix(Identifier, s[1..]) else 0;
    if k > 0 then (s[1..k + 1], s[k + 1..]) else ("", s)
  }

  /** The second expression: pre-release and build metadata, each possibly empty. */
  function MatchExtra(extra: string): Option<(string, string)> {
    var (pre, r1) := TakePart('-', extra);
    var (build, r2) := TakePart('+', r1);
    if AllSpace(r2) then Some((pre, build)) else None
  }

  predicate IsPart(s: string) {
    s == "" || IsList(Identifier, s)
  }

  predicate ExtraShape(extra: string, pre: string, build: string, ws: string) {
    && extra == Marked('-', pre) + (Marked('+', build) + ws)
    && IsPart(pre) && IsPart(build) && AllSpace(ws)
  }

  lemma TakePartExact(mark: char, part: string, rest: string)
    requires IsPart(part) && !Continues(Identifier, rest)
    requires part == "" ==> |rest| == 0 || rest[0] != mark
    ensures TakePart(mark, Marked(mark, part) + rest) == (part, rest)
  {
    var s := Marked(mark, part) + rest;
    if part == "" {
      assert s == rest;
    } else {
      ListIsListText(Identifier, part);
      assert s[1..] == part + rest;
      ListPrefixPasses(Identifier, part, rest);
      assert s[1..|part| + 1] == part && s[|part| + 1..] == rest;
    }
  }

  lemma TakePartSplits(mark: char, s: string)
    ensures var (part, rest) := TakePart(mark, s);
      s == Marked(mark, part) + rest && IsPart(part) && (part != "" ==> !Continues(Identifier, rest))
  {
    var k := if |s| > 0 && s[0] == mark then ListPrefix(Identifier, s[1..]) else 0;
    if k > 0 {
      ListPrefixIsList(Identifier, s[1..]);
      assert s[1..][..k] == s[1..k + 1] && s[1..][k..] == s[k + 1..];
      ListIsListText(Identifier, s[1..k + 1]);
      assert s == [mark] + s[1..k + 1] + s[k + 1..];
    } else {
      assert s == Marked(mark, "") + s;
    }
  }

  lemma SpaceEndsList(ws: string)
    requires AllSpace(ws)
    ensures !Continues(Identifier, ws)
    ensures |ws| > 0 ==> ws[0] != '+' && ws[0] != '-'
  {
  }

  /** The second expression accepts exactly the extra shapes, and takes them apart in the only way. */
  lemma ExtraMatchIff(extra: string, pre: string, build: string)
    ensures MatchExtra(extra) == Some((pre, build)) <==> exists ws :: ExtraShape(extra, pre, build, ws)
  {
    if MatchExtra(extra) == Some((pre, build)) {
      TakePartSplits('-', extra);
      var r1 := TakePart('-', extra).1;
      TakePartSplits('+', r1);
      var r2 := TakePart('+', r1).1;
      assert ExtraShape(extra, pre, build, r2);
    }
    forall ws | ExtraShape(extra, pre, build, ws) ensures MatchExtra(extra) == Some((pre, build)) {
      SpaceEndsList(ws);
      TakePartExact('+', build, ws);
      var r1 := Marked('+', build) + ws;
      assert |r1| > 0 ==> r1[0] == '+' || IsSpace(r1[0]);
      TakePartExact('-', pre, r1);
    }
  }
}
