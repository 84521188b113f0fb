/** Characters, dotted lists and decimal numbers as the version parser reads and prints them. */
module VersionText {
  import opened Common

  const UINT_LIMIT := 0x1_0000_0000_0000_0000
  type uint = x: int | 0 <= x < UINT_LIMIT

  /** The two character classes of the version expressions. */
  datatype CharClass = Digit | Identifier {
    predicate Has(c: char) {
      match this
      case Digit => '0' <= c <= '9'
      case Identifier => '0' <= c <= '9' || 'A' <= c <= 'Z' || 'a' <= c <= 'z' || c == '-'
    }

    predicate All(s: string) {
      forall i :: 0 <= i < |s| ==> Has(s[i])
    }
  }

  /** White space as the expressions have it. */
  predicate IsSpace(c: char) {
    c == ' ' || c == '\t' || c == '\n' || c == '\r' || c == '\U{0C}'
  }

  predicate AllSpace(s: string) {
    forall i :: 0 <= i < |s| ==> IsSpace(s[i])
  }

  // Dotted lists.

  function Split(s: string): (ps: seq<string>)
    ensures |ps| > 0
    ensures forall i :: 0 <= i < |ps| ==> '.' !in ps[i]
  {
    if |s| == 0 then [""]
    else if s[0] == '.' then [""] + Split(s[1..])
    else var ps := Split(s[1..]); [[s[0]] + ps[0]] + ps[1..]
  }

  function Join(ps: seq<string>): string
    requires |ps| > 0
    decreases |ps|, 0
  {
    ps[0] + Dotted(ps[1..])
  }

  function Dotted(ps: seq<string>): string
    decreases |ps|, 1
  {
    if |ps| == 0 then "" else "." + Join(ps)
  }

  lemma {:induction false} JoinOfSplit(s: string)
    ensures Join(Split(s)) == s
  {
    if |s| > 0 {
      JoinOfSplit(s[1..]);
      var ps := Split(s[1..]);
      if s[0] == '.' {
        assert Split(s)[1..] == ps;
      } else {
        JoinGrow(s[0], ps);
        assert s == [s[0]] + s[1..];
      }
    }
  }

  lemma JoinGrow(c: char, ps: seq<string>)
    requires |ps| > 0
    ensures Join([[c] + ps[0]] + ps[1..]) == [c] + Join(ps)
  {
    assert ([[c] + ps[0]] + ps[1..])[1..] == ps[1..];
  }

  lemma {:induction false} SplitOfPlain(p: string)
    requires '.' !in p
    ensures Split(p) == [p]
  {
    if |p| > 0 {
      SplitOfPlain(p[1..]);
      assert [p[0]] + p[1..] == p;
    }
  }

  lemma {:induction false} SplitAtDot(p: string, rest: string)
    requires '.' !in p
    ensures Split(p + "." + rest) == [p] + Split(rest)
  {
    var s := p + "." + rest;
    if |p| == 0 {
      assert s[1..] == rest;
    } else {
      SplitAtDot(p[1..], rest);
      assert s[1..] == p[1..] + "." + rest;
      assert [p[0]] + p[1..] == p;
    }
  }

  lemma {:induction false} SplitOfJoin(ps: seq<string>)
    requires |ps| > 0 && forall i :: 0 <= i < |ps| ==> '.' !in ps[i]
    ensures Split(Join(ps)) == ps
  {
    if |ps| == 1 {
      SplitOfPlain(ps[0]);
      assert Join(ps) == ps[0];
    } else {
      SplitOfJoin(ps[1..]);
      SplitAtDot(ps[0], Join(ps[1..]));
      assert Join(ps) == ps[0] + "." + Join(ps[1..]);
    }
  }

  /** One or more nonempty parts of the class, separated by dots. */
  predicate IsList(cls: CharClass, s: string) {
    forall i :: 0 <= i < |Split(s)| ==> Split(s)[i] != "" && cls.All(Split(s)[i])
  }

  /** The same, character by character: dots stand only between characters of the class. */
  predicate IsListText(cls: CharClass, s: string) {
    |s| > 0 && forall i :: 0 <= i < |s| ==> FitsList(cls, s, i)
  }

  predicate FitsList(cls: CharClass, s: string, i: nat)
    requires i < |s|
  {
    cls.Has(s[i]) || (s[i] == '.' && 0 < i < |s| - 1 && cls.Has(s[i - 1]) && cls.Has(s[i + 1]))
  }

  lemma {:induction false} ListIsListText(cls: CharClass, s: string)
    ensures IsList(cls, s) <==> IsListText(cls, s)
  {
    if |s| == 0 {
    } else if s[0] == '.' {
      assert Split(s)[0] == "" && !FitsList(cls, s, 0);
    } else {
      var t, ps := s[1..], Split(s[1..]);
      assert s == [s[0]] + t;
      assert Split(s) == [[s[0]] + ps[0]] + ps[1..];
      if |t| == 0 {
        assert Split(s) == [s];
        assert IsListText(cls, s) <==> FitsList(cls, s, 0);
        assert cls.All(s) <==> cls.Has(s[0]);
      } else if t[0] == '.' {
        TextAfterDot(cls, s);
        ListIsListText(cls, t[1..]);
        var qs := Split(t[1..]);
        assert ps == [""] + qs;
        assert [s[0]] + ps[0] == [s[0]] && ps[1..] == qs;
        assert Split(s) == [[s[0]]] + qs;
        if IsList(cls, s) {
          forall i | 0 <= i < |qs| ensures qs[i] != "" && cls.All(qs[i]) {
            assert qs[i] == Split(s)[i + 1];
          }
          assert cls.All([s[0]]) && Split(s)[0] == [s[0]];
        }
      } else {
        ListIsListText(cls, t);
        assert ps[0] != "" by { FirstPart(t); }
        TextAfterChar(cls, s);
        if IsList(cls, s) {
          assert Split(s)[0] == [s[0]] + ps[0];
          assert cls.Has(s[0]) by { assert Split(s)[0][0] == s[0]; }
          forall i | 0 <= i < |ps| ensures ps[i] != "" && cls.All(ps[i]) {
            if i > 0 { assert ps[i] == Split(s)[i]; } else {
              forall j | 0 <= j < |ps[0]| ensures cls.Has(ps[0][j]) { assert ps[0][j] == Split(s)[0][j + 1]; }
            }
          }
        }
      }
    }
  }

  lemma FirstPart(t: string)
    requires |t| > 0 && t[0] != '.'
    ensures Split(t)[0] != ""
  {
  }

  lemma TextAfterDot(cls: CharClass, s: string)
    requires |s| > 1 && s[1] == '.'
    ensures IsListText(cls, s) <==> cls.Has(s[0]) && IsListText(cls, s[2..])
  {
    var u := s[2..];
    if cls.Has(s[0]) && IsListText(cls, u) {
      assert FitsList(cls, u, 0);
      forall i | 0 <= i < |s| ensures FitsList(cls, s, i) {
        if i >= 2 { assert FitsList(cls, u, i - 2); }
      }
    }
    if IsListText(cls, s) {
      assert FitsList(cls, s, 1) && FitsList(cls, s, 0);
      forall i | 0 <= i < |u| ensures FitsList(cls, u, i) {
        assert FitsList(cls, s, i + 2);
      }
    }
  }

  lemma TextAfterChar(cls: CharClass, s: string)
    requires |s| > 1 && s[0] != '.' && s[1] != '.'
    ensures IsListText(cls, s) <==> cls.Has(s[0]) && IsListText(cls, s[1..])
  {
    var u := s[1..];
    if IsListText(cls, s) {
      assert FitsList(cls, s, 0);
      forall i | 0 <= i < |u| ensures FitsList(cls, u, i) {
        assert FitsList(cls, s, i + 1);
      }
    }
    if cls.Has(s[0]) && IsListText(cls, u) {
      forall i | 0 <= i < |s| ensures FitsList(cls, s, i) {
        if i >= 1 { assert FitsList(cls, u, i - 1); }
      }
    }
  }

  // Decimal numbers.

  function DigitValue(c: char): nat
    requires Digit.Has(c)
  {
    c as int - '0' as int
  }

  function DigitChar(d: nat): (c: char)
    requires d < 10
    ensures Digit.Has(c) && DigitValue(c) == d
  {
    ('0' as int + d) as char
  }

  function NatOf(s: string): nat
    requires Digit.All(s)
  {
    if |s| == 0 then 0 else NatOf(s[..|s| - 1]) * 10 + DigitValue(s[|s| - 1])
  }

  /** A decimal number in the platform's unsigned width; None is the error. */
  function ParseUint(s: string): Option<uint> {
    if s == "" || !Digit.All(s) then None
    else if NatOf(s) >= UINT_LIMIT then None
    else Some(NatOf(s))
  }

  function Decimal(n: nat): (s: string)
    ensures |s| > 0 && Digit.All(s)
  {
    if n < 10 then [DigitChar(n)] else Decimal(n / 10) + [DigitChar(n % 10)]
  }

  /** A zero in front of another digit. */
  predicate ZeroPrefixed(s: string) {
    |s| > 0 && s[0] == '0' && s != "0"
  }

  lemma {:induction false} NatOfDecimal(n: nat)
    ensures NatOf(Decimal(n)) == n && !ZeroPrefixed(Decimal(n))
    ensures n > 0 ==> Decimal(n)[0] != '0'
  {
    var s := Decimal(n);
    if n < 10 {
      assert s[..0] == "";
    } else {
      NatOfDecimal(n / 10);
      assert s[..|s| - 1] == Decimal(n / 10);
      assert s[0] == Decimal(n / 10)[0];
    }
  }

  lemma {:induction false} DecimalOfNat(s: string)
    requires |s| > 0 && Digit.All(s) && !ZeroPrefixed(s)
    ensures Decimal(NatOf(s)) == s
    ensures s[0] != '0' ==> NatOf(s) > 0
  {
    var h, d := s[..|s| - 1], DigitValue(s[|s| - 1]);
    assert s == h + [s[|s| - 1]];
    if |h| > 0 {
      assert s[0] == h[0] != '0';
      DecimalOfNat(h);
      assert NatOf(s) / 10 == NatOf(h) && NatOf(s) % 10 == d;
    } else {
      assert NatOf(h) == 0;
    }
  }
}
