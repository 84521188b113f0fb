/** Resource identifiers: a prefix, a dash and a six-character code. */
module ResourceId {
  import opened Common
  import opened Arithmetic
  import opened ShortCode
  import opened ShortCodeDecoder
  import opened ShortCodeUniqueness
  import opened ShortCodeWindow

  const CHARSET := "abcdefghijklmnopqrstuvwxyz1234567890"
  const ID_LENGTH := 6

  function RidParams(salt: uint64): (p: Params)
    ensures p.Valid() && |p.chars| == 36 && p.l == ID_LENGTH && p.chars == CHARSET && p.n1 == 17 && p.n2 == 5
    ensures p.salt == if salt > 0 then salt else BASE_SALT
  {
    Applied(Applied(Applied(DEFAULT_PARAMS, WithChars(CHARSET)), WithL(ID_LENGTH)), WithSalt(salt))
  }

  lemma RidOptions(salt: uint64)
    ensures RidParams(salt) == AppliedAll(DEFAULT_PARAMS, [WithChars(CHARSET), WithL(6), WithSalt(salt)])
  {
    var os := [WithChars(CHARSET), WithL(6), WithSalt(salt)];
    assert os[..2] == [os[0], os[1]] && os[..2][..1] == [os[0]] && os[..1][..0] == [];
    assert AppliedAll(DEFAULT_PARAMS, os[..1]) == Applied(DEFAULT_PARAMS, os[0]);
    assert AppliedAll(DEFAULT_PARAMS, os[..2]) == Applied(AppliedAll(DEFAULT_PARAMS, os[..1]), os[1]);
  }

  lemma CharsetShape(i: nat)
    requires i < 36
    ensures |CHARSET| == 36
    ensures CHARSET[i] as int == if i < 26 then 97 + i else if i < 35 then 49 + i - 26 else 48
  {
  }

  lemma RidParamsAreSound(salt: uint64)
    ensures !Divides256(RidParams(salt)) && Invertible(RidParams(salt))
    ensures Gcd(Multiplier(RidParams(salt)), |CHARSET|) == 1
  {
    var p := RidParams(salt);
    forall i, j | 0 <= i < j < |CHARSET| ensures CHARSET[i] != CHARSET[j] {
      CharsetShape(i);
      CharsetShape(j);
    }
    assert Gcd(5, 6) == Gcd(6, 5) == Gcd(5, 1) == Gcd(1, 0) == 1;
    assert Gcd(17, 36) == Gcd(36, 17) == Gcd(17, 2) == Gcd(2, 1) == Gcd(1, 0) == 1;
    DocumentedConditionsSuffice(p);
  }

  /** The identifier for one counter value. */
  function New(prefix: string, counter: uint64, salt: uint64): (r: string)
    ensures |r| == |prefix| + 1 + ID_LENGTH
  {
    RidParamsAreSound(salt);
    prefix + "-" + Code(RidParams(salt), counter).value
  }

  /** What is read off the end. */
  function Split(r: string): (string, string)
    requires |r| > ID_LENGTH
  {
    (r[..|r| - ID_LENGTH - 1], r[|r| - ID_LENGTH..])
  }

  lemma CharsetIsPlain(c: char)
    requires c in CHARSET
    ensures 'a' <= c <= 'z' || '0' <= c <= '9'
  {
    var i :| 0 <= i < |CHARSET| && CHARSET[i] == c;
    CharsetShape(i);
  }

  lemma CodeUsesChars(p: Params, id: nat)
    requires p.Valid() && !Divides256(p)
    ensures forall c :: c in Code(p, id).value ==> c in p.chars
  {
  }

  /** The prefix, a dash, and six letters and digits, which are found again even if the prefix has dashes itself. */
  lemma SplitOfNew(prefix: string, counter: uint64, salt: uint64)
    ensures Code(RidParams(salt), counter) == Some(Split(New(prefix, counter, salt)).1)
    ensures Split(New(prefix, counter, salt)).0 == prefix
    ensures prefix + "-" <= New(prefix, counter, salt) && |New(prefix, counter, salt)| == |prefix| + 7
    ensures forall c :: c in Split(New(prefix, counter, salt)).1 ==> 'a' <= c <= 'z' || '0' <= c <= '9'
  {
    RidParamsAreSound(salt);
    var p := RidParams(salt);
    var code := Code(p, counter).value;
    assert New(prefix, counter, salt) == (prefix + "-") + code;
    CodeUsesChars(p, counter);
    forall c | c in code ensures 'a' <= c <= 'z' || '0' <= c <= '9' {
      CharsetIsPlain(c);
    }
  }

  /** Two resource identifiers are equal exactly for one prefix and counters whose salted values agree modulo 36^6. */
  lemma SameResourceId(p1: string, c1: uint64, p2: string, c2: uint64, salt: uint64)
    ensures New(p1, c1, salt) == New(p2, c2, salt) <==>
      p1 == p2 && Enlarged(RidParams(salt), c1) % Pow(36, 6) == Enlarged(RidParams(salt), c2) % Pow(36, 6)
  {
    SplitOfNew(p1, c1, salt);
    SplitOfNew(p2, c2, salt);
    RidParamsAreSound(salt);
    CollisionSet(RidParams(salt), c1, c2);
  }

  /** For one salt, New is injective on prefix and counter over 36^6 consecutive counters of one lap. */
  lemma NewIsInjective(p1: string, c1: uint64, p2: string, c2: uint64, salt: uint64, x: nat)
    requires x <= c1 < x + Pow(36, 6) && x <= c2 < x + Pow(36, 6)
    requires Lap(RidParams(salt), x) == Lap(RidParams(salt), x + Pow(36, 6) - 1)
    requires New(p1, c1, salt) == New(p2, c2, salt)
    ensures p1 == p2 && c1 == c2
  {
    SplitOfNew(p1, c1, salt);
    SplitOfNew(p2, c2, salt);
    RidParamsAreSound(salt);
    UniqueWhenSound(RidParams(salt), x);
  }
}
