/**
 The short-code generator: enlarge and salt an identifier modulo 2^64, take its l
 lowest digits in base |chars|, let the units digit disturb the others in byte
 arithmetic, and read the result out through a modular permutation box.
 */
module ShortCode {
  import opened Common
  import opened Arithmetic
  import opened Digits

  const TWO_TO_THE_64 := 0x1_0000_0000_0000_0000
  type uint64 = x: int | 0 <= x < TWO_TO_THE_64
  type byte = x: int | 0 <= x < 256

  const BASE_CHARS := "23456789ABCDEFGHJKLMNPQRSTVWXY"
  const BASE_SALT: uint64 := 123567369

  /** The settings one call runs with. */
  datatype Params = Params(chars: string, n1: int, n2: int, l: nat, salt: uint64) {
    predicate Valid() { |chars| > 0 && l > 0 }
  }

  const DEFAULT_PARAMS := Params(BASE_CHARS, 17, 5, 8, BASE_SALT)

  /** One option closure. */
  datatype CodeOption =
    | WithChars(arr: string)
    | WithN1(n1: int)
    | WithN2(n2: int)
    | WithL(l: int)
    | WithSalt(salt: uint64)

  /** An option that carries an empty character set, a length below one or a zero salt is ignored. */
  function Applied(p: Params, o: CodeOption): (q: Params)
    ensures p.Valid() ==> q.Valid()
  {
    match o
    case WithChars(arr) => if |arr| > 0 then p.(chars := arr) else p
    case WithN1(n) => p.(n1 := n)
    case WithN2(n) => p.(n2 := n)
    case WithL(l) => if l > 0 then p.(l := l) else p
    case WithSalt(salt) => if salt > 0 then p.(salt := salt) else p
  }

  function AppliedAll(p: Params, os: seq<CodeOption>): (q: Params)
    ensures p.Valid() ==> q.Valid()
  {
    if |os| == 0 then p else Applied(AppliedAll(p, os[..|os| - 1]), os[|os| - 1])
  }

  /** The mutable option record that the closures write to. */
  class CodeOptions {
    var chars: string
    var n1: int
    var n2: int
    var l: nat
    var salt: uint64

    ghost function View(): Params
      reads this
    {
      Params(chars, n1, n2, l, salt)
    }

    constructor ()
      ensures View() == DEFAULT_PARAMS
    {
      chars, n1, n2, l, salt := BASE_CHARS, 17, 5, 8, BASE_SALT;
    }

    method Apply(o: CodeOption)
      modifies this
      ensures View() == Applied(old(View()), o)
    {
      match o
      case WithChars(arr) => if |arr| > 0 { chars := arr; }
      case WithN1(n) => n1 := n;
      case WithN2(n) => n2 := n;
      case WithL(k) => if k > 0 { l := k; }
      case WithSalt(s) => if s > 0 { salt := s; }
    }
  }

  /** The salted identifier in unsigned 64-bit arithmetic. */
  function Enlarged(p: Params, id: nat): (m: uint64) {
    (id * (p.n1 % TWO_TO_THE_64) + p.salt) % TWO_TO_THE_64
  }

  /** How often the salted identifier went around the 64-bit range. */
  function Lap(p: Params, id: nat): int {
    (id * (p.n1 % TWO_TO_THE_64) + p.salt) / TWO_TO_THE_64
  }

  /** Digit i after the units symbol has been mixed in, all in wrapping bytes. */
  function MixDigit(d: nat, i: nat, units: nat, b: nat): (s: nat)
    requires b % 256 > 0
    ensures s < b % 256
  {
    (d % 256 + (i % 256) * units) % 256 % (b % 256)
  }

  function Units(ds: seq<nat>, b: nat): nat
    requires |ds| > 0 && b % 256 > 0
  {
    ds[0] % 256 % (b % 256)
  }

  function Mixed(ds: seq<nat>, b: nat): (s: seq<nat>)
    requires |ds| > 0 && b % 256 > 0
    ensures |s| == |ds| && forall i :: 0 <= i < |s| ==> s[i] < b % 256
    ensures forall i :: 0 <= i < |s| ==> s[i] == MixDigit(ds[i], i, Units(ds, b), b)
  {
    seq(|ds|, i requires 0 <= i < |ds| => MixDigit(ds[i], i, Units(ds, b), b))
  }

  /** Which digit the code shows at position i. */
  function PBox(i: nat, n2: int, l: nat): (q: nat)
    requires l % 256 > 0
    ensures q < l % 256 <= l
  {
    DivNat(l, 256);
    ((i % 256) * (n2 % 256)) % 256 % (l % 256)
  }

  function Shuffled(s: seq<nat>, n2: int): (t: seq<nat>)
    requires |s| % 256 > 0
    ensures |t| == |s| && forall i :: 0 <= i < |t| ==> t[i] == s[PBox(i, n2, |s|)]
  {
    seq(|s|, i requires 0 <= i < |s| => s[PBox(i, n2, |s|)])
  }

  function Spelled(t: seq<nat>, chars: string): (r: string)
    requires forall i :: 0 <= i < |t| ==> t[i] < |chars|
    ensures |r| == |t| && forall i :: 0 <= i < |r| ==> r[i] == chars[t[i]]
  {
    seq(|t|, i requires 0 <= i < |t| => chars[t[i]])
  }

  /** The generator runs into an integer division by zero on these lengths. */
  predicate Divides256(p: Params) {
    |p.chars| % 256 == 0 || p.l % 256 == 0
  }

  /** The code that a number's digits are spelled with. */
  function CodeOfNumber(p: Params, m: nat): (r: string)
    requires p.Valid() && !Divides256(p)
    ensures |r| == p.l
  {
    DivNat(|p.chars|, 256);
    Spelled(Shuffled(Mixed(DigitsOf(m, |p.chars|, p.l), |p.chars|), p.n2), p.chars)
  }

  function Code(p: Params, id: nat): Option<string>
    requires p.Valid()
  {
    if Divides256(p) then None else Some(CodeOfNumber(p, Enlarged(p, id)))
  }

  /** The generator itself. None stands for the run-time panic. */
  method NewCode(id: uint64, options: seq<CodeOption>) returns (r: Option<string>)
    ensures AppliedAll(DEFAULT_PARAMS, options).Valid()
    ensures r == Code(AppliedAll(DEFAULT_PARAMS, options), id)
  {
    var ops := new CodeOptions();
    for k := 0 to |options|
      invariant ops.View() == AppliedAll(DEFAULT_PARAMS, options[..k])
    {
      ops.Apply(options[k]);
      assert options[..k + 1][..k] == options[..k];
    }
    assert options[..|options|] == options;
    ghost var p := ops.View();
    assert p.Valid();

    r := Generate(ops, id);
  }

  method Generate(ops: CodeOptions, id: uint64) returns (r: Option<string>)
    requires ops.View().Valid()
    ensures r == Code(ops.View(), id)
  {
    var m := Enlarge(id, ops.n1, ops.salt);
    var slIdx := new byte[ops.l](_ => 0);
    if |ops.chars| % 256 == 0 {
      return None;
    }
    Diffuse(slIdx, m, |ops.chars|);
    if ops.l % 256 == 0 {
      return None;
    }
    DivNat(|ops.chars|, 256);
    var code := Confuse(slIdx, ops.n2, ops.chars);
    r := Some(code);
  }

  /** The diffusion loop: each number is extracted in place and the units number mixed into it. */
  method Diffuse(slIdx: array<byte>, m: uint64, charLen: nat)
    requires slIdx.Length > 0 && charLen % 256 > 0
    modifies slIdx
    ensures slIdx[..] == Mixed(DigitsOf(m, charLen, slIdx.Length), charLen)
  {
    var cur: nat := m;
    ghost var ds := DigitsOf(m, charLen, slIdx.Length);
    ghost var units := Units(ds, charLen);
    for i := 0 to slIdx.Length
      invariant ds[i..] == DigitsOf(cur, charLen, slIdx.Length - i)
      invariant i > 0 ==> slIdx[0] == units
      invariant forall j :: 0 <= j < i ==> slIdx[j] == MixDigit(ds[j], j, units, charLen)
    {
      slIdx[i] := cur % charLen % 256;
      DiffuseStep(ds, i, cur, slIdx[0], charLen);
      slIdx[i] := (slIdx[i] + (i % 256) * slIdx[0] % 256) % 256 % (charLen % 256);
      cur := cur / charLen;
    }
  }

  /** One turn of the loop: the digit it reads, what it makes of it, and the number it goes on with. */
  lemma DiffuseStep(ds: seq<nat>, i: nat, cur: nat, first: nat, b: nat)
    requires i < |ds| && b % 256 > 0 && ds[i..] == DigitsOf(cur, b, |ds| - i)
    requires i > 0 ==> first == Units(ds, b)
    ensures var mixed := (cur % b % 256 + (i % 256) * first % 256) % 256 % (b % 256);
      mixed == MixDigit(ds[i], i, Units(ds, b), b) && (i == 0 ==> mixed == Units(ds, b))
    ensures cur / b >= 0 && ds[i + 1..] == DigitsOf(cur / b, b, |ds| - (i + 1))
  {
    NextDigit(ds, i, cur, b);
    MixStep(ds[i], i, first, b);
    MixFirst(ds[i], Units(ds, b), b);
  }

  lemma NextDigit(ds: seq<nat>, i: nat, cur: nat, b: nat)
    requires i < |ds| && b > 0
    requires ds[i..] == DigitsOf(cur, b, |ds| - i)
    ensures cur / b >= 0
    ensures ds[i] == cur % b && ds[i + 1..] == DigitsOf(cur / b, b, |ds| - (i + 1))
  {
    DivNat(cur, b);
    assert ds[i] == ds[i..][0];
    assert ds[i + 1..] == ds[i..][1..];
  }

  /** The confusion loop: the numbers are read out through the permutation box. */
  method Confuse(slIdx: array<byte>, n2: int, chars: string) returns (code: string)
    requires slIdx.Length % 256 > 0
    requires forall j :: 0 <= j < slIdx.Length ==> slIdx[j] < |chars|
    ensures code == Spelled(Shuffled(slIdx[..], n2), chars)
  {
    code := [];
    ghost var want := Spelled(Shuffled(slIdx[..], n2), chars);
    for i := 0 to slIdx.Length
      invariant code == want[..i]
    {
      var idx := (i % 256) * (n2 % 256) % 256 % (slIdx.Length % 256);
      assert idx == PBox(i, n2, slIdx.Length);
      code := code + [chars[slIdx[idx]]];
    }
  }

  method Enlarge(id: uint64, n1: int, salt: uint64) returns (m: uint64)
    ensures m == (id * (n1 % TWO_TO_THE_64) + salt) % TWO_TO_THE_64
  {
    var product := id * (n1 % TWO_TO_THE_64) % TWO_TO_THE_64;
    m := (product + salt) % TWO_TO_THE_64;
    ModAddLeft(id * (n1 % TWO_TO_THE_64), salt, TWO_TO_THE_64);
  }

  /** Adding in wrapping bytes; at position 0 the byte added is zero whatever the units symbol. */
  lemma MixStep(d: nat, i: nat, first: nat, b: nat)
    requires b % 256 > 0
    ensures (d % 256 + (i % 256) * first % 256) % 256 % (b % 256) == MixDigit(d, i, if i == 0 then 0 else first, b)
  {
    if i == 0 { assert (i % 256) * first == 0 == (i % 256) * 0; }
    ModAddLeft((i % 256) * first, d % 256, 256);
  }

  lemma MixFirst(d: nat, units: nat, b: nat)
    requires b % 256 > 0
    ensures MixDigit(d, 0, units, b) == MixDigit(d, 0, 0, b) == d % 256 % (b % 256)
  {
    assert 0 * units == 0 * 0 == 0;
  }
}
