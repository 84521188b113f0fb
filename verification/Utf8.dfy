/** UTF-8, as section 3 and section 4 of RFC 3629 define it, and as the runtime decodes it. */
module Utf8 {

  type byte = x: int | 0 <= x < 256

  /** Unicode scalar values: no surrogates. */
  type Rune = r: int | 0 <= r < 0xD800 || 0xE000 <= r <= 0x10FFFF

  const RUNE_ERROR: Rune := 0xFFFD

  function Encode(r: Rune): (s: seq<byte>)
    ensures 1 <= |s| <= 4
  {
    if r < 0x80 then [r]
    else if r < 0x800 then [0xC0 + r / 64, 0x80 + r % 64]
    else if r < 0x10000 then [0xE0 + r / 4096, 0x80 + r / 64 % 64, 0x80 + r % 64]
    else [0xF0 + r / 262144, 0x80 + r / 4096 % 64, 0x80 + r / 64 % 64, 0x80 + r % 64]
  }

  function EncodeAll(rs: seq<Rune>): seq<byte> {
    if |rs| == 0 then [] else Encode(rs[0]) + EncodeAll(rs[1..])
  }

  predicate IsTail(b: byte) { 0x80 <= b <= 0xBF }

  predicate StartsThree(a: byte, b: byte) {
    (a == 0xE0 && 0xA0 <= b <= 0xBF) || (0xE1 <= a <= 0xEC && IsTail(b)) ||
    (a == 0xED && 0x80 <= b <= 0x9F) || (0xEE <= a <= 0xEF && IsTail(b))
  }

  predicate StartsFour(a: byte, b: byte) {
    (a == 0xF0 && 0x90 <= b <= 0xBF) || (0xF1 <= a <= 0xF3 && IsTail(b)) || (a == 0xF4 && 0x80 <= b <= 0x8F)
  }

  /** The length of the character at the front by the grammar of section 4, or zero. */
  function CharLength(s: seq<byte>): (n: nat)
    ensures n <= 4 && n <= |s|
  {
    if |s| >= 1 && s[0] < 0x80 then 1
    else if |s| >= 2 && 0xC2 <= s[0] <= 0xDF && IsTail(s[1]) then 2
    else if |s| >= 3 && StartsThree(s[0], s[1]) && IsTail(s[2]) then 3
    else if |s| >= 4 && StartsFour(s[0], s[1]) && IsTail(s[2]) && IsTail(s[3]) then 4
    else 0
  }

  /** A sequence of characters of the grammar. */
  predicate IsUtf8(s: seq<byte>)
    decreases |s|
  {
    |s| == 0 || (CharLength(s) > 0 && IsUtf8(s[CharLength(s)..]))
  }

  function CharValue(s: seq<byte>): (r: Rune)
    requires CharLength(s) > 0
  {
    var n := CharLength(s);
    var a: int := s[0];
    if n == 1 then a else
      var b: int := s[1] - 0x80;
      if n == 2 then (a - 0xC0) * 64 + b else
        var c: int := s[2] - 0x80;
        if n == 3 then (a - 0xE0) * 4096 + b * 64 + c else
          var d: int := s[3] - 0x80;
          (a - 0xF0) * 262144 + b * 4096 + c * 64 + d
  }

  /** The runtime's decoder: a character and its length, or the error rune for one byte. */
  function DecodeRune(s: seq<byte>): (Rune, nat)
    requires |s| > 0
  {
    if CharLength(s) > 0 then (CharValue(s), CharLength(s)) else (RUNE_ERROR, 1)
  }

  function RunesOf(s: seq<byte>): seq<Rune>
    requires IsUtf8(s)
    decreases |s|
  {
    if |s| == 0 then [] else [CharValue(s)] + RunesOf(s[CharLength(s)..])
  }

  lemma SixBitGroups(r: nat)
    ensures r == r / 64 * 64 + r % 64
    ensures r / 64 == r / 4096 * 64 + r / 64 % 64
    ensures r / 4096 == r / 262144 * 64 + r / 4096 % 64
  {
  }

  lemma ThreeBytes(r: Rune, s: seq<byte>)
    requires 0x800 <= r < 0x10000 && |s| >= 3
    requires s[0] == 0xE0 + r / 4096 && s[1] == 0x80 + r / 64 % 64 && s[2] == 0x80 + r % 64
    ensures CharLength(s) == 3 && CharValue(s) == r
  {
    SixBitGroups(r);
  }

  lemma FourBytes(r: Rune, s: seq<byte>)
    requires 0x10000 <= r && |s| >= 4
    requires s[0] == 0xF0 + r / 262144 && s[1] == 0x80 + r / 4096 % 64
    requires s[2] == 0x80 + r / 64 % 64 && s[3] == 0x80 + r % 64
    ensures CharLength(s) == 4 && CharValue(s) == r
  {
    SixBitGroups(r);
  }

  lemma EncodeIsChar(r: Rune, rest: seq<byte>)
    ensures CharLength(Encode(r) + rest) == |Encode(r)|
    ensures CharValue(Encode(r) + rest) == r
  {
    var s := Encode(r) + rest;
    if r >= 0x10000 {
      FourBytes(r, s);
    } else if r >= 0x800 {
      ThreeBytes(r, s);
    } else if r >= 0x80 {
      assert s[0] == 0xC0 + r / 64 && s[1] == 0x80 + r % 64;
    }
  }

  lemma SixBitParts(a: nat, b: nat, c: nat, d: nat)
    requires b < 64 && c < 64 && d < 64
    ensures (a * 64 + b) / 64 == a && (a * 64 + b) % 64 == b
    ensures (a * 4096 + b * 64 + c) / 64 == a * 64 + b && (a * 4096 + b * 64 + c) % 64 == c
    ensures (a * 262144 + b * 4096 + c * 64 + d) / 64 == a * 4096 + b * 64 + c
    ensures (a * 262144 + b * 4096 + c * 64 + d) % 64 == d
  {
  }

  lemma DivDiv(r: nat)
    ensures r / 4096 == r / 64 / 64 && r / 262144 == r / 4096 / 64
  {
  }

  lemma EncodeTwo(a: int, b: int)
    requires 2 <= a < 32 && 0 <= b < 64
    ensures Encode(a * 64 + b) == [0xC0 + a, 0x80 + b]
  {
    SixBitParts(a, b, 0, 0);
  }

  lemma EncodeThree(a: int, b: int, c: int)
    requires 0 <= a < 16 && 0 <= b < 64 && 0 <= c < 64 && 0x800 <= a * 4096 + b * 64 + c
    requires a * 4096 + b * 64 + c < 0xD800 || 0xE000 <= a * 4096 + b * 64 + c
    ensures Encode(a * 4096 + b * 64 + c) == [0xE0 + a, 0x80 + b, 0x80 + c]
  {
    SixBitParts(a, b, c, 0);
    DivDiv(a * 4096 + b * 64 + c);
  }

  lemma EncodeFour(a: int, b: int, c: int, d: int)
    requires 0 <= a < 8 && 0 <= b < 64 && 0 <= c < 64 && 0 <= d < 64
    requires 0x10000 <= a * 262144 + b * 4096 + c * 64 + d <= 0x10FFFF
    ensures Encode(a * 262144 + b * 4096 + c * 64 + d) == [0xF0 + a, 0x80 + b, 0x80 + c, 0x80 + d]
  {
    SixBitParts(a, b, c, d);
    SixBitParts(a, b, c, 0);
    DivDiv(a * 262144 + b * 4096 + c * 64 + d);
  }

  /** The encoding of the character at the front is the bytes it was read from. */
  lemma EncodeOfChar(s: seq<byte>)
    requires CharLength(s) > 0
    ensures Encode(CharValue(s)) == s[..CharLength(s)]
  {
    var n := CharLength(s);
    if n == 2 {
      EncodeTwo(s[0] - 0xC0, s[1] - 0x80);
    } else if n == 3 {
      EncodeThree(s[0] - 0xE0, s[1] - 0x80, s[2] - 0x80);
    } else if n == 4 {
      EncodeFour(s[0] - 0xF0, s[1] - 0x80, s[2] - 0x80, s[3] - 0x80);
    }
  }

  /** Encodings of rune sequences are UTF-8, and decode to the runes. */
  lemma {:induction false} EncodeAllIsUtf8(rs: seq<Rune>)
    ensures IsUtf8(EncodeAll(rs)) && RunesOf(EncodeAll(rs)) == rs
  {
    if |rs| > 0 {
      EncodeIsChar(rs[0], EncodeAll(rs[1..]));
      EncodeAllIsUtf8(rs[1..]);
      assert EncodeAll(rs)[|Encode(rs[0])|..] == EncodeAll(rs[1..]);
    }
  }

  /** And conversely. */
  lemma {:induction false} Utf8IsEncodeAll(s: seq<byte>)
    requires IsUtf8(s)
    ensures EncodeAll(RunesOf(s)) == s
    decreases |s|
  {
    if |s| > 0 {
      var n, r := CharLength(s), CharValue(s);
      Utf8IsEncodeAll(s[n..]);
      EncodeOfChar(s);
      EncodeAllCons(r, RunesOf(s[n..]));
    }
  }

  lemma EncodeAllCons(r: Rune, rs: seq<Rune>)
    ensures EncodeAll([r] + rs) == Encode(r) + EncodeAll(rs)
  {
    assert ([r] + rs)[1..] == rs;
  }

  lemma {:induction false} EncodeAllConcat(rs: seq<Rune>, ts: seq<Rune>)
    ensures EncodeAll(rs + ts) == EncodeAll(rs) + EncodeAll(ts)
  {
    if |rs| > 0 {
      assert (rs + ts)[1..] == rs[1..] + ts;
      EncodeAllConcat(rs[1..], ts);
    } else {
      assert rs + ts == ts;
    }
  }
}
