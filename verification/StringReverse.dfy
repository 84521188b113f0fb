/** Reversing a string rune by rune in a byte buffer. */
module StringReverse {
  import opened Common
  import opened Utf8

  function Overwrite(buf: seq<byte>, at: nat, bytes: seq<byte>): (r: seq<byte>)
    requires at + |bytes| <= |buf|
    ensures |r| == |buf|
  {
    buf[..at] + bytes + buf[at + |bytes|..]
  }

  /**
   What the loop makes of the bytes that are still to be read. A rune is written where as
   many bytes remain in front as are still unread; an invalid byte is read as the error
   rune, and None is the panic when an encoding does not fit behind its offset.
   */
  function Reversal(rest: seq<byte>, buf: seq<byte>): (r: Option<seq<byte>>)
    requires |rest| <= |buf|
    ensures r.Some? ==> |r.value| == |buf|
    decreases |rest|
  {
    if |rest| == 0 then Some(buf) else
      var (rune, n) := DecodeRune(rest);
      var at, e := |rest| - n, Encode(rune);
      if at + |e| > |buf| then None else Reversal(rest[n..], Overwrite(buf, at, e))
  }

  /** Write one rune, as the library does: nothing is written when it does not fit. */
  method EncodeRune(buf: array<byte>, at: nat, r: Rune) returns (ok: bool)
    requires at <= buf.Length
    modifies buf
    ensures ok <==> at + |Encode(r)| <= buf.Length
    ensures buf[..] == if ok then Overwrite(old(buf[..]), at, Encode(r)) else old(buf[..])
  {
    var e := Encode(r);
    ok := at + |e| <= buf.Length;
    if ok {
      CopyTo(buf, at, e);
    }
  }

  method CopyTo(buf: array<byte>, at: nat, e: seq<byte>)
    requires at + |e| <= buf.Length
    modifies buf
    ensures buf[..] == Overwrite(old(buf[..]), at, e)
  {
    for k := 0 to |e|
      invariant forall j :: 0 <= j < k ==> buf[at + j] == e[j]
      invariant forall j :: 0 <= j < buf.Length && !(at <= j < at + k) ==> buf[j] == old(buf[j])
    {
      buf[at + k] := e[k];
    }
  }

  function Zeros(n: nat): (s: seq<byte>)
    ensures |s| == n
  {
    seq(n, _ => 0)
  }

  lemma SuffixOfSuffix(s: seq<byte>, start: nat, n: nat)
    requires start + n <= |s|
    ensures s[start..][n..] == s[start + n..]
  {
  }

  method Reverse(s: seq<byte>) returns (r: Option<seq<byte>>)
    ensures r == Reversal(s, Zeros(|s|))
  {
    var size := |s|;
    var buf := new byte[size](_ => 0);
    assert buf[..] == Zeros(size);
    var start := 0;
    ghost var rest := s;
    while start < size
      invariant start <= size
      invariant rest == s[start..]
      invariant Reversal(s, Zeros(size)) == Reversal(rest, buf[..])
      decreases size - start
    {
      var (rune, n) := DecodeRune(s[start..]);
      SuffixOfSuffix(s, start, n);
      rest := rest[n..];
      start := start + n;
      var ok := EncodeRune(buf, size - start, rune);
      if !ok {
        return None;
      }
    }
    r := Some(buf[..]);
  }

  // Valid strings.

  function Reversed<T>(xs: seq<T>): (r: seq<T>)
    ensures |r| == |xs|
  {
    if |xs| == 0 then [] else Reversed(xs[1..]) + [xs[0]]
  }

  lemma {:induction false} ReversedAppend<T>(xs: seq<T>, x: T)
    ensures Reversed(xs + [x]) == [x] + Reversed(xs)
  {
    if |xs| > 0 {
      assert (xs + [x])[1..] == xs[1..] + [x];
      ReversedAppend(xs[1..], x);
    } else {
      assert xs + [x] == [x];
    }
  }

  lemma {:induction false} ReversedTwice<T>(xs: seq<T>)
    ensures Reversed(Reversed(xs)) == xs
  {
    if |xs| > 0 {
      ReversedAppend(Reversed(xs[1..]), xs[0]);
      ReversedTwice(xs[1..]);
    }
  }

  /** A turn at a character of the grammar writes the very bytes it read. */
  lemma CharTurn(rest: seq<byte>, buf: seq<byte>)
    requires |rest| <= |buf| && CharLength(rest) > 0
    ensures var n := CharLength(rest);
      && Encode(CharValue(rest)) == rest[..n]
      && Reversal(rest, buf) == Reversal(rest[n..], Overwrite(buf, |rest| - n, rest[..n]))
  {
    EncodeOfChar(rest);
  }

  /** A turn at an invalid byte writes three bytes, unless they do not fit. */
  lemma ErrorTurn(rest: seq<byte>, buf: seq<byte>) returns (buf': seq<byte>)
    requires 0 < |rest| <= |buf| && CharLength(rest) == 0
    ensures |buf'| == |buf|
    ensures Reversal(rest, buf) == if |rest| + 2 > |buf| then None else Reversal(rest[1..], buf')
    ensures |rest| + 2 <= |buf| ==> buf'[|rest| - 1..] == [0xEF, 0xBF, 0xBD] + buf[|rest|..][2..]
  {
    ErrorRuneBytes();
    buf' := buf;
    if |rest| + 2 <= |buf| {
      buf' := Overwrite(buf, |rest| - 1, [0xEF, 0xBF, 0xBD]);
      OverwriteTail(buf, |rest| - 1, [0xEF, 0xBF, 0xBD]);
      assert buf[|rest| + 2..] == buf[|rest|..][2..];
    }
  }

  lemma ErrorRuneBytes()
    ensures Encode(RUNE_ERROR) == [0xEF, 0xBF, 0xBD]
  {
  }

  lemma OverwriteTail(buf: seq<byte>, at: nat, e: seq<byte>)
    requires at + |e| <= |buf|
    ensures Overwrite(buf, at, e)[at..] == e + buf[at + |e|..]
  {
  }

  lemma DoneGrows(done: seq<Rune>, rune: Rune, more: seq<Rune>)
    ensures EncodeAll(Reversed(done + [rune])) == Encode(rune) + EncodeAll(Reversed(done))
    ensures done + ([rune] + more) == (done + [rune]) + more
  {
    ReversedAppend(done, rune);
    EncodeAllCons(rune, Reversed(done));
  }

  /** The end of the buffer holds the runes read so far, reversed; the next write goes right in front. */
  lemma {:induction false} ReversalFrom(rest: seq<byte>, buf: seq<byte>, done: seq<Rune>)
    requires |rest| <= |buf| && IsUtf8(rest)
    requires buf[|rest|..] == EncodeAll(Reversed(done))
    ensures Reversal(rest, buf) == Some(EncodeAll(Reversed(done + RunesOf(rest))))
    decreases |rest|
  {
    if |rest| == 0 {
      assert done + RunesOf(rest) == done;
    } else {
      var n, rune := CharLength(rest), CharValue(rest);
      CharTurn(rest, buf);
      OverwriteTail(buf, |rest| - n, rest[..n]);
      DoneGrows(done, rune, RunesOf(rest[n..]));
      ReversalFrom(rest[n..], Overwrite(buf, |rest| - n, rest[..n]), done + [rune]);
    }
  }

  /** A UTF-8 string is reversed into the encodings of its runes in reverse order. */
  lemma ReverseOfUtf8(s: seq<byte>)
    requires IsUtf8(s)
    ensures Reversal(s, Zeros(|s|)) == Some(EncodeAll(Reversed(RunesOf(s))))
    ensures IsUtf8(EncodeAll(Reversed(RunesOf(s)))) && |EncodeAll(Reversed(RunesOf(s)))| == |s|
  {
    assert Zeros(|s|)[|s|..] == [];
    ReversalFrom(s, Zeros(|s|), []);
    assert [] + RunesOf(s) == RunesOf(s);
    EncodeAllIsUtf8(Reversed(RunesOf(s)));
  }

  /** Reversing twice gives the string back. */
  lemma ReverseTwice(s: seq<byte>)
    requires IsUtf8(s)
    ensures Reversal(s, Zeros(|s|)).Some?
    ensures Reversal(Reversal(s, Zeros(|s|)).value, Zeros(|s|)) == Some(s)
  {
    ReverseOfUtf8(s);
    ReverseOfUtf8(EncodeAll(Reversed(RunesOf(s))));
    EncodeAllIsUtf8(Reversed(RunesOf(s)));
    ReversedTwice(RunesOf(s));
    Utf8IsEncodeAll(s);
  }

  // The writes.

  /** The stretches of the buffer that are written, in order. */
  function Writes(rest: seq<byte>): seq<(int, int)>
    decreases |rest|
  {
    if |rest| == 0 then [] else
      var (rune, n) := DecodeRune(rest);
      [(|rest| - n, |rest| - n + |Encode(rune)|)] + Writes(rest[n..])
  }

  /** From the upper end down to zero without a gap or an overlap. */
  predicate TilesDownFrom(ws: seq<(int, int)>, hi: int) {
    if |ws| == 0 then hi == 0
    else ws[0].1 == hi && ws[0].0 < hi && TilesDownFrom(ws[1..], ws[0].0)
  }

  /** On a UTF-8 string the writes tile the buffer exactly once. */
  lemma {:induction false} WritesTile(s: seq<byte>)
    requires IsUtf8(s)
    ensures TilesDownFrom(Writes(s), |s|)
    decreases |s|
  {
    if |s| > 0 {
      var n := CharLength(s);
      EncodeOfChar(s);
      WritesTile(s[n..]);
      assert Writes(s)[1..] == Writes(s[n..]);
    }
  }

  // Any bytes, without a buffer.

  /**
   What stands behind the unread bytes, as it grows to the front: a character comes in front of it, and
   an invalid byte comes as the error rune, whose second and third byte overwrite the two bytes behind.
   */
  function Stacked(rest: seq<byte>, behind: seq<byte>): Option<seq<byte>>
    decreases |rest|
  {
    var n := CharLength(rest);
    if rest == [] then Some(behind)
    else if n > 0 then Stacked(rest[n..], rest[..n] + behind)
    else if |behind| < 2 then None
    else Stacked(rest[1..], [0xEF, 0xBF, 0xBD] + behind[2..])
  }

  lemma StackedStep(rest: seq<byte>, behind: seq<byte>)
    requires |rest| > 0
    ensures CharLength(rest) > 0 ==>
      Stacked(rest, behind) == Stacked(rest[CharLength(rest)..], rest[..CharLength(rest)] + behind)
    ensures CharLength(rest) == 0 ==>
      Stacked(rest, behind) == if |behind| < 2 then None else Stacked(rest[1..], [0xEF, 0xBF, 0xBD] + behind[2..])
  {
  }

  /** On any bytes the buffer is reversed to just that, or the panic comes where two bytes are missing. */
  lemma {:induction false} ReversalIsStacked(rest: seq<byte>, buf: seq<byte>)
    requires |rest| <= |buf|
    ensures Reversal(rest, buf) == Stacked(rest, buf[|rest|..])
    decreases |rest|
  {
    if |rest| == 0 {
      assert rest == [] && buf[0..] == buf;
    } else {
      var n := CharLength(rest);
      StackedStep(rest, buf[|rest|..]);
      if n > 0 {
        CharTurn(rest, buf);
        OverwriteTail(buf, |rest| - n, rest[..n]);
        ReversalIsStacked(rest[n..], Overwrite(buf, |rest| - n, rest[..n]));
      } else {
        var buf' := ErrorTurn(rest, buf);
        ReversalIsStacked(rest[1..], buf');
      }
    }
  }

  // Bounds on any bytes.

  lemma {:induction false} NoPanicBehindTwo(rest: seq<byte>, buf: seq<byte>)
    requires |rest| + 2 <= |buf|
    ensures Reversal(rest, buf).Some?
    decreases |rest|
  {
    if |rest| > 0 {
      var n := CharLength(rest);
      if n == 0 {
        var buf' := ErrorTurn(rest, buf);
        NoPanicBehindTwo(rest[1..], buf');
      } else {
        CharTurn(rest, buf);
        NoPanicBehindTwo(rest[n..], Overwrite(buf, |rest| - n, rest[..n]));
      }
    }
  }

  lemma PanicsBehindOneIff(rest: seq<byte>, buf: seq<byte>)
    requires |rest| + 1 == |buf|
    ensures Reversal(rest, buf).None? <==> |rest| > 0 && CharLength(rest) == 0
  {
    if |rest| > 0 {
      var n := CharLength(rest);
      if n == 0 {
        var buf' := ErrorTurn(rest, buf);
      } else {
        CharTurn(rest, buf);
        NoPanicBehindTwo(rest[n..], Overwrite(buf, |rest| - n, rest[..n]));
      }
    }
  }

  /** No character of the grammar starts at the position. */
  predicate FailsAt(s: seq<byte>, i: nat) {
    i < |s| && CharLength(s[i..]) == 0
  }

  /**
   On arbitrary bytes a write is out of bounds exactly when one of the first two bytes, read as a
   character start, is invalid.
   */
  lemma PanicsIff(s: seq<byte>)
    ensures Reversal(s, Zeros(|s|)).None? <==> FailsAt(s, 0) || (|s| > 0 && s[0] < 0x80 && FailsAt(s, 1))
  {
    assert s[0..] == s;
    if |s| > 0 {
      var n, zeros := CharLength(s), Zeros(|s|);
      FirstLength(s);
      if n == 0 {
        var buf' := ErrorTurn(s, zeros);
      } else {
        CharTurn(s, zeros);
        var buf := Overwrite(zeros, |s| - n, s[..n]);
        if n == 1 {
          PanicsBehindOneIff(s[1..], buf);
        } else {
          NoPanicBehindTwo(s[n..], buf);
        }
      }
    }
  }

  lemma FirstLength(s: seq<byte>)
    requires |s| > 0
    ensures CharLength(s) == 1 <==> s[0] < 0x80
  {
  }
}
