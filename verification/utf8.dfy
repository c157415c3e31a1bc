/** Counting the runes of a Go string, as `len([]rune(s))` does: the bytes
    are decoded as UTF-8 and every byte that does not start a valid encoding
    counts as one rune (U+FFFD) on its own. */
module Utf8 {
  import opened GoStd

  predicate IsContinuation(b: Byte) {
    0x80 <= b <= 0xBF
  }

  // The well-formed UTF-8 byte sequences of two, three and four bytes, as
  // listed in Table 3-7 of the Unicode Standard, section 3.9: each names the
  // range its second byte must lie in for each lead byte.

  predicate TwoByteSeq(s: seq<Byte>) {
    |s| >= 2 && 0xC2 <= s[0] <= 0xDF && IsContinuation(s[1])
  }

  predicate ThreeByteSeq(s: seq<Byte>) {
    && |s| >= 3
    && (|| (s[0] == 0xE0 && 0xA0 <= s[1] <= 0xBF)
        || (0xE1 <= s[0] <= 0xEC && IsContinuation(s[1]))
        || (s[0] == 0xED && 0x80 <= s[1] <= 0x9F)
        || (0xEE <= s[0] <= 0xEF && IsContinuation(s[1])))
    && IsContinuation(s[2])
  }

  predicate FourByteSeq(s: seq<Byte>) {
    && |s| >= 4
    && (|| (s[0] == 0xF0 && 0x90 <= s[1] <= 0xBF)
        || (0xF1 <= s[0] <= 0xF3 && IsContinuation(s[1]))
        || (s[0] == 0xF4 && 0x80 <= s[1] <= 0x8F))
    && IsContinuation(s[2]) && IsContinuation(s[3])
  }

  /** The number of bytes of the encoding that starts at `s[0]`: the length
      of a valid UTF-8 sequence there (overlong forms, surrogates and code
      points past U+10FFFF are invalid), or 1. */
  function RuneWidth(s: seq<Byte>): (w: nat)
    requires |s| > 0
    ensures 1 <= w <= 4 && w <= |s|
    ensures s[0] < 0x80 ==> w == 1
    ensures w == 2 <==> TwoByteSeq(s)
    ensures w == 3 <==> ThreeByteSeq(s)
    ensures w == 4 <==> FourByteSeq(s)
  {
    var b := s[0];
    // ASCII, a stray continuation byte, an overlong lead (C0, C1) or a lead
    // past U+10FFFF (F5..FF) is one byte on its own.
    if b < 0xC2 || b > 0xF4 then 1
    else
      var size := if b < 0xE0 then 2 else if b < 0xF0 then 3 else 4;
      // The range the second byte must lie in for the lead byte `b`.
      var lo := if b == 0xE0 then 0xA0 else if b == 0xF0 then 0x90 else 0x80;
      var hi := if b == 0xED then 0x9F else if b == 0xF4 then 0x8F else 0xBF;
      if |s| < size || !(lo <= s[1] <= hi) then 1
      else if size == 2 then 2
      else if !IsContinuation(s[2]) then 1
      else if size == 3 then 3
      else if !IsContinuation(s[3]) then 1
      else 4
  }

  /** `len([]rune(s))`: never more runes than bytes, never more than four
      bytes per rune. */
  function RuneCount(s: seq<Byte>): (n: nat)
    ensures n <= |s| <= 4 * n
    decreases |s|
  {
    if s == [] then 0 else 1 + RuneCount(s[RuneWidth(s)..])
  }

  /** One encoded rune: an ASCII byte or a well-formed multi-byte sequence,
      and nothing more. */
  predicate Rune(p: seq<Byte>) {
    || (|p| == 1 && p[0] < 0x80)
    || (|p| == 2 && TwoByteSeq(p))
    || (|p| == 3 && ThreeByteSeq(p))
    || (|p| == 4 && FourByteSeq(p))
  }

  function Concat(ps: seq<seq<Byte>>): seq<Byte> {
    if ps == [] then [] else ps[0] + Concat(ps[1..])
  }

  /** The bytes after an encoded rune do not change its width. */
  lemma RuneWidthPrefix(p: seq<Byte>, rest: seq<Byte>)
    requires Rune(p)
    ensures RuneWidth(p + rest) == |p|
  {
    var s := p + rest;
    assert s[0] == p[0];
    if |p| >= 2 {
      assert s[1] == p[1];
    }
    if |p| >= 3 {
      assert s[2] == p[2];
    }
    if |p| >= 4 {
      assert s[3] == p[3];
    }
  }

  /** Text made of `k` encoded runes counts `k` runes, however many bytes
      each takes. */
  lemma {:induction false} RuneCountConcat(ps: seq<seq<Byte>>)
    requires forall i :: 0 <= i < |ps| ==> Rune(ps[i])
    ensures RuneCount(Concat(ps)) == |ps|
  {
    if ps != [] {
      var rest := Concat(ps[1..]);
      RuneWidthPrefix(ps[0], rest);
      assert (ps[0] + rest)[|ps[0]|..] == rest;
      RuneCountConcat(ps[1..]);
    }
  }

  /** Plain ASCII has one rune per byte. */
  lemma {:induction false} AsciiRuneCount(s: seq<Byte>)
    requires forall i :: 0 <= i < |s| ==> s[i] < 0x80
    ensures RuneCount(s) == |s|
    decreases |s|
  {
    if s != [] {
      AsciiRuneCount(s[1..]);
    }
  }
}
