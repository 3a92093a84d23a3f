/**
 UTF-8 decoding as a Go `for range` loop over a string does it: a malformed octet counts as one
 U+FFFD of width 1 (section 3 of RFC 3629 gives the well-formed ranges).
 */
module Utf8 {
  const RUNE_ERROR := 0xFFFD
  const MAX_RUNE := 0x10FFFF

  datatype Decoded = Decoded(rune: nat, size: nat)

  predicate Within(c: char, lo: int, hi: int) {
    lo <= c as int <= hi
  }

  /** The range that the second octet must lie in after the lead octet `c`. */
  function SecondLow(c: char): int {
    if c as int == 0xE0 then 0xA0 else if c as int == 0xF0 then 0x90 else 0x80
  }

  function SecondHigh(c: char): int {
    if c as int == 0xED then 0x9F else if c as int == 0xF4 then 0x8F else 0xBF
  }

  predicate Continues(c: char) {
    Within(c, 0x80, 0xBF)
  }

  /** A code point from its leading bits and the octet with its last six. */
  function Extend(high: nat, c: char): nat
    requires Continues(c)
  {
    high * 0x40 + (c as int - 0x80)
  }

  function DecodeRune(s: string): (d: Decoded)
    requires s != ""
    ensures 1 <= d.size <= |s| && d.size <= 4
    ensures d.rune <= MAX_RUNE
    ensures d.rune < 0x80 <==> s[0] as int < 0x80
    ensures d.rune < 0x80 ==> d.size == 1 && d.rune == s[0] as int
  {
    var c0 := s[0] as int;
    if c0 < 0x80 then Decoded(c0, 1)
    else if Within(s[0], 0xC2, 0xDF) && |s| >= 2 && Continues(s[1]) then
      Decoded(Extend(c0 - 0xC0, s[1]), 2)
    else if Within(s[0], 0xE0, 0xEF) && |s| >= 3
            && Within(s[1], SecondLow(s[0]), SecondHigh(s[0])) && Continues(s[2]) then
      Decoded(Extend(Extend(c0 - 0xE0, s[1]), s[2]), 3)
    else if Within(s[0], 0xF0, 0xF4) && |s| >= 4
            && Within(s[1], SecondLow(s[0]), SecondHigh(s[0])) && Continues(s[2]) && Continues(s[3]) then
      Decoded(Extend(Extend(Extend(c0 - 0xF0, s[1]), s[2]), s[3]), 4)
    else Decoded(RUNE_ERROR, 1)
  }

  function Runes(s: string): (r: seq<nat>)
    ensures forall i :: 0 <= i < |r| ==> r[i] <= MAX_RUNE
    ensures r == [] <==> s == ""
  {
    if s == "" then []
    else
      var d := DecodeRune(s);
      [d.rune] + Runes(s[d.size..])
  }

  // ---------------------------------------------------------------- agreement with the encoding

  /** Code points that UTF-8 can encode: all but the surrogates. */
  predicate IsScalar(r: nat) {
    r < 0xD800 || 0xE000 <= r <= MAX_RUNE
  }

  /** The last six bits of a code point, as a continuation octet. */
  function Tail(r: nat): (c: char)
    ensures Continues(c) && Extend(r / 0x40, c) == r
  {
    (0x80 + r % 0x40) as char
  }

  /** UTF-8 encoding, section 3 of RFC 3629. */
  function EncodeRune(r: nat): (s: string)
    requires IsScalar(r)
    ensures 1 <= |s| <= 4
  {
    if r < 0x80 then [r as char]
    else if r < 0x800 then [(0xC0 + r / 0x40) as char, Tail(r)]
    else if r < 0x10000 then [(0xE0 + r / 0x40 / 0x40) as char, Tail(r / 0x40), Tail(r)]
    else [(0xF0 + r / 0x40 / 0x40 / 0x40) as char, Tail(r / 0x40 / 0x40), Tail(r / 0x40), Tail(r)]
  }

  /** Decoding reads back every encoded rune, whatever follows it. */
  lemma DecodeReadsEncoded(r: nat, s: string)
    requires IsScalar(r) && EncodeRune(r) <= s
    ensures DecodeRune(s) == Decoded(r, |EncodeRune(r)|)
  {
    var e := EncodeRune(r);
    assert forall i :: 0 <= i < |e| ==> s[i] == e[i];
  }

  lemma TailOfExtend(high: nat, c: char)
    requires Continues(c)
    ensures Extend(high, c) / 0x40 == high && Tail(Extend(high, c)) == c
  {
  }

  lemma EncodeLong(s: string)
    requires s != "" && DecodeRune(s).size == 4
    ensures IsScalar(DecodeRune(s).rune) && s[..4] == EncodeRune(DecodeRune(s).rune)
  {
    var r1 := Extend(s[0] as int - 0xF0, s[1]);
    TailOfExtend(s[0] as int - 0xF0, s[1]);
    TailOfExtend(r1, s[2]);
    TailOfExtend(Extend(r1, s[2]), s[3]);
    assert 0x10 <= r1 <= 0x10F;
  }

  lemma EncodeMedium(s: string)
    requires s != "" && DecodeRune(s).size == 3
    ensures IsScalar(DecodeRune(s).rune) && s[..3] == EncodeRune(DecodeRune(s).rune)
  {
    var r1 := Extend(s[0] as int - 0xE0, s[1]);
    TailOfExtend(s[0] as int - 0xE0, s[1]);
    TailOfExtend(r1, s[2]);
    assert 0x20 <= r1 < 0x360 || 0x380 <= r1 < 0x400;
  }

  /** What is decoded is either an encoded rune or one malformed octet. */
  lemma DecodedIsEncodedOrMalformed(s: string)
    requires s != ""
    ensures var d := DecodeRune(s);
            || (IsScalar(d.rune) && s[..d.size] == EncodeRune(d.rune))
            || (d == Decoded(0xFFFD, 1) && 0x80 <= s[0] as int)
  {
    var d := DecodeRune(s);
    if d.size == 2 {
      TailOfExtend(s[0] as int - 0xC0, s[1]);
      assert s[..2] == [s[0], s[1]];
    } else if d.size == 3 {
      EncodeMedium(s);
    } else if d.size == 4 {
      EncodeLong(s);
    }
  }
}
