/**
 * UTF-8 (section 3 of RFC 3629): the byte form in which text is
 * percent-encoded. Dafny's `char` is a Unicode scalar value, so every
 * string has a UTF-8 form and the encoder never needs a replacement
 * character.
 */
module Utf8 {
  import opened Optional

  type byte = b: int | 0 <= b < 256

  /** True when every character of `s` is ASCII (below 0x80). */
  predicate IsAscii(s: string) {
    forall i :: 0 <= i < |s| ==> s[i] as int < 0x80
  }

  /** The one to four bytes that encode the scalar value `c`. */
  function EncodeChar(c: char): (r: seq<byte>)
    ensures 1 <= |r| <= 4
    ensures |r| == 1 <==> c as int < 0x80
    ensures c as int < 0x80 ==> r == [c as int]
    ensures forall k :: 1 <= k < |r| ==> 0x80 <= r[k] < 0xC0
  {
    var cp := c as int;
    if cp < 0x80 then [cp]
    else if cp < 0x800 then [0xC0 + cp / 64, 0x80 + cp % 64]
    else if cp < 0x1_0000 then [0xE0 + cp / 4096, 0x80 + cp / 64 % 64, 0x80 + cp % 64]
    else [0xF0 + cp / 262144, 0x80 + cp / 4096 % 64, 0x80 + cp / 64 % 64, 0x80 + cp % 64]
  }

  /** The UTF-8 form of a whole string: its characters' encodings, in order. */
  function Encode(s: string): (r: seq<byte>)
    ensures |s| <= |r| <= 4 * |s|
  {
    if s == [] then []
    else EncodeChar(s[0]) + Encode(s[1..])
  }

  /** Length of the sequence that `lead` starts, or 0 when `lead` cannot start one. */
  function SequenceLength(lead: byte): nat {
    if lead < 0x80 then 1
    else if 0xC0 <= lead < 0xE0 then 2
    else if 0xE0 <= lead < 0xF0 then 3
    else if 0xF0 <= lead < 0xF8 then 4
    else 0
  }

  /** The code point that the lead byte and continuation bytes of `bs` spell out. */
  function CodePoint(bs: seq<byte>): int
    requires 1 <= |bs| <= 4
  {
    var b0 := bs[0] as int;
    var b1 := if |bs| > 1 then bs[1] as int else 0;
    var b2 := if |bs| > 2 then bs[2] as int else 0;
    var b3 := if |bs| > 3 then bs[3] as int else 0;
    if |bs| == 1 then b0
    else if |bs| == 2 then (b0 - 0xC0) * 64 + (b1 - 0x80)
    else if |bs| == 3 then (b0 - 0xE0) * 4096 + (b1 - 0x80) * 64 + (b2 - 0x80)
    else (b0 - 0xF0) * 262144 + (b1 - 0x80) * 4096 + (b2 - 0x80) * 64 + (b3 - 0x80)
  }

  /** Smallest code point that may be written with `n` bytes (longer forms are overlong). */
  function MinCodePoint(n: nat): int {
    if n == 2 then 0x80 else if n == 3 then 0x800 else if n == 4 then 0x1_0000 else 0
  }

  /** The character with code point `cp`, when `cp` is a Unicode scalar value. */
  function ScalarValue(cp: int): Option<char> {
    if 0 <= cp < 0xD800 || 0xE000 <= cp < 0x11_0000 then Some(cp as char) else None
  }

  /**
   * Strict UTF-8 decoding: fails on a bad lead byte, a missing or bad
   * continuation byte, an overlong form, a surrogate or a value past U+10FFFF.
   */
  function Decode(bs: seq<byte>): Option<string>
    decreases |bs|
  {
    if bs == [] then Some([])
    else
      var n := SequenceLength(bs[0]);
      if n == 0 || |bs| < n then None
      else if exists k :: 1 <= k < n && !(0x80 <= bs[k] < 0xC0) then None
      else
        var cp := CodePoint(bs[..n]);
        if cp < MinCodePoint(n) then None
        else match (ScalarValue(cp), Decode(bs[n..]))
          case (Some(c), Some(rest)) => Some([c] + rest)
          case _ => None
  }

  /** The three-byte form spells out its code point. */
  lemma ThreeByteCodePoint(cp: int)
    requires 0x800 <= cp < 0x1_0000
    ensures (cp / 4096) * 4096 + (cp / 64 % 64) * 64 + cp % 64 == cp
  {
    assert cp / 64 == cp / 4096 * 64 + cp / 64 % 64;
  }

  /** The four-byte form spells out its code point. */
  lemma FourByteCodePoint(cp: int)
    requires 0x1_0000 <= cp < 0x11_0000
    ensures (cp / 262144) * 262144 + (cp / 4096 % 64) * 4096 + (cp / 64 % 64) * 64 + cp % 64 == cp
  {
    assert cp / 4096 == cp / 262144 * 64 + cp / 4096 % 64;
    assert cp / 64 == cp / 4096 * 64 + cp / 64 % 64;
  }

  /** The bytes of a character spell out its code point, in the shortest form. */
  lemma EncodeCharCodePoint(c: char)
    ensures SequenceLength(EncodeChar(c)[0]) == |EncodeChar(c)|
    ensures CodePoint(EncodeChar(c)) == c as int
    ensures c as int >= MinCodePoint(|EncodeChar(c)|)
  {
    var cp := c as int;
    if 0x800 <= cp < 0x1_0000 {
      ThreeByteCodePoint(cp);
    } else if 0x1_0000 <= cp {
      FourByteCodePoint(cp);
    }
  }

  /** Decoding the first character's bytes gives that character back and resumes right after them. */
  lemma DecodeEncodeChar(c: char, rest: seq<byte>)
    ensures Decode(EncodeChar(c) + rest) ==
      match Decode(rest)
      case Some(t) => Some([c] + t)
      case None => None
  {
    var e := EncodeChar(c);
    var bs := e + rest;
    var n := |e|;
    assert bs[..n] == e;
    assert bs[n..] == rest;
    assert bs[0] == e[0];
    assert forall k :: 1 <= k < n ==> bs[k] == e[k];
    EncodeCharCodePoint(c);
    assert ScalarValue(c as int) == Some(c);
  }

  /** UTF-8 round trip: decoding the encoding of any string gives that string. */
  lemma {:induction false} DecodeEncode(s: string)
    ensures Decode(Encode(s)) == Some(s)
  {
    if s != [] {
      DecodeEncode(s[1..]);
      DecodeEncodeChar(s[0], Encode(s[1..]));
      assert [s[0]] + s[1..] == s;
    }
  }

  /** So the encoding is injective: distinct strings have distinct UTF-8 forms. */
  lemma EncodeInjective(s: string, t: string)
    requires Encode(s) == Encode(t)
    ensures s == t
  {
    DecodeEncode(s);
    DecodeEncode(t);
  }

  /** An ASCII string is its own UTF-8 form, byte for character. */
  lemma {:induction false} EncodeAscii(s: string)
    requires IsAscii(s)
    ensures |Encode(s)| == |s|
    ensures forall i :: 0 <= i < |s| ==> Encode(s)[i] == s[i] as int
  {
    if s != [] {
      EncodeAscii(s[1..]);
    }
  }

  /** UTF-8 encoding distributes over concatenation. */
  lemma {:induction false} EncodeAppend(s: string, t: string)
    ensures Encode(s + t) == Encode(s) + Encode(t)
  {
    if s == [] {
      assert s + t == t;
    } else {
      assert (s + t)[1..] == s[1..] + t;
      EncodeAppend(s[1..], t);
    }
  }
}
