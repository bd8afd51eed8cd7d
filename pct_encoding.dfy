/**
 * Percent-encoding of section 2.1 of RFC 3986, as `pct_encode` does it
 * (libapi/templates.py): the string is taken as UTF-8 bytes, and each byte
 * is either kept as the ASCII character it is or written as '%' followed
 * by two uppercase hex digits.
 */
module PercentEncoding {
  import opened Optional
  import opened Utf8

  /**
   * `reserved_characters`: the 19 bytes of the source's integer literal, in
   * order. They are the gen-delims and sub-delims of section 2.2 of RFC 3986
   * and also '%' (0x25), which reserved expansion therefore keeps as is.
   */
  const ReservedCharacters: seq<byte> :=
    [0x21, 0x23, 0x24, 0x25, 0x26, 0x27, 0x28, 0x29, 0x2A, 0x2B,
     0x2C, 0x2F, 0x3A, 0x3B, 0x3D, 0x3F, 0x40, 0x5B, 0x5D]

  /** gen-delims of section 2.2 of RFC 3986. */
  const GenDelims: string := ":/?#[]@"

  /** sub-delims of section 2.2 of RFC 3986. */
  const SubDelims: string := "!$&'()*+,;="

  /** Unreserved characters of section 2.3 of RFC 3986: A-Z a-z 0-9 - . _ ~ */
  predicate IsUnreserved(b: byte) {
    ('A' as int <= b <= 'Z' as int) || ('a' as int <= b <= 'z' as int) || ('0' as int <= b <= '9' as int)
    || b == '-' as int || b == '.' as int || b == '_' as int || b == '~' as int
  }

  /** Membership in `ReservedCharacters`, written out byte by byte. */
  predicate IsReserved(b: byte) {
    b == 0x21 || b == 0x23 || b == 0x24 || b == 0x25 || b == 0x26 || b == 0x27 || b == 0x28
    || b == 0x29 || b == 0x2A || b == 0x2B || b == 0x2C || b == 0x2F || b == 0x3A || b == 0x3B
    || b == 0x3D || b == 0x3F || b == 0x40 || b == 0x5B || b == 0x5D
  }

  /** `IsReserved` is membership in the table. */
  lemma IsReservedInTable()
    ensures forall b: byte :: IsReserved(b) <==> b in ReservedCharacters
  {
  }

  /** The bytes `quote` leaves alone: unreserved ones always, the table's too in reserved expansion. */
  predicate IsKept(b: byte, reservedExpansion: bool) {
    IsUnreserved(b) || (reservedExpansion && IsReserved(b))
  }

  /** A character whose single UTF-8 byte is kept. */
  predicate IsKeptChar(c: char, reservedExpansion: bool) {
    c as int < 0x80 && IsKept(c as int, reservedExpansion)
  }

  /** The uppercase hex digit for `n`. */
  function HexDigit(n: nat): (c: char)
    requires n < 16
    ensures HexValue(c) == Some(n)
  {
    if n < 10 then ('0' as int + n) as char else ('A' as int + n - 10) as char
  }

  /** The value of an uppercase hex digit; lowercase digits are not hex digits here. */
  function HexValue(c: char): (r: Option<nat>)
    ensures r.Some? ==> r.value < 16
  {
    if '0' <= c <= '9' then Some(c as int - '0' as int)
    else if 'A' <= c <= 'F' then Some(c as int - 'A' as int + 10)
    else None
  }

  /** One byte as `quote` writes it. */
  function QuoteByte(b: byte, reservedExpansion: bool): (r: string)
    ensures IsKept(b, reservedExpansion) ==> r == [b as char]
    ensures !IsKept(b, reservedExpansion) ==>
      |r| == 3 && r[0] == '%' && HexValue(r[1]) == Some(b / 16) && HexValue(r[2]) == Some(b % 16)
  {
    if IsKept(b, reservedExpansion) then [b as char]
    else ['%', HexDigit(b / 16), HexDigit(b % 16)]
  }

  /** `quote` over a byte string: every byte in order, each either kept or escaped. */
  function Quote(bs: seq<byte>, reservedExpansion: bool): (r: string)
    ensures |bs| <= |r| <= 3 * |bs|
  {
    if bs == [] then ""
    else QuoteByte(bs[0], reservedExpansion) + Quote(bs[1..], reservedExpansion)
  }

  /** `pct_encode(a, reserved_expansion)`: `quote` applied to the UTF-8 form of `a`. */
  function PctEncode(a: string, reservedExpansion: bool): (r: string)
    ensures |a| <= |r| <= 12 * |a|
  {
    Quote(Encode(a), reservedExpansion)
  }

  /**
   * Decoding of what plain-mode encoding produces: '%' with two uppercase
   * hex digits stands for that byte, an unreserved character for itself;
   * anything else is rejected.
   */
  function PctDecode(s: string): Option<seq<byte>>
    decreases |s|
  {
    if s == [] then Some([])
    else if s[0] == '%' then
      if |s| < 3 then None
      else match (HexValue(s[1]), HexValue(s[2]), PctDecode(s[3..]))
        case (Some(hi), Some(lo), Some(rest)) => Some([hi * 16 + lo] + rest)
        case _ => None
    else if IsKeptChar(s[0], false) then
      match PctDecode(s[1..])
      case Some(rest) => Some([s[0] as int] + rest)
      case None => None
    else None
  }

  /** `quote` distributes over concatenation of byte strings. */
  lemma {:induction false} QuoteAppend(a: seq<byte>, b: seq<byte>, reservedExpansion: bool)
    ensures Quote(a + b, reservedExpansion) == Quote(a, reservedExpansion) + Quote(b, reservedExpansion)
  {
    if a == [] {
      assert a + b == b;
    } else {
      assert (a + b)[1..] == a[1..] + b;
      QuoteAppend(a[1..], b, reservedExpansion);
    }
  }

  /**
   * Every character `quote` produces is one that reserved expansion keeps:
   * an unreserved character, a reserved one, or the '%' of a triplet.
   */
  lemma {:induction false} QuoteOutputKept(bs: seq<byte>, reservedExpansion: bool)
    ensures forall i :: 0 <= i < |Quote(bs, reservedExpansion)| ==> IsKeptChar(Quote(bs, reservedExpansion)[i], true)
  {
    if bs != [] {
      var head := QuoteByte(bs[0], reservedExpansion);
      var tail := Quote(bs[1..], reservedExpansion);
      QuoteOutputKept(bs[1..], reservedExpansion);
      assert forall i :: 0 <= i < |head| ==> IsKeptChar(head[i], true);
      assert Quote(bs, reservedExpansion) == head + tail;
    }
  }

  /** So the output of percent-encoding is always ASCII, in both modes. */
  lemma OutputIsAscii(s: string, reservedExpansion: bool)
    ensures IsAscii(PctEncode(s, reservedExpansion))
  {
    QuoteOutputKept(Encode(s), reservedExpansion);
  }

  /** Encoding a non-empty string is encoding its first character, then the rest. */
  lemma PctEncodeCons(s: string, reservedExpansion: bool)
    requires s != []
    ensures PctEncode(s, reservedExpansion) ==
      Quote(EncodeChar(s[0]), reservedExpansion) + PctEncode(s[1..], reservedExpansion)
  {
    QuoteAppend(EncodeChar(s[0]), Encode(s[1..]), reservedExpansion);
  }

  /** Percent-encoding distributes over concatenation of strings. */
  lemma PctEncodeAppend(s: string, t: string, reservedExpansion: bool)
    ensures PctEncode(s + t, reservedExpansion) == PctEncode(s, reservedExpansion) + PctEncode(t, reservedExpansion)
  {
    EncodeAppend(s, t);
    QuoteAppend(Encode(s), Encode(t), reservedExpansion);
  }

  /** Plain-mode decoding undoes plain-mode `quote`: no two byte strings quote alike. */
  lemma {:induction false} PctDecodeQuote(bs: seq<byte>)
    ensures PctDecode(Quote(bs, false)) == Some(bs)
  {
    if bs != [] {
      var b := bs[0];
      var tail := Quote(bs[1..], false);
      var q := QuoteByte(b, false) + tail;
      PctDecodeQuote(bs[1..]);
      if IsKept(b, false) {
        assert q[0] == b as char && q[1..] == tail;
      } else {
        assert q[0] == '%' && q[3..] == tail;
        assert HexValue(q[1]) == Some(b / 16) && HexValue(q[2]) == Some(b % 16);
      }
      assert [b] + bs[1..] == bs;
    }
  }

  /**
   * Plain-mode round trip: percent-decoding then UTF-8 decoding the
   * encoding of any string gives that string back.
   */
  lemma PlainRoundTrip(s: string)
    ensures PctDecode(PctEncode(s, false)) == Some(Encode(s))
    ensures Decode(PctDecode(PctEncode(s, false)).value) == Some(s)
  {
    PctDecodeQuote(Encode(s));
    DecodeEncode(s);
  }

  /** Hence plain-mode encoding is injective. */
  lemma PlainInjective(s: string, t: string)
    requires PctEncode(s, false) == PctEncode(t, false)
    ensures s == t
  {
    PlainRoundTrip(s);
    PlainRoundTrip(t);
  }

  /** One character becomes at least two output characters unless it is a kept ASCII character. */
  lemma QuoteCharLength(c: char, reservedExpansion: bool)
    ensures IsKeptChar(c, reservedExpansion) ==> Quote(EncodeChar(c), reservedExpansion) == [c]
    ensures !IsKeptChar(c, reservedExpansion) ==> |Quote(EncodeChar(c), reservedExpansion)| >= 2
  {
    var e := EncodeChar(c);
    if c as int < 0x80 {
      assert e == [c as int];
      assert Quote(e, reservedExpansion) == QuoteByte(c as int, reservedExpansion) + Quote([], reservedExpansion);
    }
  }

  /**
   * A string encodes to itself exactly when each of its characters is an
   * ASCII character the mode keeps.
   */
  lemma {:induction false} FixedPointIff(s: string, reservedExpansion: bool)
    ensures PctEncode(s, reservedExpansion) == s <==>
      forall i :: 0 <= i < |s| ==> IsKeptChar(s[i], reservedExpansion)
  {
    if s != [] {
      var m := reservedExpansion;
      PctEncodeCons(s, m);
      QuoteCharLength(s[0], m);
      FixedPointIff(s[1..], m);
      var head := Quote(EncodeChar(s[0]), m);
      var rest := PctEncode(s[1..], m);
      if IsKeptChar(s[0], m) {
        assert s == [s[0]] + s[1..];
        if PctEncode(s, m) == s {
          assert rest == s[1..];
        }
        if forall i :: 0 <= i < |s| ==> IsKeptChar(s[i], m) {
          assert forall i :: 0 <= i < |s[1..]| ==> IsKeptChar(s[1..][i], m) by {
            forall i | 0 <= i < |s[1..]| ensures IsKeptChar(s[1..][i], m) {
              assert s[1..][i] == s[i + 1];
            }
          }
        }
      } else {
        assert |PctEncode(s, m)| == |head| + |rest| > |s|;
      }
    }
  }

  /** Unreserved ASCII text, the empty string included, encodes to itself in either mode. */
  lemma UnreservedPassThrough(s: string, reservedExpansion: bool)
    requires forall i :: 0 <= i < |s| ==> s[i] as int < 0x80 && IsUnreserved(s[i] as int)
    ensures PctEncode(s, reservedExpansion) == s
  {
    FixedPointIff(s, reservedExpansion);
  }

  /**
   * Reserved-mode output is a fixed point of reserved-mode encoding: '%',
   * the hex digits and every kept byte are all kept in that mode.
   */
  lemma ReservedIdempotent(s: string)
    ensures PctEncode(PctEncode(s, true), true) == PctEncode(s, true)
  {
    QuoteOutputKept(Encode(s), true);
    FixedPointIff(PctEncode(s, true), true);
  }

  /** The reserved table holds 19 distinct bytes, in increasing order. */
  lemma ReservedTableSorted()
    ensures |ReservedCharacters| == 19
    ensures forall i, j :: 0 <= i < j < 19 ==> ReservedCharacters[i] < ReservedCharacters[j]
  {
  }

  /** The reserved table is exactly the gen-delims and sub-delims of RFC 3986, and '%'. */
  lemma ReservedTable()
    ensures forall b: byte :: b in ReservedCharacters <==>
      (b < 0x80 && (b as char in GenDelims || b as char in SubDelims || b == '%' as int))
  {
    forall b: byte
      ensures b in ReservedCharacters <==> (b < 0x80 && (b as char in GenDelims || b as char in SubDelims || b == '%' as int))
    {
      if b < 0x80 && b as char in GenDelims {
        var k :| 0 <= k < |GenDelims| && GenDelims[k] == b as char;
      }
      if b < 0x80 && b as char in SubDelims {
        var k :| 0 <= k < |SubDelims| && SubDelims[k] == b as char;
      }
    }
  }

  /** A byte is kept in reserved mode but escaped in plain mode exactly when it is in the table. */
  lemma ReservedModes()
    ensures forall b: byte :: b in ReservedCharacters <==> IsKept(b, true) && !IsKept(b, false)
  {
  }

  /** Where no byte of the input is in the table, the two modes agree. */
  lemma {:induction false} QuoteModesAgree(bs: seq<byte>)
    requires forall k :: 0 <= k < |bs| ==> bs[k] !in ReservedCharacters
    ensures Quote(bs, true) == Quote(bs, false)
  {
    if bs != [] {
      QuoteModesAgree(bs[1..]);
    }
  }

  /** `q` holds, at triplet `k`, the escape of byte `b`: '%', its high and its low hex digit. */
  predicate IsTripletAt(q: string, k: nat, b: byte) {
    3 * k + 3 <= |q| && q[3 * k] == '%' && HexValue(q[3 * k + 1]) == Some(b / 16) && HexValue(q[3 * k + 2]) == Some(b % 16)
  }

  /** A triplet keeps its place, moved by one, behind a three-character prefix. */
  lemma TripletShift(head: string, tail: string, k: nat, b: byte)
    requires |head| == 3 && IsTripletAt(tail, k, b)
    ensures IsTripletAt(head + tail, k + 1, b)
  {
    var q := head + tail;
    assert q[3 * (k + 1)] == tail[3 * k];
    assert q[3 * (k + 1) + 1] == tail[3 * k + 1];
    assert q[3 * (k + 1) + 2] == tail[3 * k + 2];
  }

  /** Bytes that are not kept become one triplet each, in byte order. */
  lemma {:induction false} EscapedTriplets(bs: seq<byte>, reservedExpansion: bool)
    requires forall k :: 0 <= k < |bs| ==> !IsKept(bs[k], reservedExpansion)
    ensures |Quote(bs, reservedExpansion)| == 3 * |bs|
    ensures forall k :: 0 <= k < |bs| ==> IsTripletAt(Quote(bs, reservedExpansion), k, bs[k])
  {
    if bs != [] {
      var m := reservedExpansion;
      var head := QuoteByte(bs[0], m);
      var tail := Quote(bs[1..], m);
      EscapedTriplets(bs[1..], m);
      assert Quote(bs, m) == head + tail;
      assert IsTripletAt(head + tail, 0, bs[0]);
      forall k | 1 <= k < |bs|
        ensures IsTripletAt(head + tail, k, bs[k])
      {
        assert bs[k] == bs[1..][k - 1];
        TripletShift(head, tail, k - 1, bs[k]);
      }
    }
  }
}
