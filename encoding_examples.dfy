/**
 * Examples from test/encoding.py, stated about the model of `pct_encode`.
 * Reserved-mode expectations at test/encoding.py:35 and :39 escape a lone
 * '%' to %25; the code keeps it (0x25 is in its reserved table), and
 * `PercentByMode` states what the code does.
 */
module EncodingExamples {
  import opened Utf8
  import opened PercentEncoding

  /** The empty string and unreserved text encode to themselves (test/encoding.py:12-13, 32-33). */
  lemma Unchanged(reservedExpansion: bool)
    ensures PctEncode("", reservedExpansion) == ""
    ensures PctEncode("hello123", reservedExpansion) == "hello123"
  {
    UnreservedPassThrough("", reservedExpansion);
    UnreservedPassThrough("hello123", reservedExpansion);
  }

  /** A space becomes %20 in both modes (test/encoding.py:14, 34). */
  lemma Space(reservedExpansion: bool)
    ensures PctEncode(" ", reservedExpansion) == "%20"
  {
  }

  /**
   * A lone '%' is escaped in plain mode (test/encoding.py:15) but kept in
   * reserved mode, where test/encoding.py:35 and :39 expect %25.
   */
  lemma PercentByMode(reservedExpansion: bool)
    ensures PctEncode("%", reservedExpansion) == if reservedExpansion then "%" else "%25"
  {
  }

  /** An existing triplet is escaped again in plain mode (test/encoding.py:16) and kept in reserved mode (test/encoding.py:36). */
  lemma TripletByMode()
    ensures PctEncode("%20", false) == "%2520"
    ensures PctEncode("%20", true) == "%20"
  {
  }

  lemma NiBytes()
    ensures Encode("你") == [0xE4, 0xBD, 0xA0]
  {
  }

  lemma HaoBytes()
    ensures Encode("好") == [0xE5, 0xA5, 0xBD]
  {
  }

  /** The UTF-8 bytes of 你, quoted. */
  lemma NiQuoted()
    ensures Quote([0xE4, 0xBD, 0xA0], false) == "%E4%BD%A0"
  {
  }

  /** The UTF-8 bytes of 好, quoted. */
  lemma HaoQuoted()
    ensures Quote([0xE5, 0xA5, 0xBD], false) == "%E5%A5%BD"
  {
  }

  lemma Ni(reservedExpansion: bool)
    ensures PctEncode("你", reservedExpansion) == "%E4%BD%A0"
  {
    NiBytes();
    NiQuoted();
    QuoteModesAgree([0xE4, 0xBD, 0xA0]);
  }

  lemma Hao(reservedExpansion: bool)
    ensures PctEncode("好", reservedExpansion) == "%E5%A5%BD"
  {
    HaoBytes();
    HaoQuoted();
    QuoteModesAgree([0xE5, 0xA5, 0xBD]);
  }

  /** Each UTF-8 byte of a non-ASCII character becomes one triplet, in both modes (test/encoding.py:22, 42). */
  lemma Multibyte(reservedExpansion: bool)
    ensures PctEncode("你好", reservedExpansion) == "%E4%BD%A0%E5%A5%BD"
  {
    Ni(reservedExpansion);
    Hao(reservedExpansion);
    PctEncodeAppend("你", "好", reservedExpansion);
    assert "你" + "好" == "你好";
  }

  /**
   * Reserved mode cannot tell a space from an escaped space, so unlike plain
   * mode it is not injective: the gap the TODO at libapi/templates.py:13 names.
   */
  lemma ReservedNotInjective()
    ensures " " != "%20" && PctEncode(" ", true) == PctEncode("%20", true)
  {
    Space(true);
    TripletByMode();
  }

  /** Plain mode is not idempotent: a second pass escapes the '%' of each triplet. */
  lemma PlainNotIdempotent()
    ensures PctEncode(PctEncode(" ", false), false) != PctEncode(" ", false)
  {
    Space(false);
    TripletByMode();
  }
}
