# URI templates of libapi, in Dafny

This project models `libapi/templates.py`, a small implementation of RFC 6570
URI templates at Levels 1 and 2, and proves properties of the model.

- `PercentEncoding` (pct_encoding.dfy) models `pct_encode`: percent-encoding
  as in section 2.1 of RFC 3986, over the UTF-8 form of the text (`Utf8`,
  utf8.dfy, an encoder with a strict decoder as its partner). Plain mode keeps
  only the unreserved characters of section 2.3 of RFC 3986. Reserved mode
  also keeps the 19 bytes of `reserved_characters`. Every other byte becomes
  `%` and two uppercase hex digits. A plain-mode decoder is the partner that
  proves plain encoding injective.
- `Templates` (templates.dfy) models the rest:
  - the expression pattern `\{([+#]?)(.*?)\}`, as an explicit leftmost scanner
    (`FindClose`, `MatchAt`, `Scan`, `Matches`) with its soundness and
    completeness proved against a declarative description (`IsExpressionAt`);
  - `URITemplate.__new__`, as the constructor of the class `URITemplate`. It
    appends every match to the bucket of its name in the field `variables`;
  - `URITemplate.expand`, as the method `URITemplate.Expand`. It sorts the
    entries of all buckets by descending start (`EntriesLastFirst`), then
    splices each replacement into a working copy, last span first
    (`SpliceLastFirst`; each pass of its loop is `SpliceNext`, which calls
    `SpliceOne`, the loop body of the source, and carries the loop invariant
    from one pass to the next). Its result is proved
    equal to `Expansion`, the left-to-right concatenation of the literal text
    between the spans and each span's replacement. That equality is what
    right-to-left processing buys: every recorded span stays valid in the
    working copy.
- `EncodingExamples` and `TemplateExamples` state the examples of
  test/encoding.py, and small templates, about the model.

Values are `Option<string>`: `None` is Python's `None`, and `Some(s)` is a
value whose `str()` is `s`. A name missing from the map is an absent key.

The code and its tests disagree on one point, and the model follows the code.
`reserved_characters` (libapi/templates.py:14) contains `%` (0x25), so
reserved expansion keeps a lone `%`. test/encoding.py:35 and :39 expect `%25`
there. `EncodingExamples.PercentByMode` states what the code does. The TODO at
libapi/templates.py:13 names the same gap, and `EncodingExamples.ReservedNotInjective`
shows its consequence.

## Model

| member | source | states |
|---|---|---|
| Utf8.EncodeChar | libapi/templates.py:25 | one to four bytes per character; a single byte exactly for ASCII, equal to the code point; continuation bytes in 0x80..0xBF |
| Utf8.EncodeCharCodePoint | libapi/templates.py:25 | the leading byte announces the length of a character's form, the form holds the character's code point, and the length is the shortest for it |
| Utf8.DecodeEncodeChar | libapi/templates.py:25 | the form of one character decodes to that character |
| Utf8.Encode | libapi/templates.py:25 | the UTF-8 form of a string has at least one and at most four bytes per character |
| Utf8.DecodeEncode | libapi/templates.py:25 | the UTF-8 form of any string decodes back to that string |
| Utf8.EncodeInjective | libapi/templates.py:25 | distinct strings have distinct UTF-8 forms |
| Utf8.EncodeAscii | libapi/templates.py:25 | ASCII text is its own UTF-8 form, byte for character |
| Utf8.EncodeAppend | libapi/templates.py:25 | UTF-8 encoding distributes over concatenation |
| PercentEncoding.HexDigit | libapi/templates.py:25 | the digit written for a nibble is an uppercase hex digit of that value |
| PercentEncoding.QuoteByte | libapi/templates.py:25 | a kept byte is written as itself; any other byte as '%' and the uppercase hex digits of its high and low nibble |
| PercentEncoding.Quote | libapi/templates.py:25 | quoting a byte string writes one to three characters per byte |
| PercentEncoding.PctEncode | libapi/templates.py:20-25 | the output is at least as long as the input and at most 12 characters per input character |
| PercentEncoding.QuoteAppend | libapi/templates.py:25 | quoting distributes over concatenation of byte strings |
| PercentEncoding.PctEncodeCons | libapi/templates.py:20-25 | encoding a non-empty string is quoting the form of its first character, then encoding the rest |
| PercentEncoding.PctEncodeAppend | libapi/templates.py:20-25 | percent-encoding distributes over concatenation of strings |
| PercentEncoding.QuoteOutputKept | libapi/templates.py:14-25 | every output character is one reserved mode keeps |
| PercentEncoding.OutputIsAscii | libapi/templates.py:20-25 | the output is ASCII in both modes |
| PercentEncoding.PctDecodeQuote | libapi/templates.py:25 | plain-mode decoding undoes plain-mode quoting of any byte string |
| PercentEncoding.PlainRoundTrip | libapi/templates.py:20-25 | percent-decoding then UTF-8 decoding a plain encoding gives the original string |
| PercentEncoding.PlainInjective | libapi/templates.py:20-25 | plain-mode encoding is injective |
| PercentEncoding.QuoteCharLength | libapi/templates.py:25 | a kept ASCII character encodes to itself; any other character to at least two characters |
| PercentEncoding.FixedPointIff | libapi/templates.py:20-25 | a string encodes to itself exactly when every character is an ASCII character the mode keeps |
| PercentEncoding.UnreservedPassThrough | libapi/templates.py:25 | unreserved ASCII text, the empty string included, is unchanged in both modes |
| PercentEncoding.ReservedIdempotent | libapi/templates.py:14-25 | encoding reserved-mode output again in reserved mode changes nothing |
| PercentEncoding.ReservedTableSorted | libapi/templates.py:14 | the table has 19 distinct bytes, in increasing order |
| PercentEncoding.ReservedTable | libapi/templates.py:14 | a byte is in the table exactly when it is a gen-delim or a sub-delim of RFC 3986, or '%' |
| PercentEncoding.IsReservedInTable | libapi/templates.py:14 | the byte-by-byte membership test agrees with the table for every byte |
| PercentEncoding.ReservedModes | libapi/templates.py:14-25 | a byte is kept in reserved mode and escaped in plain mode exactly when it is in the table |
| PercentEncoding.QuoteModesAgree | libapi/templates.py:14-25 | bytes outside the table are quoted alike in both modes |
| PercentEncoding.TripletShift | libapi/templates.py:25 | a triplet keeps its place behind a three-character prefix |
| PercentEncoding.EscapedTriplets | libapi/templates.py:25 | bytes that are not kept become one triplet each, three characters per byte, in byte order |
| EncodingExamples.Unchanged | test/encoding.py:12-13 | "" and "hello123" encode to themselves in both modes |
| EncodingExamples.Space | test/encoding.py:14 | a space becomes %20 in both modes |
| EncodingExamples.PercentByMode | libapi/templates.py:14 | a lone '%' becomes %25 in plain mode and stays '%' in reserved mode (see also test/encoding.py:15) |
| EncodingExamples.TripletByMode | test/encoding.py:16 | "%20" becomes "%2520" in plain mode and stays "%20" in reserved mode (see also test/encoding.py:36) |
| EncodingExamples.NiBytes | test/encoding.py:22 | the UTF-8 form of 你 is E4 BD A0 |
| EncodingExamples.HaoBytes | test/encoding.py:22 | the UTF-8 form of 好 is E5 A5 BD |
| EncodingExamples.NiQuoted | test/encoding.py:22 | the bytes E4 BD A0 quote to %E4%BD%A0 |
| EncodingExamples.HaoQuoted | test/encoding.py:22 | the bytes E5 A5 BD quote to %E5%A5%BD |
| EncodingExamples.Ni | test/encoding.py:22 | 你 becomes %E4%BD%A0 in both modes (see also test/encoding.py:42) |
| EncodingExamples.Hao | test/encoding.py:22 | 好 becomes %E5%A5%BD in both modes (see also test/encoding.py:42) |
| EncodingExamples.Multibyte | test/encoding.py:22 | 你好 becomes six triplets, %E4%BD%A0%E5%A5%BD, in both modes (see also test/encoding.py:42) |
| EncodingExamples.ReservedNotInjective | libapi/templates.py:13-14 | in reserved mode a space and an escaped space encode alike |
| EncodingExamples.PlainNotIdempotent | libapi/templates.py:25 | a second plain-mode pass escapes the '%' of each triplet |
| Templates.FindClose | libapi/templates.py:17 | the result is the first '}' with no '}' and no newline before it; when there is none, no later '}' is reachable without crossing one |
| Templates.MatchAt | libapi/templates.py:17 | there is a match at i exactly when text[i] is '{' and a later '}' follows with no '}' or newline between; the match starts at i and ends within the text |
| Templates.MatchAtSound | libapi/templates.py:17 | what MatchAt finds is an occurrence of the pattern: braces at both ends, operator "", "+" or "#", the name between them free of '}' and newline |
| Templates.FindCloseFirst | libapi/templates.py:17 | the lazy `.*?` stops at the first '}' |
| Templates.MatchAtComplete | libapi/templates.py:17 | any occurrence of the pattern at a position is the match found there |
| Templates.ScanSound | libapi/templates.py:49 | every match the scan returns is the match at its own start, within the text |
| Templates.ScanAfter | libapi/templates.py:49 | every match the scan from i returns starts at or after i |
| Templates.ScanOrdered | libapi/templates.py:49 | the spans the scan returns follow each other without overlapping |
| Templates.MatchesIncreasing | libapi/templates.py:49 | the matches are disjoint and their starts strictly increase |
| Templates.MatchesWellFormed | libapi/templates.py:49-52 | every match is an occurrence of the pattern (see also libapi/templates.py:17) |
| Templates.ScanLeftmost | libapi/templates.py:49 | no match starts at a position the scan steps over |
| Templates.NoMatchesIff | libapi/templates.py:49 | a text has no match exactly when no '{' is followed by a '}' without a '}' or newline between (see also libapi/templates.py:17) |
| Templates.Filter | libapi/templates.py:53 | the filtered entries are exactly the entries carrying the name |
| Templates.HeadFirst | libapi/templates.py:53 | in a sequence of increasing starts the first entry starts before every other |
| Templates.ConsIncreasing | libapi/templates.py:53 | an entry that starts before every entry of an increasing sequence can be put in front of it |
| Templates.FilterIncreasing | libapi/templates.py:53 | filtering keeps increasing starts |
| Templates.FilterAbsent | libapi/templates.py:53 | with no entry carrying the name, the filter is empty |
| Templates.FilterSnoc | libapi/templates.py:53 | appending an entry appends it to the filter of its own name only |
| Templates.NamesSnoc | libapi/templates.py:53 | appending an entry adds its name to the names found |
| Templates.AppendFilters | libapi/templates.py:53 | appending an entry to buckets that are the filters of the earlier matches gives the filters of the longer sequence |
| Templates.BucketsAreFilters | libapi/templates.py:47-53 | the keys are the names found, and each bucket lists the matches with its name in scan order |
| Templates.BucketKeys | libapi/templates.py:44-55 | the parsed dictionary is keyed by the names found, every match is in its name's bucket, and a text without matches gives an empty dictionary |
| Templates.BucketOfMatches | libapi/templates.py:44-55 | a bucket is non-empty, its starts increase, and it holds only matches carrying its name |
| Templates.EntriesOfBuckets | libapi/templates.py:60 | the entries of all buckets are exactly the matches |
| Templates.Reverse | libapi/templates.py:61 | the result lists the input back to front |
| Templates.ReverseReverse | libapi/templates.py:61 | reversing twice gives the sequence back |
| Templates.HeadsAgree | libapi/templates.py:61 | two strictly decreasing sequences with the same elements start alike |
| Templates.TailsAgree | libapi/templates.py:61 | dropping a common first element leaves the same elements |
| Templates.DecreasingUnique | libapi/templates.py:61 | two strictly decreasing sequences with the same elements are equal, so the sorted order is unique |
| Templates.LatestEntry | libapi/templates.py:61 | a non-empty set of entries has one with the largest start, and the lemma names it |
| Templates.SortByStartDescending | libapi/templates.py:60-61 | the result holds every entry once, with non-increasing starts |
| Templates.ReverseIncreasing | libapi/templates.py:61 | reversing increasing starts gives decreasing starts over the same elements |
| Templates.DistinctStartsDecrease | libapi/templates.py:61 | distinct entries with non-increasing starts, drawn from the matches, have strictly decreasing starts |
| Templates.SortedIsReverse | libapi/templates.py:60-61 | sorting the parsed entries by descending start gives the matches from last to first |
| Templates.ReplacementAbsentOrNone | libapi/templates.py:62-67 | an absent name deletes the span, and a name bound to None expands like one bound to "" |
| Templates.SimpleReplacementDecodes | libapi/templates.py:73-74 | a simple expression's replacement decodes back to its value |
| Templates.ReservedReplacementStable | libapi/templates.py:69-72 | a "+" replacement is left alone by reserved encoding; a "#" replacement is '#' followed by such text |
| Templates.ReplacementIsAscii | libapi/templates.py:62-74 | every replacement is ASCII |
| Templates.Replacements | libapi/templates.py:61-76 | one replacement per span |
| Templates.ReplacementsAt | libapi/templates.py:62-76 | the k-th replacement is the replacement of the k-th span |
| Templates.MatchesPlaced | libapi/templates.py:49-52 | the match spans are in order, non-empty and within the text |
| Templates.ExpansionWithoutExpressions | libapi/templates.py:57-78 | a template without expressions expands to itself |
| Templates.ReplacementsAgree | libapi/templates.py:62-76 | spans whose names are bound alike in two maps get the same replacements |
| Templates.ExpansionReadsOnlyItsNames | libapi/templates.py:62-76 | the expansion depends only on the values of names occurring in the template |
| Templates.PlacedAtFirst | libapi/templates.py:58-76 | placed spans are still placed from the start of the first of them |
| Templates.PlacedTail | libapi/templates.py:58-76 | the spans after the first of a placed sequence lie after its end |
| Templates.ExpandFromGap | libapi/templates.py:58-76 | before the first span, the expansion is the literal gap up to it followed by the expansion from there |
| Templates.GapShift | libapi/templates.py:58-76 | the literal gap before the first span can be peeled off the expansion |
| Templates.PlacedSuffix | libapi/templates.py:58-76 | the spans after a span lie after its end |
| Templates.SliceWorkingCopy | libapi/templates.py:63-76 | slicing a working copy whose prefix is still template text |
| Templates.PlacedCons | libapi/templates.py:58-76 | a span that ends before placed spans begin can be put in front of them |
| Templates.ExpandCons | libapi/templates.py:58-76 | the expansion from a span's start is its replacement followed by the expansion from its end |
| Templates.SpliceStep | libapi/templates.py:63-76 | splicing a span that ends before every already replaced span extends the expanded suffix by that span |
| Templates.SpliceOne | libapi/templates.py:62-76 | one pass of the loop body replaces the span by its replacement, deleting it for an absent name |
| Templates.SpliceBounds | libapi/templates.py:63-76 | the next span to splice lies within the working copy, before the part already expanded |
| Templates.SpliceInvariantStep | libapi/templates.py:61-76 | the loop invariant survives replacing the next span from the end |
| Templates.SpliceStart | libapi/templates.py:58 | before the first pass the loop invariant holds of the template text |
| Templates.SpliceDone | libapi/templates.py:61-78 | after the last pass the working copy is the whole left-to-right expansion |
| Templates.SpliceNext | libapi/templates.py:61-76 | one pass of the loop, from the end, keeps the loop invariant |
| Templates.SpliceLastFirst | libapi/templates.py:58-76 | splicing the spans last first, each at its recorded offsets, gives the left-to-right expansion |
| Templates.URITemplate.constructor | libapi/templates.py:44-55 | the text is kept; its matches are bucketed by name in scan order, keyed by exactly the names found |
| Templates.URITemplate.EntriesLastFirst | libapi/templates.py:60-61 | the entries of all buckets sorted by descending start are the matches from last to first |
| Templates.URITemplate.Expand | libapi/templates.py:57-78 | the result is the left-to-right expansion of the template; nothing of the template changes |
| TemplateExamples.SingleExpressionAt | libapi/templates.py:17 | a template that is one expression is an occurrence of the pattern from its first character to its last |
| TemplateExamples.SingleMatch | libapi/templates.py:49-53 | a template that is one expression has that expression as its only match (see also libapi/templates.py:17) |
| TemplateExamples.WholeExpansion | libapi/templates.py:57-78 | a template whose one match spans all of it expands to that match's replacement |
| TemplateExamples.SingleExpression | libapi/templates.py:57-78 | a template that is one expression expands to that expression's replacement |
| TemplateExamples.ZeroLengthNames | libapi/templates.py:16-17 | "{}", "{+}" and "{#}" each parse to one expression with the empty name |
| TemplateExamples.BraceInName | libapi/templates.py:17 | in "{a{b}" the name is "a{b" |
| TemplateExamples.Simple | libapi/templates.py:62-74 | "{a}" expands to the value of a, and to "" when a is absent |
| TemplateExamples.Slash | libapi/templates.py:14-25 | '/' stays '/' in reserved mode and becomes %2F in plain mode |
| TemplateExamples.SlashSpace | libapi/templates.py:14-25 | reserved encoding of "/ " is "/%20" |
| TemplateExamples.Reserved | libapi/templates.py:69-74 | "{+a}" with a = "/ " expands to "/%20", and "{a}" with a = "/" to "%2F" |
| TemplateExamples.Fragment | libapi/templates.py:67-72 | "{#a}" expands to "#x" for a = "x" and to "#" for a = None |
| TemplateExamples.EmptyName | libapi/templates.py:73-74 | "{}" expands to the value of the empty name (see also libapi/templates.py:16) |
| TemplateExamples.ScanRepeatedTail | libapi/templates.py:49 | scanning "{a}/{a}" from the '/' finds the second expression only |
| TemplateExamples.MatchesRepeated | libapi/templates.py:49-53 | "{a}/{a}" has two matches of the same name with the '/' between them literal |
| TemplateExamples.PlacedTwo | libapi/templates.py:58-76 | two spans are placed exactly when the first ends before the second starts, both within the text |
| TemplateExamples.TwoMatchesUnfold | libapi/templates.py:57-78 | the expansion of a template with two matches is the expansion over those two spans |
| TemplateExamples.ReplacementsTwo | libapi/templates.py:62-74 | the replacements of two spans are each span's replacement, in order |
| TemplateExamples.ExpandLast | libapi/templates.py:58-76 | a last span that ends the text leaves the gap before it and its replacement |
| TemplateExamples.ExpandTwoWhole | libapi/templates.py:58-76 | two spans that cover the text from first to last character leave their replacements and the text between them |
| TemplateExamples.TwoMatchesExpansion | libapi/templates.py:57-78 | a template whose two matches begin and end it expands to the two replacements with the literal text between them |
| TemplateExamples.Repeated | libapi/templates.py:57-78 | every occurrence of a name is replaced and the text between them is kept: "{a}/{a}" with a = "x" gives "x/x" |

## Left out

- Values of other types: `str(value)` of arbitrary Python objects (libapi/templates.py:67) is not modelled; a value is `None` or the text `str()` would give.
- `errors='replace'` (libapi/templates.py:25): a Dafny `char` is a Unicode scalar value, so a lone surrogate, the only text UTF-8 cannot encode, cannot occur.
- The order of the keys of `variables`: the dictionary is a `map`, which has no insertion order. `expand` sorts by start, so the order does not show in its result (`Templates.SortedIsReverse`).
- The sort algorithm: `Templates.SortByStartDescending` picks the latest remaining entry repeatedly; only the result of Python's `sorted` is modelled. Ties cannot occur, since distinct matches have distinct starts.
- Python's clamping of out-of-range slice indices: every index the model slices with is proved to be in range.
- `URITemplate` subclasses `str`; the model keeps the text in the field `text` and models no other string method.
- The regular-expression engine and `urllib.parse.quote` themselves: the model gives their observable behaviour for this one pattern and for these safe sets.
- Reserved expansion that keeps `%` only inside pct-encoded triplets, as RFC 6570 asks (the TODO at libapi/templates.py:13): the code does not do this, so neither does the model.
- The "encode-special" rows (test/encoding.py:17-21, 37-41) are not stated as concrete lemmas; `PercentEncoding.ReservedTable`, `PercentEncoding.ReservedModes` and `PercentEncoding.QuoteByte` state which of those characters each mode keeps.
- The whole-sentence rows "hello world", "1% rule" and "hello%20world" (test/encoding.py:14-16, 34-36) are not stated as concrete lemmas: `EncodingExamples.Unchanged`, `Space`, `PercentByMode` and `TripletByMode` state their pieces, and `PercentEncoding.PctEncodeAppend` joins pieces.
- test/contrib/ryaml-test-suite.py is not part of this model: it walks directories, reads files and calls other YAML libraries.
