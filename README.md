# Encoding.h in Dafny

A model of the character-encoding core of `Encoding.h`. It has four codecs, a byte-order-mark sniffer and the transcoding routines built on them:

- **Codecs.** Each of `ASCII`, `Utf8`, `Utf16` and `Utf32` has `Validate`, `Decode` and `Encode`. They work on code units of 8, 16 or 32 bits and on code points of 32 bits.
- **Byte-order marks.** `DetectBom` classifies four bytes.
- **Transcoding.** The routines of `Convert` work on any pair of codecs: `GetCodePointsNum`, `GetCodeUnitsNum`, `TransCode` and `TransCodes`.

How the model is organised:

- **Units.** Code units are `bv8`, `bv16` and `bv32`, and code points are `bv32`. The source's `size_t` counts are `nat`.
- **Failures.** The source throws `std::out_of_range` when `at()` reads past a view, and `std::invalid_argument` otherwise. The model returns these as `Result` errors in four kinds:
  - `Truncated`: a read past the end of the source;
  - `Malformed`: an ill-formed sequence;
  - `OutOfRange`: a code point the encoder refuses;
  - `DestTooSmall`: a write past the end of the destination.
- **Decoders** are functions. `Decode` returns the code point together with the number of units it read.
- **Encoders.** Each encoder has two parts:
  - a function `Encoded` that gives the units it writes;
  - a method `Encode` on an `array` that writes them.

  The method's contract (`Unicode.Stored`) states the whole new destination.
- **Transcoding routines.** The routines are methods, as in the source. `GetCodePointsNum` loops over a source and writes nothing. `GetCodeUnitsNum` loops over code points, encoding each into a scratch `array`. `TransCode` converts one code point into a destination `array` without a loop. `TransCodes` loops over a source, writing into a destination `array`. They are proved against specification functions in module `Convert`:
  - `DecodeAll`: decode a whole source;
  - `EncodeAll`: encode a list of code points;
  - `Transcode`: convert round by round.

  A codec is a value (`Convert.Codec`) that holds its `Decode` and its `Encoded`. Module `Codecs` proves, for each of the four codecs, the two facts the routines rely on:
  - `Sound`: a successful decode consumes between one unit and all units, and an encoding takes one to four units;
  - `RoundTrips`: decoding an encoding gives the value back.

The UTF-8 decoder is proved correct against the grammar of section 4 of RFC 3629 and the bit layout of its section 3. The UTF-16 codec is proved against sections 2.1 and 2.2 of RFC 2781.

## Model

| member | source | states |
|---|---|---|
| Ascii.Validate | Encoding.h:22-25 | Fails, as a truncation, exactly on an empty source. Otherwise returns 1 exactly when the first byte is 0..7F, and 0 when it is not. |
| Ascii.Decode | Encoding.h:27-36 | Agrees with Validate: it succeeds exactly when Validate returns 1, is malformed exactly when Validate returns 0, and is truncated exactly when Validate is. On success the code point is the first byte itself, one unit long and at most 7F. |
| Ascii.Encoded | Encoding.h:38-46 | Succeeds exactly for code points 0..7F, writing one byte equal to the code point. Any other code point is OutOfRange. |
| Ascii.DecodeEncoded | Encoding.h:27-46 | Decoding the encoding of any code point 0..7F gives that code point back, one unit long, whatever follows it. |
| Ascii.EncodedDecoded | Encoding.h:27-46 | Encoding what Decode read gives back exactly the byte it consumed. |
| Ascii.Encode | Encoding.h:38-46 | The destination changes as Stored describes: the encoded byte is written at index 0 and nothing else changes. A rejected code point or an empty destination leaves the destination unchanged and reports the failure. |
| Utf8.GetRange | Encoding.h:58-74 | The class of a byte is 0 exactly for the ASCII bytes 00..7F. The class has an arm in the switch exactly for the lead bytes of RFC 3629 (C2..F4), the bytes that announce a sequence of two to four bytes. |
| Utf8.GetRangeIsTable | Encoding.h:58-74 | The byte classes, grouped by intervals of byte values, equal the 16×16 table of GetRange at every one of the 256 bytes. |
| Utf8.MaskIntervals | Encoding.h:84-86 | The continuation-byte mask tests select these intervals: 0x70 selects 80..BF, 0x50 selects 80..9F, 0x20 selects A0..BF, 0x10 selects 80..8F and 0x60 selects 90..BF. |
| Utf8.Trans | Encoding.h:85 | The lambda changes only the flag, which it can clear but never set. With the mask 0x70 the flag survives exactly when it was set and the byte read last is a continuation byte (80..BF). |
| Utf8.Tail | Encoding.h:112-115 | The lambda reads the next byte exactly when the cursor is inside the source; otherwise the read is a truncation. It advances the cursor by one, shifts the byte's low six bits into the accumulator, and keeps the flag exactly when it was set and the byte is a continuation byte. |
| Utf8.Switch | Encoding.h:126-134 | Its only failure is a truncation. On success an arm has read one to three bytes past the lead byte, all inside the source. A flag that survives the arm was set before it. |
| Utf8.LeadBits | Encoding.h:123-124 | For every lead byte with a switch arm, `0xFF >> type` keeps exactly the payload bits of RFC 3629, section 3: five bits of a two-byte lead, four of a three-byte lead and three of a four-byte lead. |
| Utf8.SwitchSpec | Encoding.h:92-102 | For every lead byte whose class has a switch arm, the arm has these properties: (1) it reads exactly the length the lead byte announces, or is a truncation when the source is shorter; (2) the flag survives exactly when the bytes form an RFC 3629 UTF8-char; (3) the accumulator then holds that char's code point. |
| Utf8.Validate | Encoding.h:77-103 | The only failure is Truncated. A result is at most 4 and never exceeds the source's length. |
| Utf8.ValidateIsRfc3629 | Encoding.h:77-103 | For n > 0, Validate returns n exactly when the first n bytes form a UTF8-char of RFC 3629 (both directions). |
| Utf8.ValidateTruncates | Encoding.h:77-138 | Validate fails, and Decode reports Truncated, exactly when the source is empty or shorter than the length its lead byte announces. Bad continuation bytes read before the end do not change this. |
| Utf8.Decode | Encoding.h:105-138 | Agrees with Validate. The code point is the RFC 3629 value of the bytes it consumed, and it is a Unicode scalar value (at most 10FFFF and not a surrogate). |
| Utf8.DecodeValid | Encoding.h:105-138 | Where Validate accepts n bytes, Decode reads n bytes and returns the RFC 3629 code point of exactly those bytes. |
| Utf8.Encoded | Encoding.h:140-164 | Succeeds exactly for code points up to 10FFFF; larger ones are OutOfRange. It writes 1 to 4 bytes. The lead byte announces that length, and every later byte is a continuation byte. |
| Utf8.EncodedLength | Encoding.h:140-164 | The encoding takes 1 byte up to 7F, 2 up to 7FF, 3 up to FFFF and 4 up to 10FFFF. |
| Utf8.CodePointOfEncoded | Encoding.h:140-164 | Reading the written bytes with the bit layout of RFC 3629 gives the code point back. |
| Utf8.EncodedIsUtf8Char | Encoding.h:140-164 | The written bytes form a UTF8-char exactly when the code point is not a surrogate. |
| Utf8.DecodeEncoded | Encoding.h:105-164 | Decoding the encoding of any scalar value gives it back, with the number of bytes written, whatever follows. |
| Utf8.EncodedDecoded | Encoding.h:105-164 | Decode accepts shortest forms only: encoding the code point it read gives back exactly the bytes it consumed. |
| Utf8.SurrogateNotDecoded | Encoding.h:105-164 | Encode accepts a surrogate and writes three bytes, which Decode rejects as Malformed. |
| Utf8.Encode | Encoding.h:140-164 | The destination changes as Stored describes. The range test precedes the room test, and a failure leaves the destination unchanged. |
| Utf16.Validate | Encoding.h:175-187 | The only failure is Truncated. A result is at most 2 and never exceeds the source's length. |
| Utf16.Decode | Encoding.h:189-205 | Agrees with Validate. Every code point it returns is a Unicode scalar value. |
| Utf16.DecodeCases | Encoding.h:189-205 | Decode follows section 2.2 of RFC 2781 case by case: (1) a non-surrogate stands for itself; (2) a high surrogate followed by a low one gives the pair's value, two units long; (3) a lone low surrogate, or a high surrogate followed by anything but a low one, is Malformed; (4) an empty source, or a lone high surrogate at the end, is Truncated. |
| Utf16.PairRange | Encoding.h:196-200 | The value of a surrogate pair lies in 10000..10FFFF. |
| Utf16.Encoded | Encoding.h:207-220 | Succeeds exactly for scalar values. Others are OutOfRange. It writes one unit exactly for values up to FFFF, and two otherwise. |
| Utf16.EncodedUnits | Encoding.h:207-220 | A single unit is the code point itself. Two units are a high surrogate followed by a low one. |
| Utf16.DecodeEncoded | Encoding.h:189-220 | Decoding the encoding of any scalar value gives it back, with the number of units written, whatever follows. |
| Utf16.EncodedDecoded | Encoding.h:189-220 | Encoding what Decode read gives back exactly the units it consumed. |
| Utf16.EncodedPairValue | Encoding.h:197-200 | Encoding the value of any surrogate pair gives back that pair. |
| Utf16.Encode | Encoding.h:207-220 | The destination changes as Stored describes. A failure leaves it unchanged. |
| Utf32.Validate | Encoding.h:231-234 | Fails, as a truncation, exactly on an empty source. Otherwise returns 1 exactly when the first unit is at most 10FFFF. |
| Utf32.Decode | Encoding.h:236-246 | Agrees with Validate. On success the code point is the first unit itself, one unit long. |
| Utf32.Encoded | Encoding.h:248-254 | Succeeds exactly for code points up to 10FFFF, writing the code point itself. Larger ones are OutOfRange. |
| Utf32.DecodeEncoded | Encoding.h:236-254 | Decoding the encoding of any code point up to 10FFFF gives it back, surrogates included. |
| Utf32.EncodedDecoded | Encoding.h:236-254 | Encoding what Decode read gives back the unit it consumed. |
| Utf32.Encode | Encoding.h:248-254 | The destination changes as Stored describes. A failure leaves it unchanged. |
| Bom.DetectBom | Encoding.h:259-266 | With the bytes read unsigned: the result is Utf32 exactly for FF FE 00 00, Utf16 exactly for FF FE followed by anything else, and Utf8 exactly for EF BB BF. ASCII is never the answer, and everything else is Error. |
| Bom.ReadBack | Encoding.h:261 | Each of the four bytes can be read back out of the little-endian word. |
| Bom.DetectBomSignedChar | Encoding.h:259-266 | DetectBom as written where char is signed. Each byte is sign-extended before it is combined into the word, and then every input is classified Error. |
| Bom.Utf16MarkMissed | Encoding.h:259-266 | FF FE 41 00 is Utf16 with unsigned bytes and Error with signed chars. |
| Convert.Step | Encoding.h:336-341 | A successful round is the decoder's code point and length together with the units the encoder gives for that code point, and those units fit the room. A decoding failure ends the round with the decoder's own failure. |
| Convert.StepFails | Encoding.h:318-319 | After a successful decode, the encoder's own failure comes first. When the encoder accepts the code point, the round fails exactly when its units do not fit the room, and the failure is then a destination too small. |
| Convert.Transcode | Encoding.h:323-345 | A successful whole-buffer conversion writes no more units than the room it had. It reads no more code points than the source has units. |
| Convert.DecodeAllCovers | Encoding.h:288-294 | The lengths of the decoded code points add up to the whole source. |
| Convert.TranscodeSplits | Encoding.h:323-345 | Converting round by round succeeds exactly when three steps all succeed: decoding the whole source, encoding all its code points, and fitting the units into the destination. It then reads those code points and writes those units. |
| Convert.DecodeEncodings | Encoding.h:279-309 | With a codec that gives back what it encodes, decoding the concatenated encodings of N scalar values gives back those N values. |
| Convert.TranscodeThenDecode | Encoding.h:323-345 | Converting into a codec that gives back what it encodes loses nothing: decoding the written units gives the code points that were read. |
| Convert.EncodeAt | Encoding.h:304 | Encoding into the destination view that starts at index `at` changes the destination as Stored describes, at that offset. |
| Convert.GetCodePointsNum | Encoding.h:279-296 | Returns the number of code points the whole source decodes to. It fails with the first decoding failure when there is one. |
| Convert.CountUnits | Encoding.h:302-308 | The loop encodes each code point on its own into the scratch view and sums the counts. The result is UnitsNum for the view's length: the sum of the encoding lengths, or the first code point the codec rejects or the view cannot hold. |
| Convert.UnitsNumOfEncodeAll | Encoding.h:298-309 | With a view of at least four units, the count is the length of all the encodings one after the other. It fails exactly when encoding the list fails, and with the same failure. |
| Convert.EmptyViewFails | Encoding.h:301-304 | With an empty view, the count of a non-empty list fails at its first code point. The failure is a destination too small when the codec encodes that code point, and the codec's own failure otherwise. |
| Convert.GetCodeUnitsNum | Encoding.h:298-309 | This is the routine as evidently intended, with a four-unit scratch view. It returns the total number of units the code points encode to, and it fails with the first encoding failure when there is one. |
| Convert.GetCodeUnitsNumAsWritten | Encoding.h:298-309 | This is the routine as written, where the zeroed buffer becomes an empty view. It returns 0 for no code points. Otherwise it fails at the first code point: with a destination too small when the codec encodes it, and with the codec's failure when it does not. |
| Convert.TransCode | Encoding.h:311-321 | One round converts the code point at the front of the source view into the front of the destination view. It reports one code point, the units it read and the units it wrote. On success it writes exactly those units; otherwise it leaves the destination unchanged. |
| Convert.TransCodes | Encoding.h:323-345 | On a source that converts, the result is the one Transcode gives: the number of code points, the source length and the number of units written. The destination then starts with exactly those units and is unchanged after them. When Transcode fails, the routine reports the same failure. |
| Codecs.AsciiCodecSound | Encoding.h:22-46 | The ASCII codec is Sound and RoundTrips. |
| Codecs.Utf8CodecSound | Encoding.h:77-164 | The UTF-8 codec is Sound and RoundTrips. |
| Codecs.Utf16CodecSound | Encoding.h:175-220 | The UTF-16 codec is Sound and RoundTrips. |
| Codecs.Utf32CodecSound | Encoding.h:231-254 | The UTF-32 codec is Sound and RoundTrips. |
| Codecs.AsciiUnitsNum | Encoding.h:301-304 | For ASCII and the code point 41, the count with a four-unit view is 1. With the empty view the routine builds as written, it is a destination too small. |

## Left out

- Exceptions are not modelled as control flow. Each `throw`, and each `at()` outside a view, becomes a `Result` error. The model keeps apart the situations that one C++ exception type covers: `Truncated` and `DestTooSmall` are both `std::out_of_range`.
- The source has paths with undefined behaviour, where a non-void function ends without a `return`. The model gives them defined results:
  - Utf8 Validate and Decode, when a switch arm reads all its bytes but ends with `checkFlag` false. `if (checkFlag) return result; break;` (lines 94-100 and 128-134) then leaves the switch and falls off the end of the function (lines 103 and 138). The model's Validate returns 0 on that path, and its Decode reports Malformed. A lead byte with no arm is not undefined behaviour: the `default` cases return 0 (line 101) and throw `std::invalid_argument` (line 135), as the model does.
  - Utf16 Validate and Decode, when a high surrogate is followed by a unit that is not a low surrogate: Validate returns 0 and Decode reports Malformed.
  - Utf16 Encode of a surrogate: the result is OutOfRange, with nothing written.
- Utf8.Encode, Utf16.Encode and Convert.EncodeAt check the room before writing. The source writes unit by unit through `dest.at(i)`, so on a destination that is too short it may leave the first units written before it throws. The model leaves the destination unchanged. In the same way, `Decode` may store part of a code point in `*pCodePoint` before it throws; the model does not represent that.
- The counts are unbounded (`nat`). The wrap-around of `size_t` and the `uint32_t` return type of TransCode cannot be reached for sources that fit in memory.
- GetCodeUnitsNum: the `memset` that clears the scratch buffer after each round is not modelled. In the source it keeps the buffer all zero, so each round's view is empty again; Convert.GetCodeUnitsNumAsWritten models that empty view (see Findings).
- Convert.TransCodes: the contract says nothing about the destination after a failure. The source leaves earlier rounds' units in place there, as the model does, but the contract does not state it.
- Convert.TransCodes: each round calls TransCode. The source spells the same decode-then-encode round out inline in the loop.
- Convert.TranscodeSplits: it relates the outcome and the successful result only. When both fail, the failure reported can differ between the two readings, because the round-by-round conversion stops at the first failure in source order.
- The `std::basic_string_view` and `const_cast` plumbing of the template arguments is replaced by a sequence and an offset.
- DetectBom's checks as written:
  - FF FE 00 00 is UTF-32 (little-endian) and not UTF-16.
  - Big-endian marks (00 00 FE FF, FE FF) are not recognised.
  - ASCII is never returned.
- UTF-8 classes 4 and 10: class 4 is the lead byte ED, whose mask 0x50 rejects surrogates. Class 10 is the lead byte E0, whose mask 0x20 rejects overlong forms. The model follows the table in `Encoding.h` (lines 58-74).

## Findings

| source | as written | input that shows it | evidently intended | confidence | as-written member | corrected member |
|---|---|---|---|---|---|---|
| Encoding.h:261 | `bytes[i]` is a plain `char`. Where char is signed, each byte of 80..FF is sign-extended to `int` before it is shifted and or-ed, so the upper bits of the word fill with ones and no mark can match. | FF FE 41 00 (a UTF-16 little-endian mark before "A") | Utf16, by reading the bytes as unsigned | not executed; holds where char is signed | Bom.Utf16MarkMissed | Bom.DetectBom |
| Encoding.h:301-304 | The zeroed `buffer[4]` is passed where each `Encode` expects a `basic_string_view`. The conversion goes through the constructor that takes a pointer, which measures the view up to the first zero unit, so the view is empty. The first `dest.at(0)` then throws `std::out_of_range` for any code point the codec accepts. | ASCII with the code points [41]: a destination too small instead of 1 | the sum of the encoding lengths, with the buffer used as a four-unit view | not executed | Convert.GetCodeUnitsNumAsWritten | Convert.GetCodeUnitsNum |
