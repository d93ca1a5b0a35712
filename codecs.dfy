/** The four codecs of Encoding.h as the Convert routines take them (the
    SourceCoding and DestCoding template arguments), each with what the
    routines rely on: Sound for every one, and RoundTrips, which makes
    transcoding into that codec lossless. */
module Codecs {
  import opened Unicode
  import Ascii
  import Utf8
  import Utf16
  import Utf32
  import Convert

  const AsciiCodec: Convert.Codec<bv8> := Convert.Codec(Ascii.Decode, Ascii.Encoded)
  const Utf8Codec: Convert.Codec<bv8> := Convert.Codec(Utf8.Decode, Utf8.Encoded)
  const Utf16Codec: Convert.Codec<bv16> := Convert.Codec(Utf16.Decode, Utf16.Encoded)
  const Utf32Codec: Convert.Codec<bv32> := Convert.Codec(Utf32.Decode, Utf32.Encoded)

  /** ASCII: one byte read and one byte written per code point, and every
      code point it writes reads back. */
  lemma AsciiCodecSound()
    ensures Convert.Sound(AsciiCodec) && Convert.RoundTrips(AsciiCodec)
  {
    forall s: seq<bv8> | Ascii.Decode(s).Ok?
      ensures 1 <= Ascii.Decode(s).value.length <= |s|
    {
    }
    forall cp: bv32, rest: seq<bv8> | IsScalar(cp) && Ascii.Encoded(cp).Ok?
      ensures Ascii.Decode(Ascii.Encoded(cp).value + rest) == Ok(Decoded(cp, |Ascii.Encoded(cp).value|))
    {
      Ascii.DecodeEncoded(cp, rest);
    }
  }

  /** UTF-8: one to four bytes read and written per code point, and every
      scalar value it writes reads back. */
  lemma Utf8CodecSound()
    ensures Convert.Sound(Utf8Codec) && Convert.RoundTrips(Utf8Codec)
  {
    forall s: seq<bv8> | Utf8.Decode(s).Ok?
      ensures 1 <= Utf8.Decode(s).value.length <= |s|
    {
    }
    forall cp: bv32, rest: seq<bv8> | IsScalar(cp) && Utf8.Encoded(cp).Ok?
      ensures Utf8.Decode(Utf8.Encoded(cp).value + rest) == Ok(Decoded(cp, |Utf8.Encoded(cp).value|))
    {
      Utf8.DecodeEncoded(cp, rest);
    }
  }

  /** UTF-16: one or two units read and written per code point, and every
      scalar value it writes reads back. */
  lemma Utf16CodecSound()
    ensures Convert.Sound(Utf16Codec) && Convert.RoundTrips(Utf16Codec)
  {
    forall s: seq<bv16> | Utf16.Decode(s).Ok?
      ensures 1 <= Utf16.Decode(s).value.length <= |s|
    {
    }
    forall cp: bv32, rest: seq<bv16> | IsScalar(cp) && Utf16.Encoded(cp).Ok?
      ensures Utf16.Decode(Utf16.Encoded(cp).value + rest) == Ok(Decoded(cp, |Utf16.Encoded(cp).value|))
    {
      Utf16.DecodeEncoded(cp, rest);
    }
  }

  /** UTF-32: one unit read and written per code point, and every code point
      it writes reads back. */
  lemma Utf32CodecSound()
    ensures Convert.Sound(Utf32Codec) && Convert.RoundTrips(Utf32Codec)
  {
    forall s: seq<bv32> | Utf32.Decode(s).Ok?
      ensures 1 <= Utf32.Decode(s).value.length <= |s|
    {
    }
    forall cp: bv32, rest: seq<bv32> | IsScalar(cp) && Utf32.Encoded(cp).Ok?
      ensures Utf32.Decode(Utf32.Encoded(cp).value + rest) == Ok(Decoded(cp, |Utf32.Encoded(cp).value|))
    {
      Utf32.DecodeEncoded(cp, rest);
    }
  }

  /** Counting the units of the code point 41 in ASCII: one unit with a
      four-unit scratch view, a destination too small with the empty view the
      routine builds as written. */
  lemma AsciiUnitsNum()
    ensures Convert.UnitsNum(AsciiCodec, [0x41], 4) == Ok(1)
    ensures Convert.UnitsNum(AsciiCodec, [0x41], 0) == Err(DestTooSmall)
  {
    assert Ascii.Encoded(0x41) == Ok([0x41]);
  }
}
