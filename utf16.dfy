/** The UTF-16 codec of Encoding.h (struct Utf16), following sections 2.1
    (encoding) and 2.2 (decoding) of RFC 2781. */
module Utf16 {
  import opened Unicode

  predicate IsHigh(u: bv16) {
    0xD800 <= u <= 0xDBFF
  }

  predicate IsLow(u: bv16) {
    0xDC00 <= u <= 0xDFFF
  }

  /** The code point of a surrogate pair (section 2.2 of RFC 2781): ten bits
      from each unit, plus 0x10000. */
  function PairValue(hi: bv16, lo: bv16): bv32 {
    ((((hi as bv32) & 0x3FF) << 10) | ((lo as bv32) & 0x3FF)) + 0x10000
  }

  /** Utf16::Validate: 1 for a unit outside D800..DFFF, 2 for a high surrogate
      followed by a low one, 0 otherwise. A high surrogate followed by
      anything else falls off the end of the source function; here it gives 0
      like every other ill-formed start. */
  function Validate(source: seq<bv16>): (r: Result<nat>)
    ensures r.Err? ==> r.error == Truncated
    ensures r.Ok? ==> r.value <= 2 && r.value <= |source|
  {
    if |source| == 0 then
      Err(Truncated)
    else
      var c := source[0];
      if c < 0xD800 || c > 0xDFFF then
        Ok(1)
      else if c <= 0xDBFF then
        if |source| < 2 then Err(Truncated)
        else if IsLow(source[1]) then Ok(2)
        else Ok(0)
      else
        Ok(0)
  }

  /** Utf16::Decode. The value of a pair is accumulated before the second unit
      is checked, as the source does; it is returned only when the second unit
      is a low surrogate. */
  function Decode(source: seq<bv16>): (r: Result<Decoded>)
    ensures Agree(Validate(source), r)
    ensures r.Ok? ==> IsScalar(r.value.codePoint)
  {
    if |source| == 0 then
      Err(Truncated)
    else
      var c := source[0];
      if c < 0xD800 || c > 0xDFFF then
        Ok(Decoded(c as bv32, 1))
      else if c <= 0xDBFF then
        var hi := ((c as bv32) & 0x3FF) << 10;
        if |source| < 2 then
          Err(Truncated)
        else
          var lo := source[1];
          var cp := (hi | ((lo as bv32) & 0x3FF)) + 0x10000;
          PairRange(c, lo);
          if IsLow(lo) then Ok(Decoded(cp, 2)) else Err(Malformed)
      else
        Err(Malformed)
  }

  /** A pair's value lies in 0x10000..0x10FFFF. */
  lemma PairRange(hi: bv16, lo: bv16)
    ensures 0x10000 <= PairValue(hi, lo) <= MaxCodePoint
  {
  }

  /** What Decode reads, per section 2.2 of RFC 2781: a unit outside
      D800..DFFF stands for itself, a high surrogate followed by a low one for
      the pair's value; a low surrogate first, or a high surrogate followed by
      anything else, is malformed, and a source that ends after a high
      surrogate, or is empty, is truncated. */
  lemma DecodeCases(source: seq<bv16>)
    ensures |source| == 0 ==> Decode(source) == Err(Truncated)
    ensures |source| > 0 && !IsSurrogate(source[0] as bv32) ==> Decode(source) == Ok(Decoded(source[0] as bv32, 1))
    ensures |source| > 0 && IsLow(source[0]) ==> Decode(source) == Err(Malformed)
    ensures |source| == 1 && IsHigh(source[0]) ==> Decode(source) == Err(Truncated)
    ensures |source| > 1 && IsHigh(source[0]) && IsLow(source[1]) ==>
      Decode(source) == Ok(Decoded(PairValue(source[0], source[1]), 2))
    ensures |source| > 1 && IsHigh(source[0]) && !IsLow(source[1]) ==> Decode(source) == Err(Malformed)
  {
    if |source| > 0 && !IsSurrogate(source[0] as bv32) {
      DecodeSingle(source);
    }
    if |source| > 1 && IsHigh(source[0]) && IsLow(source[1]) {
      DecodePair(source);
    }
  }

  lemma DecodeSingle(source: seq<bv16>)
    requires |source| > 0 && !IsSurrogate(source[0] as bv32)
    ensures Decode(source) == Ok(Decoded(source[0] as bv32, 1))
  {
  }

  lemma DecodePair(source: seq<bv16>)
    requires |source| > 1 && IsHigh(source[0]) && IsLow(source[1])
    ensures Decode(source) == Ok(Decoded(PairValue(source[0], source[1]), 2))
  {
  }

  /** static_cast<char16_t>: the low sixteen bits. */
  function Unit(x: bv32): bv16 {
    (x & 0xFFFF) as bv16
  }

  /** The surrogates carrying the high and the low ten bits of `v`. */
  function HighOf(v: bv32): bv16 {
    Unit((v >> 10) | 0xD800)
  }

  function LowOf(v: bv32): bv16 {
    Unit((v & 0x3FF) | 0xDC00)
  }

  /** The units Utf16::Encode writes (section 2.1 of RFC 2781): a scalar value
      up to FFFF as itself, a larger one up to 10FFFF as a high and a low
      surrogate carrying ten bits each of cp - 0x10000. Values above 10FFFF
      are rejected; so are surrogates, for which the source function falls
      off its end without writing. */
  function Encoded(cp: bv32): (r: Result<seq<bv16>>)
    ensures r.Ok? <==> IsScalar(cp)
    ensures r.Err? ==> r.error == OutOfRange
    ensures r.Ok? ==> (|r.value| == 1 <==> cp <= 0xFFFF) && 1 <= |r.value| <= 2
  {
    if cp <= 0xFFFF then
      if cp < 0xD800 || cp > 0xDFFF then Ok([Unit(cp)]) else Err(OutOfRange)
    else if cp <= MaxCodePoint then
      var v := cp - 0x10000;
      Ok([HighOf(v), LowOf(v)])
    else
      Err(OutOfRange)
  }

  /** What Encoded writes: a value up to FFFF unchanged, a larger one as a
      high surrogate followed by a low one. */
  lemma EncodedUnits(cp: bv32)
    requires IsScalar(cp)
    ensures var e := Encoded(cp).value;
      && (|e| == 1 ==> e[0] as bv32 == cp)
      && (|e| == 2 ==> IsHigh(e[0]) && IsLow(e[1]))
  {
    if cp > 0xFFFF {
      PairUnitsOf(cp - 0x10000);
    }
  }

  lemma PairUnitsOf(v: bv32)
    requires v <= 0xFFFFF
    ensures IsHigh(HighOf(v)) && IsLow(LowOf(v))
    ensures HighOf(v) as bv32 == (v >> 10) | 0xD800 && LowOf(v) as bv32 == (v & 0x3FF) | 0xDC00
  {
  }

  /** A pair decodes to the value it was encoded from... */
  lemma PairBits(cp: bv32)
    requires 0xFFFF < cp <= MaxCodePoint
    ensures PairValue(HighOf(cp - 0x10000), LowOf(cp - 0x10000)) == cp
  {
    PairUnitsOf(cp - 0x10000);
    PairBitsWide(cp);
  }

  lemma PairBitsWide(cp: bv32)
    requires 0xFFFF < cp <= MaxCodePoint
    ensures var v := cp - 0x10000;
      ((((((v >> 10) | 0xD800) & 0x3FF) << 10) | (((v & 0x3FF) | 0xDC00) & 0x3FF)) + 0x10000) == cp
  {
  }

  /** ...and a pair is the encoding of its value. */
  lemma PairUnits(hi: bv16, lo: bv16)
    requires IsHigh(hi) && IsLow(lo)
    ensures HighOf(PairValue(hi, lo) - 0x10000) == hi && LowOf(PairValue(hi, lo) - 0x10000) == lo
  {
    var v := PairValue(hi, lo) - 0x10000;
    PairUnitsWide(hi as bv32, lo as bv32);
    PairUnitsOf(v);
  }

  lemma PairUnitsWide(hi: bv32, lo: bv32)
    requires 0xD800 <= hi <= 0xDBFF && 0xDC00 <= lo <= 0xDFFF
    ensures var v := ((((hi & 0x3FF) << 10) | (lo & 0x3FF)) + 0x10000) - 0x10000;
      v <= 0xFFFFF && (v >> 10) | 0xD800 == hi && (v & 0x3FF) | 0xDC00 == lo
  {
  }

  /** Decoding what Encode writes for a scalar value gives back the value and
      the number of units written, whatever follows in the source. */
  lemma DecodeEncoded(cp: bv32, rest: seq<bv16>)
    requires IsScalar(cp)
    ensures Decode(Encoded(cp).value + rest) == Ok(Decoded(cp, |Encoded(cp).value|))
  {
    var e := Encoded(cp).value;
    var s := e + rest;
    if cp <= 0xFFFF {
      assert e == [Unit(cp)];
      assert s[0] == Unit(cp);
      UnitWidens(cp);
      DecodeSingle(s);
    } else {
      var v := cp - 0x10000;
      assert e == [HighOf(v), LowOf(v)];
      assert s[0] == HighOf(v) && s[1] == LowOf(v);
      PairUnitsOf(v);
      DecodePair(s);
      PairBits(cp);
    }
  }

  lemma UnitWidens(cp: bv32)
    requires cp <= 0xFFFF
    ensures Unit(cp) as bv32 == cp
  {
  }

  /** Encoding what Decode read gives back the units it consumed. */
  lemma EncodedDecoded(source: seq<bv16>)
    requires Decode(source).Ok?
    ensures Encoded(Decode(source).value.codePoint) == Ok(source[..Decode(source).value.length])
  {
    DecodeOkCases(source);
    if !IsSurrogate(source[0] as bv32) {
      EncodedDecodedSingle(source);
    } else {
      EncodedDecodedPair(source);
    }
  }

  lemma EncodedDecodedSingle(source: seq<bv16>)
    requires |source| > 0 && !IsSurrogate(source[0] as bv32)
    ensures Decode(source).Ok?
    ensures Encoded(Decode(source).value.codePoint) == Ok(source[..Decode(source).value.length])
  {
    DecodeSingle(source);
    EncodedSingle(source[0]);
    assert source[..1] == [source[0]];
  }

  lemma EncodedDecodedPair(source: seq<bv16>)
    requires |source| > 1 && IsHigh(source[0]) && IsLow(source[1])
    ensures Decode(source).Ok?
    ensures Encoded(Decode(source).value.codePoint) == Ok(source[..Decode(source).value.length])
  {
    var hi, lo := source[0], source[1];
    DecodePair(source);
    EncodedPairValue(hi, lo);
    assert source[..2] == [hi, lo];
  }

  /** The pair a surrogate pair's value encodes to is that pair again. */
  lemma EncodedPairValue(hi: bv16, lo: bv16)
    requires IsHigh(hi) && IsLow(lo)
    ensures Encoded(PairValue(hi, lo)) == Ok([hi, lo])
  {
    var cp := PairValue(hi, lo);
    PairRange(hi, lo);
    PairUnits(hi, lo);
    EncodedPair(cp);
    SameTwo(HighOf(cp - 0x10000), LowOf(cp - 0x10000), hi, lo);
  }

  /** Decode succeeds only on a non-surrogate unit or a well-formed pair. */
  lemma DecodeOkCases(source: seq<bv16>)
    requires Decode(source).Ok?
    ensures !IsSurrogate(source[0] as bv32) || (|source| > 1 && IsHigh(source[0]) && IsLow(source[1]))
  {
  }

  lemma SameTwo(a0: bv16, a1: bv16, b0: bv16, b1: bv16)
    requires a0 == b0 && a1 == b1
    ensures [a0, a1] == [b0, b1]
  {
  }

  lemma EncodedSingle(u: bv16)
    requires !IsSurrogate(u as bv32)
    ensures Encoded(u as bv32) == Ok([u])
  {
  }

  lemma EncodedPair(cp: bv32)
    requires 0xFFFF < cp <= MaxCodePoint
    ensures Encoded(cp) == Ok([HighOf(cp - 0x10000), LowOf(cp - 0x10000)])
  {
  }

  /** Utf16::Encode: writes the units at the front of `dest`. */
  method Encode(cp: bv32, dest: array<bv16>) returns (r: Result<nat>)
    modifies dest
    ensures Stored(Encoded(cp), r, old(dest[..]), dest[..], 0)
  {
    if cp <= 0xFFFF {
      if cp < 0xD800 || cp > 0xDFFF {
        if dest.Length < 1 {
          return Err(DestTooSmall);
        }
        dest[0] := Unit(cp);
        r := Ok(1);
      } else {
        r := Err(OutOfRange);
      }
    } else if cp <= MaxCodePoint {
      var v := cp - 0x10000;
      if dest.Length < 2 {
        return Err(DestTooSmall);
      }
      dest[0] := HighOf(v);
      dest[1] := LowOf(v);
      r := Ok(2);
    } else {
      r := Err(OutOfRange);
    }
  }
}
