/** The UTF-32 codec of Encoding.h (struct Utf32): one unit per code point,
    0..10FFFF. Surrogate values pass in both directions. */
module Utf32 {
  import opened Unicode

  /** Utf32::Validate: 1 when the first unit is at most 10FFFF, 0 otherwise. */
  function Validate(source: seq<bv32>): (r: Result<nat>)
    ensures r.Err? <==> |source| == 0
    ensures r.Err? ==> r.error == Truncated
    ensures r.Ok? ==> (r.value == 1 <==> source[0] <= MaxCodePoint) && r.value <= 1
  {
    if |source| == 0 then Err(Truncated)
    else if source[0] <= MaxCodePoint then Ok(1)
    else Ok(0)
  }

  /** Utf32::Decode: the first unit itself, when it is at most 10FFFF. */
  function Decode(source: seq<bv32>): (r: Result<Decoded>)
    ensures Agree(Validate(source), r)
    ensures r.Ok? ==> r.value == Decoded(source[0], 1) && r.value.codePoint <= MaxCodePoint
  {
    if |source| == 0 then
      Err(Truncated)
    else
      var c := source[0];
      if c <= MaxCodePoint then Ok(Decoded(c, 1)) else Err(Malformed)
  }

  /** The unit Utf32::Encode writes: the code point itself, up to 10FFFF. */
  function Encoded(cp: bv32): (r: Result<seq<bv32>>)
    ensures r.Ok? <==> cp <= MaxCodePoint
    ensures r.Err? ==> r.error == OutOfRange
    ensures r.Ok? ==> r.value == [cp]
  {
    if cp <= MaxCodePoint then Ok([cp]) else Err(OutOfRange)
  }

  /** Decoding what Encode writes gives back the code point, whatever follows;
      unlike the other codecs this holds for surrogates as well. */
  lemma DecodeEncoded(cp: bv32, rest: seq<bv32>)
    requires cp <= MaxCodePoint
    ensures Decode(Encoded(cp).value + rest) == Ok(Decoded(cp, 1))
  {
    var s := Encoded(cp).value + rest;
    assert s[0] == cp;
  }

  /** Encoding what Decode read gives back the unit it consumed. */
  lemma EncodedDecoded(source: seq<bv32>)
    requires Decode(source).Ok?
    ensures Encoded(Decode(source).value.codePoint) == Ok(source[..1])
  {
    assert source[..1] == [source[0]];
  }

  /** Utf32::Encode: writes the unit at the front of `dest`. */
  method Encode(cp: bv32, dest: array<bv32>) returns (r: Result<nat>)
    modifies dest
    ensures Stored(Encoded(cp), r, old(dest[..]), dest[..], 0)
  {
    if cp <= MaxCodePoint {
      if dest.Length < 1 {
        return Err(DestTooSmall);
      }
      dest[0] := cp;
      r := Ok(1);
    } else {
      r := Err(OutOfRange);
    }
  }
}
