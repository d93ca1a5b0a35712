/** The ASCII codec of Encoding.h (struct ASCII): one byte per code point,
    0..7F only. */
module Ascii {
  import opened Unicode

  /** ASCII::Validate: 1 when the first byte is 0..7F, 0 otherwise. Widening
      the byte, whether the platform's char is signed or not, maps 80..FF above
      7F, so both readings give the same answer. */
  function Validate(source: seq<bv8>): (r: Result<nat>)
    ensures r.Err? <==> |source| == 0
    ensures r.Err? ==> r.error == Truncated
    ensures r.Ok? ==> (r.value == 1 <==> source[0] <= 0x7F) && r.value <= 1
  {
    if |source| == 0 then Err(Truncated)
    else if source[0] <= 0x7F then Ok(1)
    else Ok(0)
  }

  /** ASCII::Decode: the first byte itself, when it is 0..7F. */
  function Decode(source: seq<bv8>): (r: Result<Decoded>)
    ensures Agree(Validate(source), r)
    ensures r.Ok? ==> r.value == Decoded(source[0] as bv32, 1) && r.value.codePoint <= 0x7F
  {
    if |source| == 0 then
      Err(Truncated)
    else
      var cp := source[0] as bv32;
      if cp <= 0x7F then Ok(Decoded(cp, 1)) else Err(Malformed)
  }

  /** The byte ASCII::Encode writes: the code point's low eight bits, for code
      points 0..7F. */
  function Encoded(cp: bv32): (r: Result<seq<bv8>>)
    ensures r.Ok? <==> cp <= 0x7F
    ensures r.Err? ==> r.error == OutOfRange
    ensures r.Ok? ==> |r.value| == 1 && r.value[0] as bv32 == cp
  {
    if cp <= 0x7F then Ok([Byte(cp)]) else Err(OutOfRange)
  }

  /** Decoding what Encode writes gives back the code point, whatever follows. */
  lemma DecodeEncoded(cp: bv32, rest: seq<bv8>)
    requires cp <= 0x7F
    ensures Decode(Encoded(cp).value + rest) == Ok(Decoded(cp, 1))
  {
    var s := Encoded(cp).value + rest;
    assert s[0] == Encoded(cp).value[0];
  }

  /** Encoding what Decode read gives back the byte it consumed. */
  lemma EncodedDecoded(source: seq<bv8>)
    requires Decode(source).Ok?
    ensures Encoded(Decode(source).value.codePoint) == Ok(source[..1])
  {
    assert source[..1] == [source[0]];
  }

  /** ASCII::Encode: writes the byte at the front of `dest`. */
  method Encode(cp: bv32, dest: array<bv8>) returns (r: Result<nat>)
    modifies dest
    ensures Stored(Encoded(cp), r, old(dest[..]), dest[..], 0)
  {
    if cp <= 0x7F {
      if dest.Length < 1 {
        return Err(DestTooSmall);
      }
      dest[0] := Byte(cp);
      r := Ok(1);
    } else {
      r := Err(OutOfRange);
    }
  }
}
