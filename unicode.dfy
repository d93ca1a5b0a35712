/** Vocabulary shared by the codecs of Encoding.h: code points, the failures the
    source signals with exceptions, and the shapes of a decoder's and an
    encoder's result. */
module Unicode {

  /** The failures of the codecs. The source throws std::out_of_range from
      `at()` and std::invalid_argument otherwise; the model keeps the four
      situations apart. */
  datatype Error =
    | Truncated     // source.at(i) past the end of the source
    | Malformed     // Decode: the units do not form a well-formed sequence
    | OutOfRange    // Encode: the code point cannot be encoded
    | DestTooSmall  // dest.at(i) past the end of the destination

  datatype Result<+T> = Ok(value: T) | Err(error: Error) {
    predicate IsFailure() { Err? }
    function PropagateFailure<U>(): Result<U>
      requires Err?
    {
      Err(error)
    }
    function Extract(): T
      requires Ok?
    {
      value
    }
  }

  /** What a successful Decode produces: the code point (`*pCodePoint`) and the
      number of code units it occupied (the return value). */
  datatype Decoded = Decoded(codePoint: bv32, length: nat)

  const MaxCodePoint: bv32 := 0x10FFFF

  predicate IsSurrogate(cp: bv32) {
    0xD800 <= cp <= 0xDFFF
  }

  /** static_cast<char> of a 32-bit value: its low eight bits. */
  function Byte(x: bv32): bv8 {
    (x & 0xFF) as bv8
  }

  /** A Unicode scalar value: a code point that is not a surrogate. */
  predicate IsScalar(cp: bv32) {
    cp <= MaxCodePoint && !IsSurrogate(cp)
  }

  /** Validate and Decode agree on a source: Decode succeeds consuming n units
      exactly when Validate returns n > 0, fails as Malformed exactly when
      Validate returns 0, and fails as Truncated exactly when Validate does. */
  predicate Agree(v: Result<nat>, d: Result<Decoded>) {
    match d
    case Ok(x) => x.length > 0 && v == Ok(x.length)
    case Err(e) => (e == Truncated && v == Err(Truncated)) || (e == Malformed && v == Ok(0))
  }

  /** How an encoder leaves its destination. `e` is what the codec encodes the
      code point to, `r` what the encoder returned, `before` and `after` the
      destination around the call and `at` the index where the destination
      view begins. A code point the codec rejects, or a view too short for its
      units, leaves the destination as it was. */
  ghost predicate Stored<U>(e: Result<seq<U>>, r: Result<nat>, before: seq<U>, after: seq<U>, at: nat) {
    match e
    case Err(x) => r == Err(x) && after == before
    case Ok(units) =>
      if at + |units| <= |before| then
        r == Ok(|units|) && after == before[..at] + units + before[at + |units|..]
      else
        r == Err(DestTooSmall) && after == before
  }
}
