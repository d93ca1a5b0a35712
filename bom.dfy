/** The byte-order-mark sniffer of Encoding.h (DetectBom). */
module Bom {

  datatype EncodingKind = Error | ASCII | Utf8 | Utf16 | Utf32

  /** The four bytes as the little-endian number they spell. */
  function LittleEndian(b0: bv32, b1: bv32, b2: bv32, b3: bv32): bv32 {
    b0 | (b1 << 8) | (b2 << 16) | (b3 << 24)
  }

  /** The tests DetectBom runs on that number, in the source's order. */
  function Classify(bom: bv32): EncodingKind {
    if bom == 0x0000FEFF then Utf32
    else if bom & 0xFFFF == 0xFEFF then Utf16
    else if bom & 0xFFFFFF == 0xBFBBEF then Utf8
    else Error
  }

  /** DetectBom with every byte read unsigned: FF FE 00 00 is UTF-32, any
      other FF FE .. .. is UTF-16, EF BB BF .. is UTF-8, and anything else is
      an error. Big-endian marks are not recognised and ASCII is never the
      answer. */
  function DetectBom(bytes: seq<bv8>): (k: EncodingKind)
    requires |bytes| == 4
    ensures k == Utf32 <==> bytes[0] == 0xFF && bytes[1] == 0xFE && bytes[2] == 0 && bytes[3] == 0
    ensures k == Utf16 <==> bytes[0] == 0xFF && bytes[1] == 0xFE && !(bytes[2] == 0 && bytes[3] == 0)
    ensures k == Utf8 <==> bytes[0] == 0xEF && bytes[1] == 0xBB && bytes[2] == 0xBF
    ensures k != ASCII
  {
    var bom := LittleEndian(bytes[0] as bv32, bytes[1] as bv32, bytes[2] as bv32, bytes[3] as bv32);
    ReadBack(bytes[0], bytes[1], bytes[2], bytes[3]);
    Classify(bom)
  }

  /** Each byte can be read back out of the little-endian number. */
  lemma ReadBack(b0: bv8, b1: bv8, b2: bv8, b3: bv8)
    ensures var bom := LittleEndian(b0 as bv32, b1 as bv32, b2 as bv32, b3 as bv32);
      && bom & 0xFF == b0 as bv32
      && (bom >> 8) & 0xFF == b1 as bv32
      && (bom >> 16) & 0xFF == b2 as bv32
      && bom >> 24 == b3 as bv32
  {
  }

  /** A char widened to int where char is signed: bytes 80..FF become
      negative, so their upper 24 bits are all set. */
  function SignExtend(b: bv8): bv32 {
    if b < 0x80 then b as bv32 else 0xFFFF_FF00 | b as bv32
  }

  /** DetectBom as written, on a platform whose char is signed (x86, for
      instance): the bytes are widened with their sign before they are
      shifted and combined, with two's-complement shifts. Every mark is then
      missed: a first byte of 80..FF fills the upper bytes of the number with
      ones, and a first byte below 80 already differs from FF and EF. */
  function DetectBomSignedChar(bytes: seq<bv8>): (k: EncodingKind)
    requires |bytes| == 4
    ensures k == Error
  {
    SignedLowByte(bytes[0], SignExtend(bytes[1]), SignExtend(bytes[2]), SignExtend(bytes[3]));
    Classify(LittleEndian(SignExtend(bytes[0]), SignExtend(bytes[1]), SignExtend(bytes[2]), SignExtend(bytes[3])))
  }

  lemma SignedLowByte(b0: bv8, w1: bv32, w2: bv32, w3: bv32)
    ensures var bom := LittleEndian(SignExtend(b0), w1, w2, w3);
      && bom & 0xFF == b0 as bv32
      && (b0 >= 0x80 ==> bom & 0xFFFF_FF00 == 0xFFFF_FF00)
  {
  }

  /** The UTF-16 mark FF FE, as the two readings see it. */
  lemma Utf16MarkMissed()
    ensures DetectBom([0xFF, 0xFE, 0x41, 0x00]) == Utf16
    ensures DetectBomSignedChar([0xFF, 0xFE, 0x41, 0x00]) == Error
  {
  }
}
