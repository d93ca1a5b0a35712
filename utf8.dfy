/** The UTF-8 codec of Encoding.h (struct Utf8): a 256-entry byte
    classification table, a validator and a decoder that run bit-mask tests on
    the continuation bytes according to the lead byte's class, and an encoder. */
module Utf8 {
  import opened Unicode

  /** The table of GetRange, stored as 16 rows of 16 entries: row i holds the
      classes of the bytes 16*i .. 16*i+15. ASCII bytes are class 0;
      continuation bytes are 0x10 (80..8F), 0x40 (90..9F) or 0x20 (A0..BF);
      lead bytes are 2, 3, 4, 5, 6, 10 or 11; C0, C1 and F5..FF are class 8. */
  const RangeTable: seq<seq<bv8>> := [
    [0, 0, 0, 0, 0, 0, 0, 0, 0, 0, 0, 0, 0, 0, 0, 0],
    [0, 0, 0, 0, 0, 0, 0, 0, 0, 0, 0, 0, 0, 0, 0, 0],
    [0, 0, 0, 0, 0, 0, 0, 0, 0, 0, 0, 0, 0, 0, 0, 0],
    [0, 0, 0, 0, 0, 0, 0, 0, 0, 0, 0, 0, 0, 0, 0, 0],
    [0, 0, 0, 0, 0, 0, 0, 0, 0, 0, 0, 0, 0, 0, 0, 0],
    [0, 0, 0, 0, 0, 0, 0, 0, 0, 0, 0, 0, 0, 0, 0, 0],
    [0, 0, 0, 0, 0, 0, 0, 0, 0, 0, 0, 0, 0, 0, 0, 0],
    [0, 0, 0, 0, 0, 0, 0, 0, 0, 0, 0, 0, 0, 0, 0, 0],
    [0x10, 0x10, 0x10, 0x10, 0x10, 0x10, 0x10, 0x10, 0x10, 0x10, 0x10, 0x10, 0x10, 0x10, 0x10, 0x10],
    [0x40, 0x40, 0x40, 0x40, 0x40, 0x40, 0x40, 0x40, 0x40, 0x40, 0x40, 0x40, 0x40, 0x40, 0x40, 0x40],
    [0x20, 0x20, 0x20, 0x20, 0x20, 0x20, 0x20, 0x20, 0x20, 0x20, 0x20, 0x20, 0x20, 0x20, 0x20, 0x20],
    [0x20, 0x20, 0x20, 0x20, 0x20, 0x20, 0x20, 0x20, 0x20, 0x20, 0x20, 0x20, 0x20, 0x20, 0x20, 0x20],
    [8, 8, 2, 2, 2, 2, 2, 2, 2, 2, 2, 2, 2, 2, 2, 2],
    [2, 2, 2, 2, 2, 2, 2, 2, 2, 2, 2, 2, 2, 2, 2, 2],
    [10, 3, 3, 3, 3, 3, 3, 3, 3, 3, 3, 3, 3, 4, 3, 3],
    [11, 6, 6, 6, 5, 8, 8, 8, 8, 8, 8, 8, 8, 8, 8, 8]
  ]

  /** The class of a byte (Utf8::GetRange). The table is written out above as
      the source has it; here its entries are grouped into the intervals of
      byte values that share a class, which is how the proofs below read it.
      GetRangeIsTable shows that the two agree on all 256 bytes. ASCII bytes,
      and only they, are class 0, and the classes with an arm in the switch
      are exactly those of the lead bytes of RFC 3629. */
  function GetRange(c: bv8): (cls: bv8)
    ensures cls == 0 <==> c <= 0x7F
    ensures IsLeadClass(cls) <==> SequenceLength(c) >= 2
  {
    if c <= 0x7F then 0
    else if c <= 0x8F then 0x10
    else if c <= 0x9F then 0x40
    else if c <= 0xBF then 0x20
    else if c <= 0xC1 then 8
    else if c <= 0xDF then 2
    else if c == 0xE0 then 10
    else if c == 0xED then 4
    else if c <= 0xEF then 3
    else if c == 0xF0 then 11
    else if c <= 0xF3 then 6
    else if c == 0xF4 then 5
    else 8
  }

  lemma GetRangeIsTable(c: bv8)
    ensures GetRange(c) == RangeTable[c as int / 16][c as int % 16]
  {
    var i := c as int;
    var row, col := i / 16, i % 16;
    if row < 8 {
      TableRowAt(row, col, 0);
    } else if row == 8 {
      TableRowAt(row, col, 0x10);
    } else if row == 9 {
      TableRowAt(row, col, 0x40);
    } else if row < 12 {
      TableRowAt(row, col, 0x20);
    } else if row == 12 {
      if col >= 2 { TableRowAt(row, col, 2); }
    } else if row == 13 {
      TableRowAt(row, col, 2);
    } else if row == 14 {
      if col != 0 && col != 13 { TableRowAt(row, col, 3); }
    } else {
      if col >= 5 { TableRowAt(row, col, 8); }
      else if 1 <= col <= 3 { TableRowAt(row, col, 6); }
    }
  }

  /** Entry `col` of row `row` of the table, for the stretches of a row that
      hold one value. */
  lemma TableRowAt(row: int, col: int, v: bv8)
    requires 0 <= row < 16 && 0 <= col < 16
    requires || (row < 8 && v == 0)
             || (row == 8 && v == 0x10)
             || (row == 9 && v == 0x40)
             || (10 <= row <= 11 && v == 0x20)
             || (row == 12 && col >= 2 && v == 2)
             || (row == 13 && v == 2)
             || (row == 14 && col != 0 && col != 13 && v == 3)
             || (row == 15 && 1 <= col <= 3 && v == 6)
             || (row == 15 && col >= 5 && v == 8)
    ensures RangeTable[row][col] == v
  {
  }

  /** What the mask tests of the decoder accept: each mask selects an interval
      of continuation bytes, and no byte outside 80..BF passes any of them. */
  lemma MaskIntervals(c: bv8)
    ensures (GetRange(c) & 0x70 != 0) <==> 0x80 <= c <= 0xBF
    ensures (GetRange(c) & 0x50 != 0) <==> 0x80 <= c <= 0x9F
    ensures (GetRange(c) & 0x20 != 0) <==> 0xA0 <= c <= 0xBF
    ensures (GetRange(c) & 0x10 != 0) <==> 0x80 <= c <= 0x8F
    ensures (GetRange(c) & 0x60 != 0) <==> 0x90 <= c <= 0xBF
  {
  }

  // ---------------------------------------------------------------------------
  // Reference definitions from RFC 3629

  /** UTF8-tail of section 4 of RFC 3629. */
  predicate IsTail(b: bv8) {
    0x80 <= b <= 0xBF
  }

  /** The number of bytes of the UTF8-char a lead byte begins (section 4 of
      RFC 3629), or 0 when no UTF8-char begins with it. */
  function SequenceLength(lead: bv8): nat {
    if lead <= 0x7F then 1
    else if 0xC2 <= lead <= 0xDF then 2
    else if 0xE0 <= lead <= 0xEF then 3
    else if 0xF0 <= lead <= 0xF4 then 4
    else 0
  }

  /** `b` is exactly one UTF8-char of the grammar in section 4 of RFC 3629. */
  predicate IsUtf8Char(b: seq<bv8>) {
    || (|b| == 1 && b[0] <= 0x7F)
    || (|b| == 2 && 0xC2 <= b[0] <= 0xDF && IsTail(b[1]))
    || (|b| == 3 &&
         (|| (b[0] == 0xE0 && 0xA0 <= b[1] <= 0xBF && IsTail(b[2]))
          || ((0xE1 <= b[0] <= 0xEC || 0xEE <= b[0] <= 0xEF) && IsTail(b[1]) && IsTail(b[2]))
          || (b[0] == 0xED && 0x80 <= b[1] <= 0x9F && IsTail(b[2]))))
    || (|b| == 4 &&
         (|| (b[0] == 0xF0 && 0x90 <= b[1] <= 0xBF && IsTail(b[2]) && IsTail(b[3]))
          || (0xF1 <= b[0] <= 0xF3 && IsTail(b[1]) && IsTail(b[2]) && IsTail(b[3]))
          || (b[0] == 0xF4 && 0x80 <= b[1] <= 0x8F && IsTail(b[2]) && IsTail(b[3]))))
  }

  /** The code point a UTF8-char stands for (section 3 of RFC 3629): the x bits
      of the lead byte followed by six bits from each continuation byte. */
  function CodePointOf(b: seq<bv8>): bv32
    requires 1 <= |b| <= 4
  {
    if |b| == 1 then
      b[0] as bv32
    else if |b| == 2 then
      ((b[0] as bv32 & 0x1F) << 6) | (b[1] as bv32 & 0x3F)
    else if |b| == 3 then
      ((b[0] as bv32 & 0x0F) << 12) | ((b[1] as bv32 & 0x3F) << 6) | (b[2] as bv32 & 0x3F)
    else
      ((b[0] as bv32 & 0x07) << 18) | ((b[1] as bv32 & 0x3F) << 12) | ((b[2] as bv32 & 0x3F) << 6) | (b[3] as bv32 & 0x3F)
  }

  // ---------------------------------------------------------------------------
  // Validate and Decode

  /** The state the lambdas Copy, Trans and Tail share: the cursor `pos`
      (always equal to the unit count `result`), the byte `c` read last, the
      validity flag and the accumulated code point. */
  datatype Cursor = Cursor(pos: nat, c: bv8, checkFlag: bool, acc: bv32)

  /** The accumulator after a continuation byte: shifted left six bits, with
      the byte's low six bits below. */
  function ShiftIn(acc: bv32, b: bv8): bv32 {
    (acc << 6) | (b as bv32 & 0x3F)
  }

  /** Copy: read the next byte through `source.at(pos++)` and shift its low
      six bits into the accumulator. Reading past the end is a truncation. */
  function Copy(source: seq<bv8>, st: Cursor): (r: Result<Cursor>)
    ensures r.Ok? <==> st.pos < |source|
    ensures r.Err? ==> r.error == Truncated
    ensures r.Ok? ==> r.value.pos == st.pos + 1 && r.value.c == source[st.pos]
    ensures r.Ok? ==> r.value.checkFlag == st.checkFlag
    ensures r.Ok? ==> r.value.acc == ShiftIn(st.acc, source[st.pos])
  {
    if st.pos < |source| then
      var c := source[st.pos];
      Ok(Cursor(st.pos + 1, c, st.checkFlag, ShiftIn(st.acc, c)))
    else
      Err(Truncated)
  }

  /** Trans: keep the flag only if the class of the byte read last meets `mask`. */
  function Trans(st: Cursor, mask: bv8): (r: Cursor)
    ensures r.pos == st.pos && r.c == st.c && r.acc == st.acc
    ensures r.checkFlag ==> st.checkFlag
    ensures mask == 0x70 ==> (r.checkFlag <==> st.checkFlag && IsTail(st.c))
  {
    MaskIntervals(st.c);
    st.(checkFlag := st.checkFlag && GetRange(st.c) & mask != 0)
  }

  /** Tail: read a continuation byte, which must lie in 80..BF. */
  function Tail(source: seq<bv8>, st: Cursor): (r: Result<Cursor>)
    ensures r.Ok? <==> st.pos < |source|
    ensures r.Err? ==> r.error == Truncated
    ensures r.Ok? ==> r.value.pos == st.pos + 1 && r.value.c == source[st.pos]
    ensures r.Ok? ==> (r.value.checkFlag <==> st.checkFlag && IsTail(source[st.pos]))
    ensures r.Ok? ==> r.value.acc == ShiftIn(st.acc, source[st.pos])
  {
    var next :- Copy(source, st);
    Ok(Trans(next, 0x70))
  }

  /** The classes that have an arm in the decoder's switch. */
  predicate IsLeadClass(cls: bv8) {
    cls == 2 || cls == 3 || cls == 4 || cls == 5 || cls == 6 || cls == 10 || cls == 11
  }

  /** The arms of the switch: the bytes each class reads after the lead byte and
      the mask each of them must meet. Every byte is read before the flag is
      consulted, so a short source is a truncation even when an earlier
      continuation byte was already bad. */
  function Switch(source: seq<bv8>, cls: bv8, st: Cursor): (r: Result<Cursor>)
    requires IsLeadClass(cls)
    ensures r.Err? ==> r.error == Truncated
    ensures r.Ok? ==> st.pos < r.value.pos <= |source| && r.value.pos <= st.pos + 3
    ensures r.Ok? && r.value.checkFlag ==> st.checkFlag
  {
    if cls == 2 then
      Tail(source, st)
    else if cls == 3 then
      var s1 :- Tail(source, st);
      Tail(source, s1)
    else if cls == 4 then
      var s1 :- Copy(source, st);
      Tail(source, Trans(s1, 0x50))
    else if cls == 5 then
      var s1 :- Copy(source, st);
      var s2 :- Tail(source, Trans(s1, 0x10));
      Tail(source, s2)
    else if cls == 6 then
      var s1 :- Tail(source, st);
      var s2 :- Tail(source, s1);
      Tail(source, s2)
    else if cls == 10 then
      var s1 :- Copy(source, st);
      Tail(source, Trans(s1, 0x20))
    else
      var s1 :- Copy(source, st);
      var s2 :- Tail(source, Trans(s1, 0x60));
      Tail(source, s2)
  }

  /** What the switch does, for a lead byte that has an arm: it reads the rest
      of the sequence the lead byte announces, or fails as Truncated when the
      source is shorter; the flag survives exactly when the bytes form a
      UTF8-char, and then the accumulator holds the code point of that char. */
  ghost predicate SwitchOutcome(source: seq<bv8>, acc: bv32)
    requires |source| > 0 && IsLeadClass(GetRange(source[0]))
  {
    var n := SequenceLength(source[0]);
    var r := Switch(source, GetRange(source[0]), Cursor(1, source[0], true, acc));
    && 2 <= n
    && (r.Ok? <==> n <= |source|)
    && (r.Err? ==> r.error == Truncated)
    && (r.Ok? ==> r.value.pos == n && (r.value.checkFlag <==> IsUtf8Char(source[..n])))
    && (r.Ok? && r.value.checkFlag && acc == LeadBits(source[0], GetRange(source[0])) ==>
          r.value.acc == CodePointOf(source[..n]))
  }

  lemma SwitchSpec(source: seq<bv8>, acc: bv32)
    requires |source| > 0 && IsLeadClass(GetRange(source[0]))
    ensures SwitchOutcome(source, acc)
  {
    var cls := GetRange(source[0]);
    if cls == 2 {
      SwitchTwoBytes(source, acc);
    } else if cls == 3 {
      SwitchThreeBytes(source, acc, 3, 0x70);
    } else if cls == 4 {
      SwitchThreeBytes(source, acc, 4, 0x50);
    } else if cls == 10 {
      SwitchThreeBytes(source, acc, 10, 0x20);
    } else if cls == 5 {
      SwitchFourBytes(source, acc, 5, 0x10);
    } else if cls == 6 {
      SwitchFourBytes(source, acc, 6, 0x70);
    } else {
      SwitchFourBytes(source, acc, 11, 0x60);
    }
  }

  /** The cursor after Copy has read one more byte. */
  function Next(source: seq<bv8>, st: Cursor): Cursor
    requires st.pos < |source|
  {
    var b := source[st.pos];
    Cursor(st.pos + 1, b, st.checkFlag, ShiftIn(st.acc, b))
  }

  lemma CopyStep(source: seq<bv8>, st: Cursor, mask: bv8)
    requires st.pos < |source|
    ensures Copy(source, st) == Ok(Next(source, st))
    ensures Trans(Next(source, st), mask).checkFlag <==> st.checkFlag && GetRange(source[st.pos]) & mask != 0
  {
  }

  lemma TailStep(source: seq<bv8>, st: Cursor)
    requires st.pos < |source|
    ensures Tail(source, st) == Ok(Next(source, st).(checkFlag := st.checkFlag && IsTail(source[st.pos])))
  {
    MaskIntervals(source[st.pos]);
  }

  /** Class 2 (C2..DF): one continuation byte. */
  lemma SwitchTwoBytes(source: seq<bv8>, acc: bv32)
    requires |source| > 0 && GetRange(source[0]) == 2
    ensures SwitchOutcome(source, acc)
  {
    var c := source[0];
    assert SequenceLength(c) == 2;
    var st0 := Cursor(1, c, true, acc);
    if 1 < |source| {
      TailStep(source, st0);
      assert source[..2] == [c, source[1]];
      if acc == LeadBits(c, 2) {
        AccTwo(c, source[1]);
      }
    }
  }

  lemma AccTwo(c: bv8, b1: bv8)
    requires 0xC2 <= c <= 0xDF
    ensures ShiftIn(LeadBits(c, 2), b1) == CodePointOf([c, b1])
  {
  }

  /** The three-byte classes: 3 (E1..EC, EE, EF) wants any continuation byte
      second; 4 (ED) one in 80..9F, which keeps out the surrogates; 10 (E0) one
      in A0..BF, which keeps out overlong forms. One continuation byte
      follows. */
  lemma SwitchThreeBytes(source: seq<bv8>, acc: bv32, cls: bv8, mask: bv8)
    requires |source| > 0 && GetRange(source[0]) == cls
    requires (cls == 3 && mask == 0x70) || (cls == 4 && mask == 0x50) || (cls == 10 && mask == 0x20)
    ensures SwitchOutcome(source, acc)
  {
    var c := source[0];
    assert SequenceLength(c) == 3;
    if |source| < 3 {
      ThreeBytesShort(source, acc, cls, mask);
    } else {
      var s2 := ThreeBytesRead(source, acc, cls, mask);
      MaskIntervals(source[1]);
      var b := source[..3];
      assert b == [c, source[1], source[2]];
      assert IsUtf8Char(b) <==> s2.checkFlag;
      if acc == LeadBits(c, cls) {
        AccThree(c, source[1], source[2], cls);
      }
    }
  }

  lemma ThreeBytesShort(source: seq<bv8>, acc: bv32, cls: bv8, mask: bv8)
    requires 0 < |source| < 3 && GetRange(source[0]) == cls
    requires (cls == 3 && mask == 0x70) || (cls == 4 && mask == 0x50) || (cls == 10 && mask == 0x20)
    ensures Switch(source, cls, Cursor(1, source[0], true, acc)) == Err(Truncated)
  {
    var st0 := Cursor(1, source[0], true, acc);
    if |source| > 1 {
      CopyStep(source, st0, mask);
    }
  }

  lemma ThreeBytesRead(source: seq<bv8>, acc: bv32, cls: bv8, mask: bv8) returns (s2: Cursor)
    requires |source| >= 3 && GetRange(source[0]) == cls
    requires (cls == 3 && mask == 0x70) || (cls == 4 && mask == 0x50) || (cls == 10 && mask == 0x20)
    ensures Switch(source, cls, Cursor(1, source[0], true, acc)) == Ok(s2)
    ensures s2.pos == 3
    ensures s2.checkFlag <==> GetRange(source[1]) & mask != 0 && IsTail(source[2])
    ensures s2.acc == ShiftIn(ShiftIn(acc, source[1]), source[2])
  {
    var st0 := Cursor(1, source[0], true, acc);
    var s1 := Trans(Next(source, st0), mask);
    s2 := Next(source, s1).(checkFlag := s1.checkFlag && IsTail(source[2]));
    CopyStep(source, st0, mask);
    TailStep(source, s1);
    if cls == 3 {
      assert Switch(source, 3, st0) == Ok(s2);
    } else if cls == 4 {
      assert Switch(source, 4, st0) == Ok(s2);
    } else {
      assert Switch(source, 10, st0) == Ok(s2);
    }
  }

  lemma AccThree(c: bv8, b1: bv8, b2: bv8, cls: bv8)
    requires (cls == 3 && 0xE1 <= c <= 0xEF) || (cls == 4 && c == 0xED) || (cls == 10 && c == 0xE0)
    ensures ShiftIn(ShiftIn(LeadBits(c, cls), b1), b2) == CodePointOf([c, b1, b2])
  {
  }

  /** The four-byte classes: 5 (F4) wants its second byte in 80..8F, which
      keeps the value at most 0x10FFFF; 6 (F1..F3) any continuation byte; 11
      (F0) one in 90..BF, which keeps out overlong forms. Two continuation
      bytes follow. */
  lemma SwitchFourBytes(source: seq<bv8>, acc: bv32, cls: bv8, mask: bv8)
    requires |source| > 0 && GetRange(source[0]) == cls
    requires (cls == 5 && mask == 0x10) || (cls == 6 && mask == 0x70) || (cls == 11 && mask == 0x60)
    ensures SwitchOutcome(source, acc)
  {
    var c := source[0];
    assert SequenceLength(c) == 4;
    if |source| < 4 {
      FourBytesShort(source, acc, cls, mask);
    } else {
      var s3 := FourBytesRead(source, acc, cls, mask);
      MaskIntervals(source[1]);
      var b := source[..4];
      assert b == [c, source[1], source[2], source[3]];
      assert IsUtf8Char(b) <==> s3.checkFlag;
      if acc == LeadBits(c, cls) {
        AccFour(c, source[1], source[2], source[3], cls);
      }
    }
  }

  lemma FourBytesShort(source: seq<bv8>, acc: bv32, cls: bv8, mask: bv8)
    requires 0 < |source| < 4 && GetRange(source[0]) == cls
    requires (cls == 5 && mask == 0x10) || (cls == 6 && mask == 0x70) || (cls == 11 && mask == 0x60)
    ensures Switch(source, cls, Cursor(1, source[0], true, acc)) == Err(Truncated)
  {
    var st0 := Cursor(1, source[0], true, acc);
    if |source| > 1 {
      CopyStep(source, st0, mask);
      if |source| > 2 {
        TailStep(source, Trans(Next(source, st0), mask));
      }
    }
  }

  lemma FourBytesRead(source: seq<bv8>, acc: bv32, cls: bv8, mask: bv8) returns (s3: Cursor)
    requires |source| >= 4 && GetRange(source[0]) == cls
    requires (cls == 5 && mask == 0x10) || (cls == 6 && mask == 0x70) || (cls == 11 && mask == 0x60)
    ensures Switch(source, cls, Cursor(1, source[0], true, acc)) == Ok(s3)
    ensures s3.pos == 4
    ensures s3.checkFlag <==> GetRange(source[1]) & mask != 0 && IsTail(source[2]) && IsTail(source[3])
    ensures s3.acc == ShiftIn(ShiftIn(ShiftIn(acc, source[1]), source[2]), source[3])
  {
    var st0 := Cursor(1, source[0], true, acc);
    var s1 := Trans(Next(source, st0), mask);
    var s2 := Next(source, s1).(checkFlag := s1.checkFlag && IsTail(source[2]));
    s3 := Next(source, s2).(checkFlag := s2.checkFlag && IsTail(source[3]));
    CopyStep(source, st0, mask);
    TailStep(source, s1);
    TailStep(source, s2);
    if cls == 5 {
      assert Switch(source, 5, st0) == Ok(s3);
    } else if cls == 6 {
      assert Switch(source, 6, st0) == Ok(s3);
    } else {
      assert Switch(source, 11, st0) == Ok(s3);
    }
  }

  lemma AccFour(c: bv8, b1: bv8, b2: bv8, b3: bv8, cls: bv8)
    requires (cls == 5 && c == 0xF4) || (cls == 6 && 0xF1 <= c <= 0xF3) || (cls == 11 && c == 0xF0)
    ensures ShiftIn(ShiftIn(ShiftIn(LeadBits(c, cls), b1), b2), b3) == CodePointOf([c, b1, b2, b3])
  {
  }

  /** Utf8::Validate: the length of the UTF-8 sequence at the front of the
      source, 0 when it is not well formed, Truncated when the source ends
      before the sequence its lead byte announces. */
  function Validate(source: seq<bv8>): (r: Result<nat>)
    ensures r.Err? ==> r.error == Truncated
    ensures r.Ok? ==> r.value <= 4 && r.value <= |source|
  {
    if |source| == 0 then
      Err(Truncated)
    else
      var c := source[0];
      if c & 0x80 == 0 then
        Ok(1)
      else
        var cls := GetRange(c);
        if !IsLeadClass(cls) then
          Ok(0)
        else
          SwitchSpec(source, 0);
          var st :- Switch(source, cls, Cursor(1, c, true, 0));
          if st.checkFlag then Ok(st.pos) else Ok(0)
  }

  /** The accumulator's starting value, `0xFF >> type` applied to the lead
      byte: for every lead byte of RFC 3629 these are its payload bits, the
      x bits of the lead byte in the table of section 3 of RFC 3629. */
  function LeadBits(c: bv8, cls: bv8): (r: bv32)
    ensures cls == GetRange(c) && IsLeadClass(cls) ==>
      r == c as bv32 & (if SequenceLength(c) == 2 then 0x1F else if SequenceLength(c) == 3 then 0x0F else 0x07)
  {
    if cls >= 32 then 0 else (0xFF as bv32 >> cls as int) & c as bv32
  }

  /** Utf8::Decode: the code point at the front of the source and its length. */
  function Decode(source: seq<bv8>): (r: Result<Decoded>)
    ensures Agree(Validate(source), r)
    ensures r.Ok? ==> r.value.length <= |source| && r.value.codePoint == CodePointOf(source[..r.value.length])
    ensures r.Ok? ==> IsScalar(r.value.codePoint)
  {
    if |source| == 0 then
      Err(Truncated)
    else
      var c := source[0];
      if c & 0x80 == 0 then
        Ok(Decoded(c as bv32, 1))
      else
        var cls := GetRange(c);
        var acc := LeadBits(c, cls);
        if !IsLeadClass(cls) then
          Err(Malformed)
        else
          SwitchSpec(source, 0);
          SwitchSpec(source, acc);
          var st :- Switch(source, cls, Cursor(1, c, true, acc));
          if st.checkFlag then Ok(Decoded(st.acc, st.pos)) else Err(Malformed)
  }

  /** Validate accepts exactly the UTF8-chars of RFC 3629: it returns n > 0
      precisely when the first n bytes of the source form one. */
  lemma {:induction false} ValidateIsRfc3629(source: seq<bv8>, n: nat)
    requires 0 < n
    ensures Validate(source) == Ok(n) <==> n <= |source| && IsUtf8Char(source[..n])
  {
    if n <= |source| && IsUtf8Char(source[..n]) {
      assert SequenceLength(source[0]) == n by { CharLength(source[..n]); }
    }
    if |source| > 0 && source[0] & 0x80 != 0 && IsLeadClass(GetRange(source[0])) {
      SwitchSpec(source, 0);
    }
  }

  /** A UTF8-char's length is announced by its lead byte. */
  lemma CharLength(b: seq<bv8>)
    requires IsUtf8Char(b)
    ensures SequenceLength(b[0]) == |b|
  {
  }

  /** Validate fails as a truncation exactly when the source is empty or ends
      before the sequence its lead byte announces; the continuation bytes read
      before the end do not matter, even if one of them is already bad. */
  lemma ValidateTruncates(source: seq<bv8>)
    ensures Validate(source).Err? <==> |source| == 0 || |source| < SequenceLength(source[0])
    ensures Decode(source) == Err(Truncated) <==> |source| == 0 || |source| < SequenceLength(source[0])
  {
    if |source| > 0 && source[0] & 0x80 != 0 && IsLeadClass(GetRange(source[0])) {
      SwitchSpec(source, 0);
    }
  }

  // ---------------------------------------------------------------------------
  // Encode

  /** A lead byte: the length marker over the payload bits. */
  function Lead(marker: bv32, payload: bv32): bv8 {
    Byte(marker | (payload & 0xFF))
  }

  /** A continuation byte carrying the low six bits of `x`. */
  function Cont(x: bv32): bv8 {
    Byte(0x80 | (x & 0x3F))
  }

  /** The bytes Utf8::Encode writes for a code point: one for 0..7F, two up to
      7FF, three up to FFFF, four up to 10FFFF; larger values are rejected. The
      lead byte announces the length and every later byte is a continuation
      byte. */
  function Encoded(cp: bv32): (r: Result<seq<bv8>>)
    ensures r.Ok? <==> cp <= MaxCodePoint
    ensures r.Err? ==> r.error == OutOfRange
    ensures r.Ok? ==> 1 <= |r.value| <= 4 && SequenceLength(r.value[0]) == |r.value|
    ensures r.Ok? ==> forall i :: 1 <= i < |r.value| ==> IsTail(r.value[i])
  {
    if cp <= 0x7F then
      Ok([Byte(cp)])
    else if cp <= 0x7FF then
      Ok([Lead(0xC0, cp >> 6), Cont(cp)])
    else if cp <= 0xFFFF then
      Ok([Lead(0xE0, cp >> 12), Cont(cp >> 6), Cont(cp)])
    else if cp <= MaxCodePoint then
      Ok([Lead(0xF0, cp >> 18), Cont(cp >> 12), Cont(cp >> 6), Cont(cp)])
    else
      Err(OutOfRange)
  }

  /** The number of bytes Encoded writes for a code point it accepts. */
  lemma EncodedLength(cp: bv32)
    requires cp <= MaxCodePoint
    ensures |Encoded(cp).value| == (if cp <= 0x7F then 1 else if cp <= 0x7FF then 2 else if cp <= 0xFFFF then 3 else 4)
  {
  }

  lemma LeadWidens(marker: bv32, payload: bv32)
    ensures Lead(marker, payload) as bv32 == (marker | (payload & 0xFF)) & 0xFF
  {
  }

  lemma ContWidens(x: bv32)
    ensures Cont(x) as bv32 == 0x80 | (x & 0x3F)
  {
  }

  /** Encoded inverts the bit formula of RFC 3629 section 3. */
  lemma CodePointOfEncoded(cp: bv32)
    requires cp <= MaxCodePoint
    ensures CodePointOf(Encoded(cp).value) == cp
  {
    if cp <= 0x7F {
    } else if cp <= 0x7FF {
      CodePointOfTwo(cp);
    } else if cp <= 0xFFFF {
      CodePointOfThree(cp);
    } else {
      CodePointOfFour(cp);
    }
  }

  lemma CodePointOfTwo(cp: bv32)
    requires 0x7F < cp <= 0x7FF
    ensures CodePointOf([Lead(0xC0, cp >> 6), Cont(cp)]) == cp
  {
    LeadWidens(0xC0, cp >> 6);
    ContWidens(cp);
    Inverse2(cp);
  }

  lemma CodePointOfThree(cp: bv32)
    requires 0x7FF < cp <= 0xFFFF
    ensures CodePointOf([Lead(0xE0, cp >> 12), Cont(cp >> 6), Cont(cp)]) == cp
  {
    LeadWidens(0xE0, cp >> 12);
    ContWidens(cp >> 6);
    ContWidens(cp);
    Inverse3(cp);
  }

  lemma CodePointOfFour(cp: bv32)
    requires 0xFFFF < cp <= MaxCodePoint
    ensures CodePointOf([Lead(0xF0, cp >> 18), Cont(cp >> 12), Cont(cp >> 6), Cont(cp)]) == cp
  {
    CodePointOf4(Lead(0xF0, cp >> 18), Cont(cp >> 12), Cont(cp >> 6), Cont(cp));
    LeadWidens(0xF0, cp >> 18);
    ContWidens(cp >> 12);
    ContWidens(cp >> 6);
    ContWidens(cp);
    Inverse4(cp);
  }

  lemma Inverse2(cp: bv32)
    requires 0x7F < cp <= 0x7FF
    ensures ((((0xC0 | ((cp >> 6) & 0xFF)) & 0xFF) & 0x1F) << 6) | ((0x80 | (cp & 0x3F)) & 0x3F) == cp
  {
  }

  lemma Inverse3(cp: bv32)
    requires 0x7FF < cp <= 0xFFFF
    ensures ((((0xE0 | ((cp >> 12) & 0xFF)) & 0xFF) & 0x0F) << 12)
          | (((0x80 | ((cp >> 6) & 0x3F)) & 0x3F) << 6)
          | ((0x80 | (cp & 0x3F)) & 0x3F) == cp
  {
  }

  lemma Inverse4(cp: bv32)
    requires 0xFFFF < cp <= MaxCodePoint
    ensures ((((0xF0 | ((cp >> 18) & 0xFF)) & 0xFF) & 0x07) << 18)
          | (((0x80 | ((cp >> 12) & 0x3F)) & 0x3F) << 12)
          | (((0x80 | ((cp >> 6) & 0x3F)) & 0x3F) << 6)
          | ((0x80 | (cp & 0x3F)) & 0x3F) == cp
  {
  }

  lemma CodePointOf4(b0: bv8, b1: bv8, b2: bv8, b3: bv8)
    ensures CodePointOf([b0, b1, b2, b3])
         == ((b0 as bv32 & 0x07) << 18) | ((b1 as bv32 & 0x3F) << 12) | ((b2 as bv32 & 0x3F) << 6) | (b3 as bv32 & 0x3F)
  {
  }

  /** The encoding of a code point is a UTF8-char exactly when the code point
      is not a surrogate: Encode writes shortest forms only, but it also writes
      the three bytes of a surrogate, which RFC 3629 excludes. */
  lemma EncodedIsUtf8Char(cp: bv32)
    requires cp <= MaxCodePoint
    ensures IsUtf8Char(Encoded(cp).value) <==> !IsSurrogate(cp)
  {
    if cp <= 0x7F {
    } else if cp <= 0x7FF {
      TwoIsChar(cp);
    } else if cp <= 0xFFFF {
      ThreeIsChar(cp);
    } else {
      FourIsChar(cp);
    }
  }

  lemma TwoIsChar(cp: bv32)
    requires 0x7F < cp <= 0x7FF
    ensures IsUtf8Char([Lead(0xC0, cp >> 6), Cont(cp)])
  {
    LeadWidens(0xC0, cp >> 6);
    ContWidens(cp);
  }

  lemma ThreeIsChar(cp: bv32)
    requires 0x7FF < cp <= 0xFFFF
    ensures IsUtf8Char([Lead(0xE0, cp >> 12), Cont(cp >> 6), Cont(cp)]) <==> !IsSurrogate(cp)
  {
    LeadWidens(0xE0, cp >> 12);
    ContWidens(cp >> 6);
    ContWidens(cp);
  }

  lemma FourIsChar(cp: bv32)
    requires 0xFFFF < cp <= MaxCodePoint
    ensures IsUtf8Char([Lead(0xF0, cp >> 18), Cont(cp >> 12), Cont(cp >> 6), Cont(cp)])
  {
    LeadWidens(0xF0, cp >> 18);
    ContWidens(cp >> 12);
    ContWidens(cp >> 6);
    ContWidens(cp);
  }

  /** Every UTF8-char is the encoding of the code point it stands for, so each
      code point has one way to be written. */
  lemma EncodedCodePointOf(b: seq<bv8>)
    requires IsUtf8Char(b)
    ensures Encoded(CodePointOf(b)) == Ok(b)
  {
    if |b| == 2 {
      assert b == [b[0], b[1]];
      CharTwo(b[0], b[1]);
    } else if |b| == 3 {
      assert b == [b[0], b[1], b[2]];
      CharThree(b[0], b[1], b[2]);
    } else if |b| == 4 {
      assert b == [b[0], b[1], b[2], b[3]];
      CharFour(b[0], b[1], b[2], b[3]);
    } else {
      assert b == [b[0]];
    }
  }

  /** A continuation byte is determined by its low six bits. */
  lemma ContOf(x: bv32, b: bv8)
    requires IsTail(b) && x & 0x3F == b as bv32 & 0x3F
    ensures Cont(x) == b
  {
    ContWidens(x);
  }

  lemma CharTwo(b0: bv8, b1: bv8)
    requires IsUtf8Char([b0, b1])
    ensures var cp := CodePointOf([b0, b1]);
      0x7F < cp <= 0x7FF && [Lead(0xC0, cp >> 6), Cont(cp)] == [b0, b1]
  {
    var cp := CodePointOf([b0, b1]);
    LeadWidens(0xC0, cp >> 6);
    ContOf(cp, b1);
  }

  lemma CharThree(b0: bv8, b1: bv8, b2: bv8)
    requires IsUtf8Char([b0, b1, b2])
    ensures var cp := CodePointOf([b0, b1, b2]);
      0x7FF < cp <= 0xFFFF && [Lead(0xE0, cp >> 12), Cont(cp >> 6), Cont(cp)] == [b0, b1, b2]
  {
    var cp := CodePointOf([b0, b1, b2]);
    Bits3(b0 as bv32, b1 as bv32, b2 as bv32);
    LeadWidens(0xE0, cp >> 12);
    ContOf(cp >> 6, b1);
    ContOf(cp, b2);
  }

  lemma Bits3(w0: bv32, w1: bv32, w2: bv32)
    requires 0xE0 <= w0 <= 0xEF && 0x80 <= w1 <= 0xBF && 0x80 <= w2 <= 0xBF
    requires w0 == 0xE0 ==> 0xA0 <= w1
    ensures var cp := ((w0 & 0x0F) << 12) | ((w1 & 0x3F) << 6) | (w2 & 0x3F);
      && 0x7FF < cp <= 0xFFFF
      && (0xE0 | ((cp >> 12) & 0xFF)) & 0xFF == w0
      && (cp >> 6) & 0x3F == w1 & 0x3F
      && cp & 0x3F == w2 & 0x3F
  {
  }

  lemma CharFour(b0: bv8, b1: bv8, b2: bv8, b3: bv8)
    requires IsUtf8Char([b0, b1, b2, b3])
    ensures Encoded(CodePointOf([b0, b1, b2, b3])) == Ok([b0, b1, b2, b3])
  {
    CodePointOf4(b0, b1, b2, b3);
    assert 0xF0 <= b0 <= 0xF4 && IsTail(b1) && IsTail(b2) && IsTail(b3);
    assert (b0 == 0xF0 ==> 0x90 <= b1) && (b0 == 0xF4 ==> b1 <= 0x8F);
    FourRoundTrip(CodePointOf([b0, b1, b2, b3]), b0, b1, b2, b3);
  }

  lemma FourRoundTrip(cp: bv32, b0: bv8, b1: bv8, b2: bv8, b3: bv8)
    requires 0xF0 <= b0 <= 0xF4 && IsTail(b1) && IsTail(b2) && IsTail(b3)
    requires b0 == 0xF0 ==> 0x90 <= b1
    requires b0 == 0xF4 ==> b1 <= 0x8F
    requires cp == ((b0 as bv32 & 0x07) << 18) | ((b1 as bv32 & 0x3F) << 12) | ((b2 as bv32 & 0x3F) << 6) | (b3 as bv32 & 0x3F)
    ensures Encoded(cp) == Ok([b0, b1, b2, b3])
  {
    FourBytesOf(cp, b0, b1, b2, b3);
    EncodedFour(cp);
    SameFour(Lead(0xF0, cp >> 18), Cont(cp >> 12), Cont(cp >> 6), Cont(cp), b0, b1, b2, b3);
  }

  lemma SameFour(a0: bv8, a1: bv8, a2: bv8, a3: bv8, b0: bv8, b1: bv8, b2: bv8, b3: bv8)
    requires a0 == b0 && a1 == b1 && a2 == b2 && a3 == b3
    ensures [a0, a1, a2, a3] == [b0, b1, b2, b3]
  {
  }

  lemma FourBytesOf(cp: bv32, b0: bv8, b1: bv8, b2: bv8, b3: bv8)
    requires 0xF0 <= b0 <= 0xF4 && IsTail(b1) && IsTail(b2) && IsTail(b3)
    requires b0 == 0xF0 ==> 0x90 <= b1
    requires b0 == 0xF4 ==> b1 <= 0x8F
    requires cp == ((b0 as bv32 & 0x07) << 18) | ((b1 as bv32 & 0x3F) << 12) | ((b2 as bv32 & 0x3F) << 6) | (b3 as bv32 & 0x3F)
    ensures 0xFFFF < cp <= MaxCodePoint
    ensures Lead(0xF0, cp >> 18) == b0 && Cont(cp >> 12) == b1 && Cont(cp >> 6) == b2 && Cont(cp) == b3
  {
    Bits4(b0 as bv32, b1 as bv32, b2 as bv32, b3 as bv32);
    LeadWidens(0xF0, cp >> 18);
    ContOf(cp >> 12, b1);
    ContOf(cp >> 6, b2);
    ContOf(cp, b3);
  }

  lemma Bits4(w0: bv32, w1: bv32, w2: bv32, w3: bv32)
    requires 0xF0 <= w0 <= 0xF4 && 0x80 <= w1 <= 0xBF && 0x80 <= w2 <= 0xBF && 0x80 <= w3 <= 0xBF
    requires w0 == 0xF0 ==> 0x90 <= w1
    requires w0 == 0xF4 ==> w1 <= 0x8F
    ensures var cp := ((w0 & 0x07) << 18) | ((w1 & 0x3F) << 12) | ((w2 & 0x3F) << 6) | (w3 & 0x3F);
      && 0xFFFF < cp <= MaxCodePoint
      && (0xF0 | ((cp >> 18) & 0xFF)) & 0xFF == w0
      && (cp >> 12) & 0x3F == w1 & 0x3F
      && (cp >> 6) & 0x3F == w2 & 0x3F
      && cp & 0x3F == w3 & 0x3F
  {
  }

  lemma EncodedFour(cp: bv32)
    requires 0xFFFF < cp <= MaxCodePoint
    ensures Encoded(cp) == Ok([Lead(0xF0, cp >> 18), Cont(cp >> 12), Cont(cp >> 6), Cont(cp)])
  {
  }

  // ---------------------------------------------------------------------------
  // Round trips

  /** Decoding what Encode writes for a scalar value gives back the value and
      the number of bytes written, whatever follows in the source. */
  lemma DecodeEncoded(cp: bv32, rest: seq<bv8>)
    requires IsScalar(cp)
    ensures Decode(Encoded(cp).value + rest) == Ok(Decoded(cp, |Encoded(cp).value|))
  {
    var e := Encoded(cp).value;
    var s := e + rest;
    assert s[..|e|] == e;
    EncodedIsUtf8Char(cp);
    ValidateIsRfc3629(s, |e|);
    DecodeValid(s, |e|);
    CodePointOfEncoded(cp);
  }

  /** Where Validate accepts n bytes, Decode reads the code point of those n
      bytes. */
  lemma DecodeValid(source: seq<bv8>, n: nat)
    requires 0 < n && Validate(source) == Ok(n)
    ensures Decode(source) == Ok(Decoded(CodePointOf(source[..n]), n))
  {
  }

  /** Decode accepts shortest forms only: encoding the code point it read gives
      back exactly the bytes it consumed. */
  lemma EncodedDecoded(source: seq<bv8>)
    requires Decode(source).Ok?
    ensures Encoded(Decode(source).value.codePoint) == Ok(source[..Decode(source).value.length])
  {
    var d := Decode(source).value;
    ValidateIsRfc3629(source, d.length);
    EncodedCodePointOf(source[..d.length]);
  }

  /** Encode does not reject a surrogate: it writes three bytes ED A0..BF ..,
      which Decode then rejects as malformed. */
  lemma SurrogateNotDecoded(cp: bv32, rest: seq<bv8>)
    requires IsSurrogate(cp)
    ensures Encoded(cp).Ok? && |Encoded(cp).value| == 3
    ensures Decode(Encoded(cp).value + rest) == Err(Malformed)
  {
    var e := Encoded(cp).value;
    var s := e + rest;
    EncodedIsUtf8Char(cp);
    assert s[..3] == e;
    ValidateTruncates(s);
  }

  // ---------------------------------------------------------------------------
  // Encode on a destination buffer

  /** Utf8::Encode: writes the encoding of `cp` at the front of `dest` and
      returns its length. The range test comes first; a destination too short
      for the encoding is reported before anything is written. */
  method Encode(cp: bv32, dest: array<bv8>) returns (r: Result<nat>)
    modifies dest
    ensures Stored(Encoded(cp), r, old(dest[..]), dest[..], 0)
  {
    if cp <= 0x7F {
      if dest.Length < 1 {
        return Err(DestTooSmall);
      }
      dest[0] := Byte(cp);
      r := Ok(1);
    } else if cp <= 0x7FF {
      if dest.Length < 2 {
        return Err(DestTooSmall);
      }
      dest[0] := Lead(0xC0, cp >> 6);
      dest[1] := Cont(cp);
      r := Ok(2);
    } else if cp <= 0xFFFF {
      if dest.Length < 3 {
        return Err(DestTooSmall);
      }
      dest[0] := Lead(0xE0, cp >> 12);
      dest[1] := Cont(cp >> 6);
      dest[2] := Cont(cp);
      r := Ok(3);
    } else if cp <= MaxCodePoint {
      if dest.Length < 4 {
        return Err(DestTooSmall);
      }
      dest[0] := Lead(0xF0, cp >> 18);
      dest[1] := Cont(cp >> 12);
      dest[2] := Cont(cp >> 6);
      dest[3] := Cont(cp);
      r := Ok(4);
    } else {
      r := Err(OutOfRange);
    }
  }
}
