/** The transcoding routines of Encoding.h (struct Convert). The source
    instantiates them with a codec as a template argument; here a codec is a
    value holding its Decode and the units its Encode writes, and a view that
    the source shortens with remove_prefix is the whole sequence plus an
    offset. */
module Convert {
  import opened Unicode

  /** A codec as the Convert routines use it. */
  datatype Codec<!U> = Codec(decode: seq<U> -> Result<Decoded>, encoded: bv32 -> Result<seq<U>>)

  /** What the routines rely on, and every codec of Encoding.h provides: a
      successful Decode consumes at least one and at most all of the units it
      was given, and an encoding fits the four-unit scratch buffer of
      GetCodeUnitsNum. */
  ghost predicate Sound<U(!new)>(c: Codec<U>) {
    && (forall s :: c.decode(s).Ok? ==> 1 <= c.decode(s).value.length <= |s|)
    && (forall cp :: c.encoded(cp).Ok? ==> 1 <= |c.encoded(cp).value| <= 4)
  }

  /** The codec gives back every scalar value it encodes, whatever follows
      its units. */
  ghost predicate RoundTrips<U(!new)>(c: Codec<U>) {
    forall cp, rest: seq<U> {:trigger c.decode(c.encoded(cp).value + rest)} ::
      IsScalar(cp) && c.encoded(cp).Ok? ==>
        c.decode(c.encoded(cp).value + rest) == Ok(Decoded(cp, |c.encoded(cp).value|))
  }

  /** The result the source returns as a ConvertInfo. */
  datatype ConvertInfo = ConvertInfo(codePointsNum: nat, sourceCodeUnitsNum: nat, destCodeUnitsNum: nat)

  // ---------------------------------------------------------------------------
  // Specification functions

  /** The code points of a whole source, decoded front to back, each with the
      number of units it took; the first failure ends the decoding. */
  function DecodeAll<U(!new)>(c: Codec<U>, s: seq<U>): Result<seq<Decoded>>
    requires Sound(c)
    decreases |s|
  {
    if |s| == 0 then
      Ok([])
    else
      var d :- c.decode(s);
      var ds :- DecodeAll(c, s[d.length..]);
      Ok([d] + ds)
  }

  /** The encodings of a list of code points, one after the other; the first
      code point the codec rejects ends the encoding. */
  function EncodeAll<U>(c: Codec<U>, cps: seq<bv32>): Result<seq<U>> {
    if |cps| == 0 then
      Ok([])
    else
      var u :- c.encoded(cps[0]);
      var us :- EncodeAll(c, cps[1..]);
      Ok(u + us)
  }

  /** `done` in front of a successful result; a failure stays as it is. */
  function Prepend<T>(done: seq<T>, r: Result<seq<T>>): Result<seq<T>> {
    if r.Ok? then Ok(done + r.value) else r
  }

  function CodePoints(ds: seq<Decoded>): (cps: seq<bv32>)
    ensures |cps| == |ds|
  {
    if |ds| == 0 then [] else [ds[0].codePoint] + CodePoints(ds[1..])
  }

  function TotalLength(ds: seq<Decoded>): nat {
    if |ds| == 0 then 0 else ds[0].length + TotalLength(ds[1..])
  }

  /** One round of the conversion: the code point at the front of the source,
      and the units it becomes when they fit into `room` units. */
  datatype Stepped<D> = Stepped(decoded: Decoded, units: seq<D>)

  function Step<S, D>(sc: Codec<S>, dc: Codec<D>, s: seq<S>, room: nat): (r: Result<Stepped<D>>)
    ensures r.Ok? ==> sc.decode(s) == Ok(r.value.decoded) && dc.encoded(r.value.decoded.codePoint) == Ok(r.value.units)
    ensures r.Ok? ==> |r.value.units| <= room
    ensures sc.decode(s).Err? ==> r == Err(sc.decode(s).error)
  {
    var d :- sc.decode(s);
    var u :- dc.encoded(d.codePoint);
    if |u| > room then Err(DestTooSmall) else Ok(Stepped(d, u))
  }

  /** The failures of a round after a successful decode, in the source's
      order: the encoder's own failure, then a destination too small. */
  lemma StepFails<S, D>(sc: Codec<S>, dc: Codec<D>, s: seq<S>, room: nat)
    requires sc.decode(s).Ok?
    ensures dc.encoded(sc.decode(s).value.codePoint).Err? ==>
      Step(sc, dc, s, room) == Err(dc.encoded(sc.decode(s).value.codePoint).error)
    ensures dc.encoded(sc.decode(s).value.codePoint).Ok? ==>
      (Step(sc, dc, s, room).Err? <==> |dc.encoded(sc.decode(s).value.codePoint).value| > room)
    ensures Step(sc, dc, s, room).Err? && dc.encoded(sc.decode(s).value.codePoint).Ok? ==>
      Step(sc, dc, s, room).error == DestTooSmall
  {
  }

  /** What a whole conversion produced: the code points read and the units
      written. */
  datatype Transcoded<D> = Transcoded(codePoints: seq<bv32>, units: seq<D>)

  /** The conversion of a whole source into a destination of `room` units,
      round by round; the first failure, of the decoder, the encoder or the
      room, ends it. */
  function Transcode<S(!new), D>(sc: Codec<S>, dc: Codec<D>, s: seq<S>, room: nat): (r: Result<Transcoded<D>>)
    requires Sound(sc)
    ensures r.Ok? ==> |r.value.units| <= room && |r.value.codePoints| <= |s|
    decreases |s|
  {
    if |s| == 0 then
      Ok(Transcoded([], []))
    else
      var st :- Step(sc, dc, s, room);
      var t :- Transcode(sc, dc, s[st.decoded.length..], room - |st.units|);
      Ok(Transcoded([st.decoded.codePoint] + t.codePoints, st.units + t.units))
  }

  /** `cps` and `units` in front of a successful conversion. */
  function Then<D>(cps: seq<bv32>, units: seq<D>, r: Result<Transcoded<D>>): Result<Transcoded<D>> {
    if r.Ok? then Ok(Transcoded(cps + r.value.codePoints, units + r.value.units)) else r
  }

  /** Decoding the whole source first, then encoding all its code points, then
      checking the room. */
  function Phased<S(!new), D>(sc: Codec<S>, dc: Codec<D>, s: seq<S>, room: nat): Result<Transcoded<D>>
    requires Sound(sc)
  {
    var ds :- DecodeAll(sc, s);
    var units :- EncodeAll(dc, CodePoints(ds));
    if |units| <= room then Ok(Transcoded(CodePoints(ds), units)) else Err(DestTooSmall)
  }

  /** Both succeed or both fail, and when they succeed they agree. */
  ghost predicate SameOutcome<D>(r: Result<Transcoded<D>>, r': Result<Transcoded<D>>) {
    (r.Ok? <==> r'.Ok?) && (r.Ok? ==> r == r')
  }

  // ---------------------------------------------------------------------------
  // Properties of the specification functions

  lemma PrependNothing<T>(r: Result<seq<T>>)
    ensures Prepend([], r) == r
  {
    if r.Ok? {
      assert [] + r.value == r.value;
    }
  }

  lemma PrependPrepend<T>(a: seq<T>, b: seq<T>, r: Result<seq<T>>)
    ensures Prepend(a, Prepend(b, r)) == Prepend(a + b, r)
  {
    if r.Ok? {
      assert a + (b + r.value) == (a + b) + r.value;
    }
  }

  lemma ThenNothing<D>(r: Result<Transcoded<D>>)
    ensures Then([], [], r) == r
  {
    if r.Ok? {
      assert [] + r.value.codePoints == r.value.codePoints;
      assert [] + r.value.units == r.value.units;
    }
  }

  /** The lengths of the decoded code points add up to the whole source. */
  lemma {:induction false} DecodeAllCovers<U(!new)>(c: Codec<U>, s: seq<U>)
    requires Sound(c) && DecodeAll(c, s).Ok?
    ensures TotalLength(DecodeAll(c, s).value) == |s|
    decreases |s|
  {
    if |s| > 0 {
      var d := c.decode(s).value;
      DecodeAllCovers(c, s[d.length..]);
    }
  }

  /** Converting round by round succeeds exactly when decoding the whole
      source succeeds, encoding all its code points succeeds and the units fit
      the room; it then reads those code points and writes those units. Only
      which failure is reported depends on the interleaving. */
  lemma {:induction false} TranscodeSplits<S(!new), D>(sc: Codec<S>, dc: Codec<D>, s: seq<S>, room: nat)
    requires Sound(sc)
    ensures SameOutcome(Transcode(sc, dc, s, room), Phased(sc, dc, s, room))
    decreases |s|
  {
    if |s| == 0 {
      assert CodePoints([]) == [];
    } else if sc.decode(s).Err? {
      TranscodeErr(sc, dc, s, room);
      assert DecodeAll(sc, s).Err?;
    } else {
      var d := sc.decode(s).value;
      PhasedStep(sc, dc, s, room);
      if dc.encoded(d.codePoint).Ok? && |dc.encoded(d.codePoint).value| <= room {
        var u := dc.encoded(d.codePoint).value;
        var rest, left := s[d.length..], room - |u|;
        TranscodeSplits(sc, dc, rest, left);
        TranscodeOk(sc, dc, s, room, Stepped(d, u));
        ThenAgree([d.codePoint], u, Transcode(sc, dc, rest, left), Phased(sc, dc, rest, left));
      } else {
        TranscodeErr(sc, dc, s, room);
      }
    }
  }

  /** Results of the same outcome keep it with the same code points and
      units in front. */
  lemma ThenAgree<D>(cps: seq<bv32>, units: seq<D>, r: Result<Transcoded<D>>, r': Result<Transcoded<D>>)
    requires SameOutcome(r, r')
    ensures SameOutcome(Then(cps, units, r), Then(cps, units, r'))
  {
  }

  /** Phased after its first code point: the whole source succeeds when the
      first encoding fits and the rest succeeds in the room left after it. */
  lemma PhasedStep<S(!new), D>(sc: Codec<S>, dc: Codec<D>, s: seq<S>, room: nat)
    requires Sound(sc) && |s| > 0 && sc.decode(s).Ok?
    ensures dc.encoded(sc.decode(s).value.codePoint).Err? ==> Phased(sc, dc, s, room).Err?
    ensures dc.encoded(sc.decode(s).value.codePoint).Ok? ==>
      var d := sc.decode(s).value;
      var u := dc.encoded(d.codePoint).value;
      && (Phased(sc, dc, s, room).Ok? ==> |u| <= room)
      && (|u| <= room ==> Phased(sc, dc, s, room) == Then([d.codePoint], u, Phased(sc, dc, s[d.length..], room - |u|)))
  {
    var d := sc.decode(s).value;
    var rest := s[d.length..];
    DecodeAllStep(sc, s);
    if DecodeAll(sc, rest).Ok? {
      var ds := DecodeAll(sc, rest).value;
      assert DecodeAll(sc, s) == Ok([d] + ds);
      EncodeAllStep(dc, d, ds);
    }
  }

  /** A failed first round ends the conversion with its error. */
  lemma TranscodeErr<S(!new), D>(sc: Codec<S>, dc: Codec<D>, s: seq<S>, room: nat)
    requires Sound(sc) && |s| > 0 && Step(sc, dc, s, room).Err?
    ensures Transcode(sc, dc, s, room) == Err(Step(sc, dc, s, room).error)
  {
  }

  /** A successful first round: what it decoded lies within the source and
      what it encoded within the room, and the rest of the conversion follows
      it. */
  lemma TranscodeOk<S(!new), D>(sc: Codec<S>, dc: Codec<D>, s: seq<S>, room: nat, st: Stepped<D>)
    requires Sound(sc) && |s| > 0 && Step(sc, dc, s, room) == Ok(st)
    ensures 1 <= st.decoded.length <= |s| && |st.units| <= room
    ensures Transcode(sc, dc, s, room) == Then([st.decoded.codePoint], st.units, Transcode(sc, dc, s[st.decoded.length..], room - |st.units|))
  {
  }

  /** One successful round of TransCodes moves a code point and its units
      from the conversion still to do to the part already done. */
  lemma Advance<S(!new), D>(sc: Codec<S>, dc: Codec<D>, source: seq<S>, room: nat,
                            k0: nat, cps0: seq<bv32>, units0: seq<D>, k: nat, cps: seq<bv32>, units: seq<D>,
                            st: Stepped<D>)
    requires Sound(sc) && k0 < |source| && |units0| <= room
    requires Step(sc, dc, source[k0..], room - |units0|) == Ok(st)
    requires k == k0 + st.decoded.length && cps == cps0 + [st.decoded.codePoint] && units == units0 + st.units
    ensures k0 < k <= |source| && |units| <= room
    ensures Then(cps0, units0, Transcode(sc, dc, source[k0..], room - |units0|))
         == Then(cps, units, Transcode(sc, dc, source[k..], room - |units|))
  {
    var rest := source[k0..];
    var left := room - |units0|;
    TranscodeOk(sc, dc, rest, left, st);
    assert rest[st.decoded.length..] == source[k..];
    assert left - |st.units| == room - |units|;
    var tail := Transcode(sc, dc, source[k..], room - |units|);
    ThenThen(cps0, units0, [st.decoded.codePoint], st.units, tail);
  }

  /** A failed round of TransCodes ends the whole conversion with its error. */
  lemma Stop<S(!new), D>(sc: Codec<S>, dc: Codec<D>, source: seq<S>, k: nat, cps: seq<bv32>, units: seq<D>, room: nat)
    requires Sound(sc) && k < |source| && |units| <= room
    requires Step(sc, dc, source[k..], room - |units|).Err?
    ensures Then(cps, units, Transcode(sc, dc, source[k..], room - |units|)) == Err(Step(sc, dc, source[k..], room - |units|).error)
  {
    TranscodeErr(sc, dc, source[k..], room - |units|);
  }

  /** Before the first round nothing is done and all is still to do. */
  lemma Start<S(!new), D>(sc: Codec<S>, dc: Codec<D>, source: seq<S>, room: nat, cps: seq<bv32>, units: seq<D>)
    requires Sound(sc) && cps == [] && units == []
    ensures Transcode(sc, dc, source, room) == Then(cps, units, Transcode(sc, dc, source[0..], room - |units|))
  {
    assert source[0..] == source;
    ThenNothing(Transcode(sc, dc, source, room));
  }

  lemma ThenDone<D>(cps: seq<bv32>, units: seq<D>, r: Result<Transcoded<D>>)
    requires r == Ok(Transcoded([], []))
    ensures Then(cps, units, r) == Ok(Transcoded(cps, units))
  {
    assert cps + [] == cps;
    assert units + [] == units;
  }

  lemma ThenThen<D>(cps: seq<bv32>, units: seq<D>, cps': seq<bv32>, units': seq<D>, r: Result<Transcoded<D>>)
    ensures Then(cps, units, Then(cps', units', r)) == Then(cps + cps', units + units', r)
  {
    if r.Ok? {
      assert cps + (cps' + r.value.codePoints) == (cps + cps') + r.value.codePoints;
      assert units + (units' + r.value.units) == (units + units') + r.value.units;
    }
  }

  /** Writing `u` after `units` into a destination that begins with `units`. */
  lemma Splice<T>(units: seq<T>, u: seq<T>, original: seq<T>, current: seq<T>)
    requires |units| + |u| <= |original|
    requires current == units + original[|units|..]
    ensures current[..|units|] + u + current[|units| + |u|..] == (units + u) + original[|units + u|..]
  {
    assert current[..|units|] == units;
    assert current[|units| + |u|..] == original[|units| + |u|..];
  }

  lemma DecodeAllStep<U(!new)>(c: Codec<U>, s: seq<U>)
    requires Sound(c) && |s| > 0 && c.decode(s).Ok?
    ensures DecodeAll(c, s) == Prepend([c.decode(s).value], DecodeAll(c, s[c.decode(s).value.length..]))
  {
  }

  lemma EncodeAllStep<U>(c: Codec<U>, d: Decoded, ds: seq<Decoded>)
    ensures CodePoints([d] + ds) == [d.codePoint] + CodePoints(ds)
    ensures c.encoded(d.codePoint).Err? ==> EncodeAll(c, CodePoints([d] + ds)) == Err(c.encoded(d.codePoint).error)
    ensures c.encoded(d.codePoint).Ok? ==>
      EncodeAll(c, CodePoints([d] + ds)) == Prepend(c.encoded(d.codePoint).value, EncodeAll(c, CodePoints(ds)))
  {
    var cps := CodePoints([d] + ds);
    assert cps[0] == d.codePoint;
    assert cps[1..] == CodePoints(ds);
  }

  /** Encoding the list of code points a source decodes to, with a codec that
      gives back what it encodes, and decoding the units again gives back the
      same code points: N encodings one after the other decode to N code
      points. */
  lemma {:induction false} DecodeEncodings<U(!new)>(c: Codec<U>, cps: seq<bv32>)
    requires Sound(c) && RoundTrips(c)
    requires forall i :: 0 <= i < |cps| ==> IsScalar(cps[i])
    requires EncodeAll(c, cps).Ok?
    ensures DecodeAll(c, EncodeAll(c, cps).value).Ok?
    ensures CodePoints(DecodeAll(c, EncodeAll(c, cps).value).value) == cps
    decreases |cps|
  {
    if |cps| > 0 {
      var u := c.encoded(cps[0]).value;
      var tail := cps[1..];
      var us := EncodeAll(c, tail).value;
      DecodeEncodings(c, tail);
      var s := u + us;
      assert c.decode(u + us) == Ok(Decoded(cps[0], |u|));
      assert s[|u|..] == us;
      var ds := DecodeAll(c, us).value;
      assert DecodeAll(c, s) == Ok([Decoded(cps[0], |u|)] + ds);
      assert CodePoints([Decoded(cps[0], |u|)] + ds) == [cps[0]] + CodePoints(ds);
      assert [cps[0]] + cps[1..] == cps;
    }
  }

  /** Converting from a codec that yields scalar values into one that gives
      back what it encodes loses nothing: decoding the written units gives
      back the code points that were read. */
  lemma TranscodeThenDecode<S(!new), D(!new)>(sc: Codec<S>, dc: Codec<D>, s: seq<S>, room: nat)
    requires Sound(sc) && Sound(dc) && RoundTrips(dc)
    requires Transcode(sc, dc, s, room).Ok?
    requires forall i :: 0 <= i < |Transcode(sc, dc, s, room).value.codePoints| ==>
      IsScalar(Transcode(sc, dc, s, room).value.codePoints[i])
    ensures DecodeAll(dc, Transcode(sc, dc, s, room).value.units).Ok?
    ensures CodePoints(DecodeAll(dc, Transcode(sc, dc, s, room).value.units).value)
         == Transcode(sc, dc, s, room).value.codePoints
  {
    TranscodeSplits(sc, dc, s, room);
    DecodeEncodings(dc, Transcode(sc, dc, s, room).value.codePoints);
  }

  // ---------------------------------------------------------------------------
  // The routines

  /** DestCoding::Encode on the part of `dest` from `at` on (the template
      dispatch of the source): the codec's units go to dest[at..], when they
      fit. */
  method EncodeAt<U>(c: Codec<U>, cp: bv32, dest: array<U>, at: nat) returns (r: Result<nat>)
    modifies dest
    ensures Stored(c.encoded(cp), r, old(dest[..]), dest[..], at)
  {
    var e := c.encoded(cp);
    if e.Err? {
      return Err(e.error);
    }
    var units := e.value;
    if at + |units| > dest.Length {
      return Err(DestTooSmall);
    }
    forall i | 0 <= i < |units| {
      dest[at + i] := units[i];
    }
    assert dest[..] == old(dest[..])[..at] + units + old(dest[..])[at + |units|..];
    r := Ok(|units|);
  }

  /** Convert::GetCodePointsNum: the number of code points in the source. */
  method GetCodePointsNum<U(!new)>(c: Codec<U>, source: seq<U>) returns (r: Result<nat>)
    requires Sound(c)
    ensures DecodeAll(c, source).Ok? ==> r == Ok(|DecodeAll(c, source).value|)
    ensures DecodeAll(c, source).Err? ==> r == Err(DecodeAll(c, source).error)
  {
    var codePointsNum := 0;
    var sumDecodedCodeUnitsNum := 0;
    ghost var done: seq<Decoded> := [];
    assert source[0..] == source;
    PrependNothing(DecodeAll(c, source));
    while sumDecodedCodeUnitsNum < |source|
      invariant sumDecodedCodeUnitsNum <= |source|
      invariant codePointsNum == |done|
      invariant DecodeAll(c, source) == Prepend(done, DecodeAll(c, source[sumDecodedCodeUnitsNum..]))
      decreases |source| - sumDecodedCodeUnitsNum
    {
      var d := c.decode(source[sumDecodedCodeUnitsNum..]);
      if d.Err? {
        CountStop(c, source, sumDecodedCodeUnitsNum, done);
        return Err(d.error);
      }
      CountStep(c, source, sumDecodedCodeUnitsNum, done, d.value);
      done := done + [d.value];
      sumDecodedCodeUnitsNum := sumDecodedCodeUnitsNum + d.value.length;
      codePointsNum := codePointsNum + 1;
    }
    assert source[sumDecodedCodeUnitsNum..] == [];
    r := Ok(codePointsNum);
  }

  /** A code point decoded from the front of what is left moves to the part
      already counted. */
  lemma CountStep<U(!new)>(c: Codec<U>, source: seq<U>, k: nat, done: seq<Decoded>, d: Decoded)
    requires Sound(c) && k < |source| && c.decode(source[k..]) == Ok(d)
    requires DecodeAll(c, source) == Prepend(done, DecodeAll(c, source[k..]))
    ensures k < k + d.length <= |source|
    ensures DecodeAll(c, source) == Prepend(done + [d], DecodeAll(c, source[k + d.length..]))
  {
    var rest := source[k..];
    var after := rest[d.length..];
    assert after == source[k + d.length..];
    DecodeAllStep(c, rest);
    PrependPrepend(done, [d], DecodeAll(c, after));
  }

  /** A failed decoding ends the count with its error. */
  lemma CountStop<U(!new)>(c: Codec<U>, source: seq<U>, k: nat, done: seq<Decoded>)
    requires Sound(c) && k < |source| && c.decode(source[k..]).Err?
    requires DecodeAll(c, source) == Prepend(done, DecodeAll(c, source[k..]))
    ensures DecodeAll(c, source) == Err(c.decode(source[k..]).error)
  {
  }

  /** How many units the code points take when each is encoded on its own
      into a scratch view of `room` units; the first code point the codec
      rejects, or whose units do not fit the view, ends the count. */
  function UnitsNum<U>(c: Codec<U>, cps: seq<bv32>, room: nat): Result<nat> {
    if |cps| == 0 then
      Ok(0)
    else
      var u :- c.encoded(cps[0]);
      if |u| > room then
        Err(DestTooSmall)
      else
        var n :- UnitsNum(c, cps[1..], room);
        Ok(|u| + n)
  }

  /** `n` added to a successful count; a failure stays as it is. */
  function Add(n: nat, r: Result<nat>): Result<nat> {
    if r.Ok? then Ok(n + r.value) else r
  }

  /** With a view of four units or more, which every encoding fits, the count
      is the length of all the encodings one after the other, and it fails
      with the first code point the codec rejects. */
  lemma {:induction false} UnitsNumOfEncodeAll<U(!new)>(c: Codec<U>, cps: seq<bv32>, room: nat)
    requires Sound(c) && room >= 4
    ensures EncodeAll(c, cps).Ok? ==> UnitsNum(c, cps, room) == Ok(|EncodeAll(c, cps).value|)
    ensures EncodeAll(c, cps).Err? ==> UnitsNum(c, cps, room) == Err(EncodeAll(c, cps).error)
    decreases |cps|
  {
    if |cps| > 0 && c.encoded(cps[0]).Ok? {
      var u, tail := c.encoded(cps[0]).value, cps[1..];
      EncodedFits(c, cps[0]);
      UnitsNumOfEncodeAll(c, tail, room);
      assert UnitsNum(c, cps, room) == Add(|u|, UnitsNum(c, tail, room));
      assert EncodeAll(c, cps) == Prepend(u, EncodeAll(c, tail));
    }
  }

  /** With an empty view, the count fails at the first code point: as a
      destination too small when the codec encodes it, with the codec's own
      failure otherwise. */
  lemma EmptyViewFails<U(!new)>(c: Codec<U>, cps: seq<bv32>)
    requires Sound(c) && |cps| > 0
    ensures c.encoded(cps[0]).Ok? ==> UnitsNum(c, cps, 0) == Err(DestTooSmall)
    ensures c.encoded(cps[0]).Err? ==> UnitsNum(c, cps, 0) == Err(c.encoded(cps[0]).error)
  {
    if c.encoded(cps[0]).Ok? {
      EncodedFits(c, cps[0]);
    }
  }

  /** What Sound promises of one encoding. */
  lemma EncodedFits<U(!new)>(c: Codec<U>, cp: bv32)
    requires Sound(c) && c.encoded(cp).Ok?
    ensures 1 <= |c.encoded(cp).value| <= 4
  {
  }

  /** The loop of Convert::GetCodeUnitsNum: each code point encoded on its
      own into the view `scratch`, the counts summed. */
  method CountUnits<U>(c: Codec<U>, codePoints: seq<bv32>, scratch: array<U>) returns (r: Result<nat>)
    modifies scratch
    ensures r == UnitsNum(c, codePoints, scratch.Length)
  {
    var sumCodeUnitsNum := 0;
    assert codePoints[0..] == codePoints;
    for i := 0 to |codePoints|
      invariant UnitsNum(c, codePoints, scratch.Length) == Add(sumCodeUnitsNum, UnitsNum(c, codePoints[i..], scratch.Length))
    {
      var n := EncodeAt(c, codePoints[i], scratch, 0);
      CountUnitsStep(c, codePoints, i, scratch.Length, sumCodeUnitsNum, n);
      if n.Err? {
        return Err(n.error);
      }
      sumCodeUnitsNum := sumCodeUnitsNum + n.value;
    }
    assert codePoints[|codePoints|..] == [];
    r := Ok(sumCodeUnitsNum);
  }

  /** One round of CountUnits: what EncodeAt returned for code point `i`
      either ends the count with its failure or adds its units. */
  lemma CountUnitsStep<U>(c: Codec<U>, codePoints: seq<bv32>, i: nat, room: nat, sum: nat, n: Result<nat>)
    requires i < |codePoints|
    requires n.Err? <==> c.encoded(codePoints[i]).Err? || |c.encoded(codePoints[i]).value| > room
    requires c.encoded(codePoints[i]).Err? ==> n == Err(c.encoded(codePoints[i]).error)
    requires c.encoded(codePoints[i]).Ok? && |c.encoded(codePoints[i]).value| > room ==> n == Err(DestTooSmall)
    requires n.Ok? ==> n.value == |c.encoded(codePoints[i]).value|
    requires UnitsNum(c, codePoints, room) == Add(sum, UnitsNum(c, codePoints[i..], room))
    ensures n.Err? ==> UnitsNum(c, codePoints, room) == Err(n.error)
    ensures n.Ok? ==> UnitsNum(c, codePoints, room) == Add(sum + n.value, UnitsNum(c, codePoints[i + 1..], room))
  {
    var rest := codePoints[i..];
    assert rest[1..] == codePoints[i + 1..];
  }

  /** Convert::GetCodeUnitsNum with its scratch buffer used as a view of four
      units, as the routine evidently intends: the number of units the code
      points encode to, or the first encoding failure. */
  method GetCodeUnitsNum<U(0, !new)>(c: Codec<U>, codePoints: seq<bv32>) returns (r: Result<nat>)
    requires Sound(c)
    ensures EncodeAll(c, codePoints).Ok? ==> r == Ok(|EncodeAll(c, codePoints).value|)
    ensures EncodeAll(c, codePoints).Err? ==> r == Err(EncodeAll(c, codePoints).error)
  {
    var buffer := new U[4];
    r := CountUnits(c, codePoints, buffer);
    UnitsNumOfEncodeAll(c, codePoints, 4);
  }

  /** Convert::GetCodeUnitsNum as written: the zeroed buffer is passed where a
      view is expected, and the view constructor that takes a pointer measures
      it up to its first zero unit, so every Encode gets an empty view. The
      first code point the codec encodes is then reported as a destination
      too small, and no list but the empty one is counted. */
  method GetCodeUnitsNumAsWritten<U(0, !new)>(c: Codec<U>, codePoints: seq<bv32>) returns (r: Result<nat>)
    requires Sound(c)
    ensures |codePoints| == 0 ==> r == Ok(0)
    ensures |codePoints| > 0 && c.encoded(codePoints[0]).Ok? ==> r == Err(DestTooSmall)
    ensures |codePoints| > 0 && c.encoded(codePoints[0]).Err? ==> r == Err(c.encoded(codePoints[0]).error)
  {
    var view := new U[0];
    r := CountUnits(c, codePoints, view);
    if |codePoints| > 0 {
      EmptyViewFails(c, codePoints);
    }
  }

  /** What TransCode reports for a round: one code point, the units it read
      and the units it wrote. */
  function Info<D>(st: Result<Stepped<D>>): (r: Result<ConvertInfo>)
    ensures r.Ok? <==> st.Ok?
    ensures st.Err? ==> r.error == st.error
    ensures st.Ok? ==> r.value == ConvertInfo(1, st.value.decoded.length, |st.value.units|)
  {
    if st.Ok? then Ok(ConvertInfo(1, st.value.decoded.length, |st.value.units|)) else Err(st.error)
  }

  /** `dest` after a round that writes at `at`: its units there on success,
      unchanged otherwise. */
  function Written<D>(dest: seq<D>, at: nat, st: Result<Stepped<D>>): seq<D>
    requires st.Ok? ==> at + |st.value.units| <= |dest|
    requires at <= |dest|
  {
    if st.Ok? then dest[..at] + st.value.units + dest[at + |st.value.units|..] else dest
  }

  /** Convert::TransCode: one code point from the front of the source view
      `source[from..]` to the front of the destination view `dest[at..]`. */
  method TransCode<S, D>(sc: Codec<S>, dc: Codec<D>, source: seq<S>, from: nat, dest: array<D>, at: nat)
    returns (r: Result<ConvertInfo>)
    requires from <= |source| && at <= dest.Length
    modifies dest
    ensures Step(sc, dc, source[from..], dest.Length - at).Ok? ==>
      at + |Step(sc, dc, source[from..], dest.Length - at).value.units| <= dest.Length
    ensures r == Info(Step(sc, dc, source[from..], dest.Length - at))
    ensures Step(sc, dc, source[from..], dest.Length - at).Ok? ==>
      r == Ok(ConvertInfo(1, Step(sc, dc, source[from..], dest.Length - at).value.decoded.length,
                          |Step(sc, dc, source[from..], dest.Length - at).value.units|))
    ensures Step(sc, dc, source[from..], dest.Length - at).Err? ==>
      r == Err(Step(sc, dc, source[from..], dest.Length - at).error)
    ensures dest[..] == Written(old(dest[..]), at, Step(sc, dc, source[from..], dest.Length - at))
  {
    var d := sc.decode(source[from..]);
    if d.Err? {
      return Err(d.error);
    }
    var n := EncodeAt(dc, d.value.codePoint, dest, at);
    if n.Err? {
      return Err(n.error);
    }
    r := Ok(ConvertInfo(1, d.value.length, n.value));
  }

  /** The ConvertInfo a whole conversion of `n` source units reports. */
  function Report<D>(t: Result<Transcoded<D>>, n: nat): (r: Result<ConvertInfo>)
    ensures r.Ok? <==> t.Ok?
  {
    if t.Ok? then Ok(ConvertInfo(|t.value.codePoints|, n, |t.value.units|)) else Err(t.error)
  }

  /** Part way through TransCodes: `cps` and `units` are done, the source
      from `k` on is still to convert into the room left after `units`, and
      the two together make `goal`. */
  ghost predicate Midway<S(!new), D>(sc: Codec<S>, dc: Codec<D>, source: seq<S>, room: nat,
                                     goal: Result<Transcoded<D>>, k: nat, cps: seq<bv32>, units: seq<D>)
    requires Sound(sc)
  {
    k <= |source| && |units| <= room && goal == Then(cps, units, Transcode(sc, dc, source[k..], room - |units|))
  }

  lemma Begin<S(!new), D>(sc: Codec<S>, dc: Codec<D>, source: seq<S>, room: nat, goal: Result<Transcoded<D>>)
    requires Sound(sc) && goal == Transcode(sc, dc, source, room)
    ensures Midway(sc, dc, source, room, goal, 0, [], [])
  {
    Start(sc, dc, source, room, [], []);
  }

  lemma Round<S(!new), D>(sc: Codec<S>, dc: Codec<D>, source: seq<S>, room: nat, goal: Result<Transcoded<D>>,
                          k: nat, cps: seq<bv32>, units: seq<D>, st: Stepped<D>,
                          k': nat, cps': seq<bv32>, units': seq<D>,
                          original: seq<D>, before: seq<D>, current: seq<D>)
    requires Sound(sc) && Midway(sc, dc, source, room, goal, k, cps, units) && k < |source|
    requires Step(sc, dc, source[k..], room - |units|) == Ok(st)
    requires |units| + |st.units| <= room == |original| && before == units + original[|units|..]
    requires current == Written(before, |units|, Ok(st))
    requires k' == k + st.decoded.length && cps' == cps + [st.decoded.codePoint] && units' == units + st.units
    ensures Midway(sc, dc, source, room, goal, k', cps', units') && k < k'
    ensures current == units' + original[|units'|..]
  {
    Advance(sc, dc, source, room, k, cps, units, k', cps', units', st);
    Splice(units, st.units, original, before);
  }

  lemma Halt<S(!new), D>(sc: Codec<S>, dc: Codec<D>, source: seq<S>, room: nat, goal: Result<Transcoded<D>>,
                         k: nat, cps: seq<bv32>, units: seq<D>)
    requires Sound(sc) && Midway(sc, dc, source, room, goal, k, cps, units) && k < |source|
    requires Step(sc, dc, source[k..], room - |units|).Err?
    ensures goal == Err(Step(sc, dc, source[k..], room - |units|).error)
  {
    Stop(sc, dc, source, k, cps, units, room);
  }

  lemma Finish<S(!new), D>(sc: Codec<S>, dc: Codec<D>, source: seq<S>, room: nat, goal: Result<Transcoded<D>>,
                           k: nat, cps: seq<bv32>, units: seq<D>)
    requires Sound(sc) && Midway(sc, dc, source, room, goal, k, cps, units) && k == |source|
    ensures goal == Ok(Transcoded(cps, units))
  {
    assert source[k..] == [];
    ThenDone(cps, units, Transcode(sc, dc, source[k..], room - |units|));
  }

  /** Convert::TransCodes: the whole source into the destination, one
      TransCode round after the other on the views that remain. On success the
      destination starts with the units written and is unchanged after them. */
  method TransCodes<S(!new), D>(sc: Codec<S>, dc: Codec<D>, source: seq<S>, dest: array<D>) returns (r: Result<ConvertInfo>)
    requires Sound(sc)
    modifies dest
    ensures r == Report(Transcode(sc, dc, source, dest.Length), |source|)
    ensures Transcode(sc, dc, source, dest.Length).Ok? ==>
      r == Ok(ConvertInfo(|Transcode(sc, dc, source, dest.Length).value.codePoints|, |source|,
                          |Transcode(sc, dc, source, dest.Length).value.units|))
    ensures Transcode(sc, dc, source, dest.Length).Err? ==> r == Err(Transcode(sc, dc, source, dest.Length).error)
    ensures r.Ok? ==> dest[..] == Transcode(sc, dc, source, dest.Length).value.units + old(dest[..])[r.value.destCodeUnitsNum..]
  {
    var codePointsNum := 0;
    var sumDecodedSourceCodeUnitsNum := 0;
    var sumEncodedDestCodeUnitsNum := 0;
    ghost var cps: seq<bv32> := [];
    ghost var units: seq<D> := [];
    ghost var original := dest[..];
    ghost var goal := Transcode(sc, dc, source, dest.Length);
    Begin(sc, dc, source, dest.Length, goal);
    while sumDecodedSourceCodeUnitsNum < |source|
      invariant Midway(sc, dc, source, dest.Length, goal, sumDecodedSourceCodeUnitsNum, cps, units)
      invariant sumEncodedDestCodeUnitsNum == |units| && codePointsNum == |cps|
      invariant dest[..] == units + original[|units|..]
      decreases |source| - sumDecodedSourceCodeUnitsNum
    {
      ghost var before := dest[..];
      var info := TransCode(sc, dc, source, sumDecodedSourceCodeUnitsNum, dest, sumEncodedDestCodeUnitsNum);
      if info.Err? {
        Halt(sc, dc, source, dest.Length, goal, sumDecodedSourceCodeUnitsNum, cps, units);
        return Err(info.error);
      }
      ghost var st := Step(sc, dc, source[sumDecodedSourceCodeUnitsNum..], dest.Length - sumEncodedDestCodeUnitsNum).value;
      ghost var k, cps0, units0 := sumDecodedSourceCodeUnitsNum, cps, units;
      sumDecodedSourceCodeUnitsNum := sumDecodedSourceCodeUnitsNum + info.value.sourceCodeUnitsNum;
      sumEncodedDestCodeUnitsNum := sumEncodedDestCodeUnitsNum + info.value.destCodeUnitsNum;
      codePointsNum := codePointsNum + info.value.codePointsNum;
      cps := cps + [st.decoded.codePoint];
      units := units + st.units;
      Round(sc, dc, source, dest.Length, goal, k, cps0, units0, st, sumDecodedSourceCodeUnitsNum, cps, units, original, before, dest[..]);
    }
    Finish(sc, dc, source, dest.Length, goal, sumDecodedSourceCodeUnitsNum, cps, units);
    r := Ok(ConvertInfo(codePointsNum, sumDecodedSourceCodeUnitsNum, sumEncodedDestCodeUnitsNum));
  }
}
