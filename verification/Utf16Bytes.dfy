/** UTF-16 in bytes, big-endian or little-endian (RFC 2781), to and from UCS-4.  The source has each
    function twice, once for each byte order; here the order is a parameter.
  */
module Utf16Bytes {
  import opened Transcoding
  import opened Utf8
  import opened Utf16

  function High8(u: Unit): Byte { (u >> 8) as Byte }

  function Low8(u: Unit): Byte { (u & 0xFF) as Byte }

  function Glue(high: Byte, low: Byte): Unit { (high as Unit << 8) | low as Unit }

  function UnitBytes(u: Unit, big: bool): seq<Byte> {
    if big then [High8(u), Low8(u)] else [Low8(u), High8(u)]
  }

  function UnitAt(s: seq<Byte>, i: nat, big: bool): Unit
    requires i + 1 < |s|
  {
    if big then Glue(s[i], s[i + 1]) else Glue(s[i + 1], s[i])
  }

  lemma Glued(u: Unit)
    ensures Glue(High8(u), Low8(u)) == u
  {
  }

  lemma Unglued(high: Byte, low: Byte)
    ensures High8(Glue(high, low)) == high && Low8(Glue(high, low)) == low
  {
  }

  /** The bytes of one character's units. */
  function BytesOf(c: Code, big: bool): seq<Byte> {
    if c < 0x10000 then UnitBytes(Low16(c), big) else UnitBytes(Lead(c), big) + UnitBytes(Trail(c), big)
  }

  function Encoding(big: bool): Code -> seq<Byte> {
    c => BytesOf(c, big)
  }

  lemma BytesByLength(c: Code, big: bool)
    ensures c < 0x10000 ==> BytesOf(c, big) == UnitBytes(Low16(c), big)
    ensures c >= 0x10000 ==> BytesOf(c, big) == UnitBytes(Lead(c), big) + UnitBytes(Trail(c), big)
    ensures |BytesOf(c, big)| == if c < 0x10000 then 2 else 4
  {
  }

  // ----- UCS-4 to UTF-16 bytes -----

  /** The two units that the encoder computes for a character above 0xFFFF. */
  function LeadBits(c: Code): Unit {
    Low16(0xD800 | ((((c & 0x1F0000) >> 16) - 1) << 6) | ((c & 0x00FC00) >> 10))
  }

  function TrailBits(c: Code): Unit {
    Low16(0xDC00 | (c & 0x03FF))
  }

  lemma PairOfBits(c: Code)
    requires 0x10000 <= c <= 0x10FFFF
    ensures LeadBits(c) == Lead(c) && TrailBits(c) == Trail(c)
  {
  }

  function WrittenBytes(c: Code, big: bool): seq<Byte> {
    if c < 0x10000 then UnitBytes(Low16(c), big) else UnitBytes(LeadBits(c), big) + UnitBytes(TrailBits(c), big)
  }

  lemma WrittenIsEncoding(c: Code, big: bool)
    requires c <= 0x10FFFF
    ensures WrittenBytes(c, big) == BytesOf(c, big)
  {
    hide LeadBits, TrailBits, Lead, Trail, Low16, UnitBytes;
    if c >= 0x10000 {
      PairOfBits(c);
    }
  }

  /** ucs4_to_utf16be and ucs4_to_utf16le at the front of the remaining input. */
  function WideStep(s: seq<Code>, room: nat, max: Code, big: bool): Step<Byte> {
    if s == [] then Stop(Ok)
    else if Refused(s[0], max) then Stop(Error)
    else Put(WrittenBytes(s[0], big), 1, room)
  }

  function WideEncoder(max: Code, big: bool): Converter<Code, Byte> {
    (s: seq<Code>, room: nat) => WideStep(s, room, max, big)
  }

  /** What the encoder writes for any code; above 0x10FFFF there is no UTF-16. */
  function Written(big: bool): Code -> seq<Byte> {
    c => WrittenBytes(c, big)
  }

  lemma RefusedIsNotEncodable(c: Code, max: Code)
    ensures Refused(c, max) <==> !Encodable(max)(c)
  {
    hide IsSurrogate, Middle, Upper, Last, Tail2, Tail3, Continuation;
    MaskedContinuations(c);
  }

  lemma WideStepIs(s: seq<Code>, room: nat, max: Code, big: bool)
    ensures s != [] ==>
      WideStep(s, room, max, big) == if Encodable(max)(s[0]) then Put(WrittenBytes(s[0], big), 1, room) else Stop(Error)
    ensures WideStep(s, room, max, big) == Stop(Ok) <==> s == []
  {
    hide WrittenBytes, Refused, Encodable;
    if s != [] {
      RefusedIsNotEncodable(s[0], max);
    }
  }

  lemma WideEncoderIsSound(max: Code, big: bool)
    ensures Sound(WideEncoder(max, big))
  {
    hide WrittenBytes, Refused;
    forall s, room ensures Progresses(WideEncoder(max, big), s, room) {
    }
  }

  /** The encoders write every code within Maxcode that is no surrogate, every character as its
      UTF-16, and reject the rest. */
  lemma WideEncoderTranslates(max: Code, big: bool)
    ensures Translates(WideEncoder(max, big), Single, Written(big), Encodable(max))
    ensures Sound(WideEncoder(max, big)) && Monotone(WideEncoder(max, big))
    ensures forall c: Code :: c <= 0x10FFFF ==> Written(big)(c) == Encoding(big)(c)
  {
    hide WideStep, WrittenBytes, BytesOf, IsSurrogate;
    var step, write, fit := WideEncoder(max, big), Written(big), Encodable(max);
    forall c: Code | c <= 0x10FFFF ensures Written(big)(c) == Encoding(big)(c) {
      WrittenIsEncoding(c, big);
    }
    forall s, room ensures OkOnlyAtTheEnd(step, s, room) {
      WideStepIs(s, room, max, big);
    }
    forall s, room ensures EmitsOnlyCharacters(step, Single, write, fit, s, room) {
      WideStepIs(s, room, max, big);
      if s != [] && fit(s[0]) {
        assert Front(Single, fit, s, s[0]);
      }
    }
    forall c, s, room ensures EmitsCharacter(step, Single, write, fit, c, s, room) {
      if Front(Single, fit, s, c) {
        assert s[..1][0] == c;
        WideStepIs(s, room, max, big);
      }
    }
    forall s, t, less: nat, more: nat ensures ErrorPersists(step, s, t, less, more) {
      WideStepIs(s, less, max, big);
      WideStepIs(t, more, max, big);
    }
    TranslatesIsSound(step, Single, write, fit);
    TranslatesIsMonotone(step, Single, write, fit);
  }

  /** The encoders wait for room for a code that they write; codes that they do not write are errors. */
  predicate WideEncoderWaits(s: seq<Code>, room: nat, max: Code) {
    s != [] && Encodable(max)(s[0]) && room < if s[0] < 0x10000 then 2 else 4
  }

  function WideEncoderWaiting(max: Code): Waiting<Code> {
    (s: seq<Code>, room: nat) => WideEncoderWaits(s, room, max)
  }

  lemma WideEncoderAnswers(max: Code, big: bool)
    ensures Answers(WideEncoder(max, big), WideEncoderWaiting(max))
  {
    hide WideStep, WrittenBytes, Encodable;
    forall s, room ensures AnswersAt(WideEncoder(max, big), WideEncoderWaiting(max), s, room) {
      WideStepIs(s, room, max, big);
      if s != [] {
        WrittenLength(s[0], big);
      }
    }
  }

  lemma WrittenLength(c: Code, big: bool)
    ensures |WrittenBytes(c, big)| == if c < 0x10000 then 2 else 4
  {
  }

  // ----- UTF-16 bytes to UCS-4 -----

  /** utf16be_to_ucs4 and utf16le_to_ucs4 at the front of the remaining input. */
  function NarrowStep(s: seq<Byte>, room: nat, max: Code, big: bool): Step<Code> {
    if s == [] then Stop(Ok)
    else if |s| < 2 || room == 0 then Stop(Partial)
    else
      var c1 := UnitAt(s, 0, big);
      if HasTrailMask(c1) then Stop(Error)
      else if !HasLeadMask(c1) then Accept(c1 as Code, 2, max)
      else if |s| < 4 then Stop(Partial)
      else
        var c2 := UnitAt(s, 2, big);
        if !HasTrailMask(c2) then Stop(Error) else Accept(JoinPair(c1, c2), 4, max)
  }

  predicate HasLeadMask(u: Unit) { u & 0xFC00 == 0xD800 }

  lemma LeadMask(u: Unit)
    ensures HasLeadMask(u) <==> IsLead(u)
  {
  }

  function WideDecoder(max: Code, big: bool): Converter<Byte, Code> {
    (s: seq<Byte>, room: nat) => NarrowStep(s, room, max, big)
  }

  /** The units in the first n bytes, for n = 2 or 4. */
  function UnitsAt(s: seq<Byte>, n: nat, big: bool): seq<Unit>
    requires n <= |s| && (n == 2 || n == 4)
  {
    if n == 2 then [UnitAt(s, 0, big)] else [UnitAt(s, 0, big), UnitAt(s, 2, big)]
  }

  lemma NarrowStepChar(s: seq<Byte>, room: nat, max: Code, big: bool, n: nat)
    requires n <= |s| && (n == 2 || n == 4) && room > 0 && IsUtf16Char(UnitsAt(s, n, big))
    ensures NarrowStep(s, room, max, big) == Accept(UnitsValue(UnitsAt(s, n, big)), n, max)
  {
    hide UnitAt, JoinPair, HasTrailMask, HasLeadMask, IsLead, IsTrail, Within;
    UnitMasks(UnitAt(s, 0, big));
    LeadMask(UnitAt(s, 0, big));
    if n == 4 {
      UnitMasks(UnitAt(s, 2, big));
      NotBoth(UnitAt(s, 0, big));
    }
  }

  lemma NotBoth(u: Unit)
    ensures !(IsLead(u) && IsTrail(u))
  {
  }

  lemma NarrowStepOnlyChars(s: seq<Byte>, room: nat, max: Code, big: bool)
    requires NarrowStep(s, room, max, big).Emit?
    ensures var n := NarrowStep(s, room, max, big).used;
      room > 0 && n <= |s| && (n == 2 || n == 4) && IsUtf16Char(UnitsAt(s, n, big))
  {
    hide UnitAt, JoinPair, HasTrailMask, HasLeadMask, IsLead, IsTrail, Within;
    UnitMasks(UnitAt(s, 0, big));
    LeadMask(UnitAt(s, 0, big));
    if |s| >= 4 {
      UnitMasks(UnitAt(s, 2, big));
    }
  }

  /** Bytes are the encoding of a character exactly if their units are. */
  lemma BytesOfUnits(c: Code, s: seq<Byte>, n: nat, big: bool)
    requires n <= |s| && (n == 2 || n == 4)
    ensures BytesOf(c, big) == s[..n] <==> Utf16Of(c) == UnitsAt(s, n, big)
  {
    hide High8, Low8, Glue, Low16, Lead, Trail;
    Unglued(s[0], s[1]);
    Unglued(s[1], s[0]);
    if n == 4 {
      Unglued(s[2], s[3]);
      Unglued(s[3], s[2]);
    }
    Glued(Low16(c));
    Glued(Lead(c));
    Glued(Trail(c));
  }

  lemma NarrowStepEnds(s: seq<Byte>, room: nat, max: Code, big: bool)
    ensures NarrowStep(s, room, max, big) == Stop(Ok) <==> s == []
  {
    hide UnitAt, JoinPair, HasTrailMask, HasLeadMask, Within;
  }

  lemma NarrowStepPersists(s: seq<Byte>, t: seq<Byte>, less: nat, more: nat, max: Code, big: bool)
    requires s <= t && less <= more && NarrowStep(s, less, max, big) == Stop(Error)
    ensures NarrowStep(t, more, max, big) == Stop(Error)
  {
    hide Glue, JoinPair, HasTrailMask, HasLeadMask, Within;
  }

  /** utf16be_to_ucs4 and utf16le_to_ucs4 wait for room, for a whole unit, or for the other half of a
      pair. */
  predicate WideDecoderWaits(s: seq<Byte>, room: nat, big: bool) {
    s != [] && (room == 0 || |s| < 2 || (IsLead(UnitAt(s, 0, big)) && |s| < 4))
  }

  function WideDecoderWaiting(big: bool): Waiting<Byte> {
    (s: seq<Byte>, room: nat) => WideDecoderWaits(s, room, big)
  }

  /** Everything else that is not read is an error: half a pair, and a character above Maxcode. */
  lemma WideDecoderAnswers(max: Code, big: bool)
    ensures Answers(WideDecoder(max, big), WideDecoderWaiting(big))
  {
    hide UnitAt, JoinPair, HasTrailMask, HasLeadMask, IsLead, IsTrail, Within;
    forall s, room ensures AnswersAt(WideDecoder(max, big), WideDecoderWaiting(big), s, room) {
      if |s| > 1 {
        UnitMasks(UnitAt(s, 0, big));
        LeadMask(UnitAt(s, 0, big));
        NotBoth(UnitAt(s, 0, big));
      }
    }
  }

  lemma WideDecoderTranslates(max: Code, big: bool)
    ensures Translates(WideDecoder(max, big), Encoding(big), Single, Fits(max))
    ensures Sound(WideDecoder(max, big)) && Monotone(WideDecoder(max, big))
  {
    hide NarrowStep, BytesOf, Utf16Of, UnitsAt, UnitsValue, IsUtf16Char, IsScalar, Within;
    var step, read, fit := WideDecoder(max, big), Encoding(big), Fits(max);
    forall s, room ensures EmitsOnlyCharacters(step, read, Single, fit, s, room) {
      if step(s, room).Emit? {
        var n := step(s, room).used;
        NarrowStepOnlyChars(s, room, max, big);
        NarrowStepChar(s, room, max, big, n);
        var c := UnitsValue(UnitsAt(s, n, big));
        UnitsAreEncoding(UnitsAt(s, n, big));
        BytesOfUnits(c, s, n, big);
        assert Front(read, fit, s, c);
      }
    }
    forall c, s, room ensures EmitsCharacter(step, read, Single, fit, c, s, room) {
      BytesByLength(c, big);
      if Front(read, fit, s, c) && room > 0 {
        var n := |BytesOf(c, big)|;
        BytesOfUnits(c, s, n, big);
        EncodingIsUnits(c);
        NarrowStepChar(s, room, max, big, n);
      }
    }
    forall s, room ensures OkOnlyAtTheEnd(step, s, room) {
      NarrowStepEnds(s, room, max, big);
    }
    forall s, t, less: nat, more: nat ensures ErrorPersists(step, s, t, less, more) {
      if s <= t && less <= more && step(s, less) == Stop(Error) {
        NarrowStepPersists(s, t, less, more, max, big);
      }
    }
    TranslatesIsSound(step, read, Single, fit);
    TranslatesIsMonotone(step, read, Single, fit);
  }

  // ----- the length twin -----

  /** One character of utf16be_to_ucs4_length and utf16le_to_ucs4_length. */
  function WideLengthStep(s: seq<Byte>, room: nat, max: Code, big: bool): (nat, nat) {
    if |s| < 2 || room == 0 || HasTrailMask(UnitAt(s, 0, big)) then (0, 0)
    else if !HasLeadMask(UnitAt(s, 0, big)) then
      if Within(UnitAt(s, 0, big) as Code, max) then (2, 1) else (0, 0)
    else if |s| < 4 || !HasTrailMask(UnitAt(s, 2, big)) || !Within(JoinPair(UnitAt(s, 0, big), UnitAt(s, 2, big)), max)
    then (0, 0)
    else (4, 1)
  }

  function WideLengths(max: Code, big: bool): Measurer<Byte> {
    (s: seq<Byte>, room: nat) => WideLengthStep(s, room, max, big)
  }

  lemma WideLengthStepMeasures(s: seq<Byte>, room: nat, max: Code, big: bool)
    ensures WideLengthStep(s, room, max, big) ==
      if NarrowStep(s, room, max, big).Emit?
      then (NarrowStep(s, room, max, big).used, |NarrowStep(s, room, max, big).out|) else (0, 0)
  {
    hide UnitAt, JoinPair, HasTrailMask, HasLeadMask, Within;
  }

  lemma WideLengthsMeasure(max: Code, big: bool)
    ensures Measures(WideLengths(max, big), WideDecoder(max, big))
  {
    hide WideLengthStep, NarrowStep;
    forall s, room ensures MeasuresAt(WideLengths(max, big), WideDecoder(max, big), s, room) {
      WideLengthStepMeasures(s, room, max, big);
    }
  }

  // ----- there and back -----

  function Header(big: bool): seq<Byte> {
    if big then [0xFE, 0xFF] else [0xFF, 0xFE]
  }

  lemma HeaderIsTheMark16(big: bool)
    ensures BytesOf(BOM, big) == Header(big)
  {
  }

  /** Encodings that agree on the characters of a text agree on the text. */
  lemma {:induction false} AllAgree(f: Code -> seq<Byte>, g: Code -> seq<Byte>, xs: seq<Code>)
    requires forall i :: 0 <= i < |xs| ==> f(xs[i]) == g(xs[i])
    ensures All(f, xs) == All(g, xs)
  {
    if xs == [] {
    } else {
      AllAgree(f, g, xs[1..]);
    }
  }

  lemma WideEncodesText(xs: seq<Code>, max: Code, big: bool, generate: bool, room: nat)
    requires forall i :: 0 <= i < |xs| ==> Fits(max)(xs[i])
    requires room >= |All(Encoding(big), xs)| + if generate then 2 else 0
    ensures Sound(WideEncoder(max, big))
    ensures WithHeader(WideEncoder(max, big), Header(big), generate, xs, room)
      == Outcome(Ok, |xs|, (if generate then Header(big) else []) + All(Encoding(big), xs))
  {
    hide BytesOf, WrittenBytes;
    WideEncoderTranslates(max, big);
    forall i | 0 <= i < |xs| ensures Encodable(max)(xs[i]) && xs[i] <= 0x10FFFF {
      assert Fits(max)(xs[i]);
    }
    AllAgree(Written(big), Encoding(big), xs);
    AllSingle(Single, xs);
    EncodesWithHeader(WideEncoder(max, big), Single, Written(big), Encodable(max), Header(big), generate, xs, room);
  }

  lemma MarkInFront16(xs: seq<Code>, max: Code, big: bool)
    requires forall i :: 0 <= i < |xs| ==> Fits(max)(xs[i])
    ensures Header(big) <= All(Encoding(big), xs) ==> xs != [] && xs[0] == BOM
  {
    hide BytesOf, All, NarrowStep;
    HeaderIsTheMark16(big);
    if Header(big) <= All(Encoding(big), xs) {
      WideDecoderTranslates(0x10FFFF, big);
      forall i | 0 <= i < |xs| ensures Fits(0x10FFFF)(xs[i]) {
        assert Fits(max)(xs[i]);
      }
      StartsWithMark(WideDecoder(0x10FFFF, big), Encoding(big), Single, Fits(0x10FFFF), BOM, xs);
    }
  }

  /** A header in front is rejected if U+FEFF is not within Maxcode. */
  lemma RejectsHeader16(s: seq<Byte>, max: Code, big: bool, room: nat)
    requires Header(big) <= s && max < BOM && room > 0
    ensures NarrowStep(s, room, max, big) == Stop(Error)
  {
    hide NarrowStep;
    HeaderIsTheMark16(big);
    assert s[..2] == Header(big);
    BytesOfUnits(BOM, s, 2, big);
    EncodingIsUnits(BOM);
    NarrowStepChar(s, room, max, big, 2);
  }

  /** As for UTF-8: every text of characters within Maxcode comes back, in either byte order. */
  lemma RoundTrip16(xs: seq<Code>, max: Code, big: bool, generate: bool, consume: bool, room: nat, back: nat)
    requires forall i :: 0 <= i < |xs| ==> Fits(max)(xs[i])
    requires room >= |All(Encoding(big), xs)| + if generate then 2 else 0
    requires back >= |Reread(BOM, generate, consume, xs)|
    ensures Sound(WideEncoder(max, big)) && Sound(WideDecoder(max, big))
    ensures var text := WithHeader(WideEncoder(max, big), Header(big), generate, xs, room).out;
      && WithHeader(WideEncoder(max, big), Header(big), generate, xs, room) == Outcome(Ok, |xs|, text)
      && SkippingHeader(WideDecoder(max, big), Header(big), consume, text, back) ==
           if generate && !consume && max < BOM then Outcome(Error, 0, [])
           else Outcome(Ok, |text|, Reread(BOM, generate, consume, xs))
  {
    hide BytesOf, All, NarrowStep;
    WideDecoderTranslates(max, big);
    HeaderIsTheMark16(big);
    WideEncodesText(xs, max, big, generate, room);
    MarkInFront16(xs, max, big);
    if generate && !consume && max < BOM {
      RejectsHeader16(Header(big) + All(Encoding(big), xs), max, big, back);
    }
    AllSingle(Single, Reread(BOM, generate, consume, xs));
    HeaderRoundTrip(
      WideDecoder(max, big), Encoding(big), Single, Fits(max), Header(big), BOM, generate, consume, xs, back);
  }

  // ----- the ways between the encodings agree -----

  /** Units laid out in memory. */
  ghost function InBytes(units: seq<Unit>, big: bool): seq<Byte> {
    if units == [] then [] else UnitBytes(units[0], big) + InBytes(units[1..], big)
  }

  lemma {:induction false} InBytesConcatenates(a: seq<Unit>, b: seq<Unit>, big: bool)
    ensures InBytes(a + b, big) == InBytes(a, big) + InBytes(b, big)
  {
    if a == [] {
      assert a + b == b;
    } else {
      assert (a + b)[1..] == a[1..] + b;
      InBytesConcatenates(a[1..], b, big);
    }
  }

  /** The bytes of a text are its units in memory. */
  lemma {:induction false} UnitsInMemory(xs: seq<Code>, big: bool)
    ensures InBytes(All(Utf16Of, xs), big) == All(Encoding(big), xs)
  {
    hide UnitBytes, Lead, Trail, Low16;
    if xs == [] {
    } else {
      UnitsInMemory(xs[1..], big);
      InBytesConcatenates(Utf16Of(xs[0]), All(Utf16Of, xs[1..]), big);
      OneInMemory(xs[0], big);
    }
  }

  lemma UnitInMemory(u: Unit, big: bool)
    ensures InBytes([u], big) == UnitBytes(u, big)
  {
    assert [u][1..] == [] && InBytes([], big) == [];
  }

  lemma OneInMemory(c: Code, big: bool)
    ensures InBytes(Utf16Of(c), big) == BytesOf(c, big)
  {
    hide UnitBytes, Lead, Trail, Low16;
    Utf16ByLength(c);
    if c >= 0x10000 {
      UnitInMemory(Trail(c), big);
      assert [Lead(c), Trail(c)][1..] == [Trail(c)];
    } else {
      UnitInMemory(Low16(c), big);
    }
  }

  /** For every text within Maxcode: UTF-16 straight to UTF-8 is the same as UTF-16 in memory, of either
      byte order, to UCS-4 and from there to UTF-8. */
  lemma UnitsAgreeWithUcs4(xs: seq<Code>, max: Code, big: bool, room: nat)
    requires (forall i :: 0 <= i < |xs| ==> Fits(max)(xs[i])) && room >= |All(Utf8Of, xs)|
    ensures Sound(UnitsToUtf8(max)) && Sound(WideDecoder(max, big)) && Sound(Encoder(max))
    ensures var units := All(Utf16Of, xs);
      var direct := Run(UnitsToUtf8(max), units, room);
      var wide := Run(WideDecoder(max, big), InBytes(units, big), |xs|);
      && direct == Outcome(Ok, |units|, All(Utf8Of, xs))
      && wide == Outcome(Ok, |InBytes(units, big)|, xs)
      && Run(Encoder(max), wide.out, room) == Outcome(Ok, |xs|, direct.out)
  {
    hide Utf8Of, Utf16Of, BytesOf, Within, IsScalar, Translates;
    UnitsToUtf8Translates(max);
    WideDecoderTranslates(max, big);
    ConvertsText(UnitsToUtf8(max), Utf16Of, Utf8Of, Fits(max), xs, room);
    UnitsInMemory(xs, big);
    AllSingle(Single, xs);
    ConvertsText(WideDecoder(max, big), Encoding(big), Single, Fits(max), xs, |xs|);
    EncodesText(xs, max, false, room);
  }

  // ----- the functions -----

  method Ucs4ToUtf16Bytes(from: seq<Code>, to: array<Byte>, max: Code, big: bool, generate: bool)
    returns (status: Status, used: nat, written: nat)
    modifies to
    ensures used <= |from| && written <= to.Length && to[written..] == old(to[written..])
    ensures Sound(WideEncoder(max, big))
    ensures Outcome(status, used, to[..written])
      == WithHeader(WideEncoder(max, big), Header(big), generate, from, to.Length)
    ensures if generate && to.Length < 2 then (status, used, written) == (Partial, 0, 0)
            else status == Answer(from[used..], WideEncoderWaits(from[used..], to.Length - written, max))
  {
    hide WideEncoder, Run, Sound, Answers, WideEncoderWaits;
    WideEncoderIsSound(max, big);
    WideEncoderAnswers(max, big);
    var at := 0;
    if generate {
      var stored := Store(to, 0, Header(big));
      if !stored {
        return Partial, 0, 0;
      }
      at := 2;
    }
    CallAnswers(WideEncoder(max, big), WideEncoderWaiting(max), from, 0, to.Length - at);
    status, used, written := Convert(WideEncoder(max, big), from, 0, to, at);
    assert from[0..] == from;
  }

  predicate StartsWithHeader16(from: seq<Byte>, big: bool) {
    |from| >= 2 && from[0] == (if big then 0xFE else 0xFF) && from[1] == (if big then 0xFF else 0xFE)
  }

  lemma HeaderInFront16(from: seq<Byte>, big: bool)
    ensures StartsWithHeader16(from, big) <==> Header(big) <= from
  {
  }

  method Utf16BytesToUcs4(from: seq<Byte>, to: array<Code>, max: Code, big: bool, consume: bool)
    returns (status: Status, used: nat, written: nat)
    modifies to
    ensures used <= |from| && written <= to.Length && to[written..] == old(to[written..])
    ensures Sound(WideDecoder(max, big))
    ensures Outcome(status, used, to[..written])
      == SkippingHeader(WideDecoder(max, big), Header(big), consume, from, to.Length)
    ensures status == Answer(from[used..], WideDecoderWaits(from[used..], to.Length - written, big))
  {
    hide WideDecoder, Run, Sound, Translates, Monotone, StartsWithHeader16, Answers, WideDecoderWaits;
    WideDecoderTranslates(max, big);
    WideDecoderAnswers(max, big);
    HeaderInFront16(from, big);
    var start := if consume && StartsWithHeader16(from, big) then 2 else 0;
    CallAnswers(WideDecoder(max, big), WideDecoderWaiting(big), from, start, to.Length);
    status, used, written := Convert(WideDecoder(max, big), from, start, to, 0);
    assert from[0..] == from;
  }

  /** Equals what utf16be_to_ucs4 or utf16le_to_ucs4 consumes, given room for mx characters. */
  method Utf16BytesToUcs4Length(from: seq<Byte>, mx: nat, max: Code, big: bool, consume: bool) returns (used: nat)
    ensures Sound(WideDecoder(max, big))
    ensures used == SkippingHeader(WideDecoder(max, big), Header(big), consume, from, mx).used
  {
    hide WideDecoder, Run, Sound, Translates, Monotone, StartsWithHeader16, WideLengths, Measures;
    WideDecoderTranslates(max, big);
    WideLengthsMeasure(max, big);
    HeaderInFront16(from, big);
    var start := if consume && StartsWithHeader16(from, big) then 2 else 0;
    used := Measure(WideLengths(max, big), WideDecoder(max, big), from, start, mx);
    assert from[0..] == from;
  }
}
