/** UCS-2, the 16-bit form of the characters below 0x10000, to and from UTF-8 and UTF-16 in bytes. */
module Ucs2 {
  import opened Transcoding
  import opened Utf8
  import opened Utf16
  import opened Utf16Bytes

  function Wide(u: Unit): Code { u as Code }

  /** The single unit of a character below 0x10000. */
  function Ucs2Of(c: Code): seq<Unit> { [Low16(c)] }

  predicate IsShort(c: Code) { c < 0x10000 }

  predicate ShortFit(c: Code, max: Code) {
    IsScalar(c) && Within(c, max) && IsShort(c)
  }

  function FitsShort(max: Code): Code -> bool {
    c => ShortFit(c, max)
  }

  /** (wc & 0xF800) == 0xD800 || wc > Maxcode */
  predicate RefusedUnit(u: Unit, max: Code) {
    u & 0xF800 == 0xD800 || !Within(Wide(u), max)
  }

  lemma UnitIsCode(u: Unit, max: Code)
    ensures Low16(Wide(u)) == u
    ensures RefusedUnit(u, max) <==> !ShortFit(Wide(u), max)
  {
    hide Wide, Within, IsSurrogate, IsShort, Low16, IsScalar;
    ShortSurrogates(u);
  }

  lemma ShortSurrogates(u: Unit)
    ensures u & 0xF800 == 0xD800 <==> IsSurrogate(Wide(u))
    ensures IsScalar(Wide(u)) <==> !IsSurrogate(Wide(u))
    ensures Low16(Wide(u)) == u && IsShort(Wide(u))
  {
  }

  lemma CodeIsUnit(c: Code)
    requires IsShort(c)
    ensures Wide(Low16(c)) == c
  {
  }

  /** At the front of UCS-2 text stands the character whose unit it is. */
  lemma FrontUnit(s: seq<Unit>, c: Code, max: Code)
    requires s != []
    ensures Front(Ucs2Of, FitsShort(max), s, c) <==> !RefusedUnit(s[0], max) && c == Wide(s[0])
  {
    hide Wide, Low16, RefusedUnit, ShortFit;
    UnitIsCode(s[0], max);
    assert s[..1] == [s[0]];
    if ShortFit(c, max) {
      ShortFitIsShort(c, max);
      CodeIsUnit(c);
    }
  }

  lemma ShortFitIsShort(c: Code, max: Code)
    ensures ShortFit(c, max) ==> IsShort(c) && Fits(max)(c)
  {
  }

  // ----- UCS-2 to bytes -----

  /** What all encoders from UCS-2 do at the front: write the character's bytes. */
  function ShortStep(s: seq<Unit>, room: nat, max: Code, bytes: Code -> seq<Byte>): Step<Byte> {
    if s == [] then Stop(Ok)
    else if RefusedUnit(s[0], max) then Stop(Error)
    else Put(bytes(Wide(s[0])), 1, room)
  }

  function ShortEncoder(max: Code, bytes: Code -> seq<Byte>): Converter<Unit, Byte> {
    (s: seq<Unit>, room: nat) => ShortStep(s, room, max, bytes)
  }

  /** ucs2_to_utf8 writes the bytes of ucs4_to_utf8; ucs2_to_utf16be and ucs2_to_utf16le those of the
      one unit.  All of them translate UCS-2. */
  lemma ShortEncoderTranslates(max: Code, bytes: Code -> seq<Byte>, write: Code -> seq<Byte>)
    requires forall c :: IsShort(c) ==> bytes(c) == write(c)
    ensures Translates(ShortEncoder(max, bytes), Ucs2Of, write, FitsShort(max))
    ensures Sound(ShortEncoder(max, bytes)) && Monotone(ShortEncoder(max, bytes))
  {
    hide Wide, IsShort, Ucs2Of, RefusedUnit;
    var step, fit := ShortEncoder(max, bytes), FitsShort(max);
    forall s, room ensures OkOnlyAtTheEnd(step, s, room) {
    }
    forall s, room ensures EmitsOnlyCharacters(step, Ucs2Of, write, fit, s, room) {
      if step(s, room).Emit? {
        FrontUnit(s, Wide(s[0]), max);
        OneUnitLong(Wide(s[0]));
        assert Front(Ucs2Of, fit, s, Wide(s[0]));
      }
    }
    forall c, s, room ensures EmitsCharacter(step, Ucs2Of, write, fit, c, s, room) {
      OneUnitLong(c);
      if s != [] {
        FrontUnit(s, c, max);
      }
    }
    forall s, t, less: nat, more: nat ensures ErrorPersists(step, s, t, less, more) {
    }
    TranslatesIsSound(step, Ucs2Of, write, fit);
    TranslatesIsMonotone(step, Ucs2Of, write, fit);
  }

  lemma OneUnitLong(c: Code)
    ensures |Ucs2Of(c)| == 1
  {
  }

  function OneUnitBytes(big: bool): Code -> seq<Byte> {
    c => UnitBytes(Low16(c), big)
  }

  /** The encoders wait for room for a character that they write; units that they do not write are
      errors. */
  predicate ShortEncoderWaits(s: seq<Unit>, room: nat, max: Code, write: Code -> seq<Byte>) {
    s != [] && ShortFit(Wide(s[0]), max) && room < |write(Wide(s[0]))|
  }

  function ShortEncoderWaiting(max: Code, write: Code -> seq<Byte>): Waiting<Unit> {
    (s: seq<Unit>, room: nat) => ShortEncoderWaits(s, room, max, write)
  }

  lemma ShortEncoderAnswers(max: Code, bytes: Code -> seq<Byte>, write: Code -> seq<Byte>)
    requires forall c :: IsShort(c) ==> bytes(c) == write(c)
    ensures Answers(ShortEncoder(max, bytes), ShortEncoderWaiting(max, write))
  {
    hide Wide, IsShort, RefusedUnit, ShortFit;
    forall s, room ensures AnswersAt(ShortEncoder(max, bytes), ShortEncoderWaiting(max, write), s, room) {
      if s != [] {
        UnitIsCode(s[0], max);
        ShortFitIsShort(Wide(s[0]), max);
      }
    }
  }

  lemma Ucs2ToUtf8Answers(max: Code)
    ensures Answers(ShortEncoder(max, Encoded), ShortEncoderWaiting(max, Utf8Of))
  {
    hide Encoded, Utf8Of;
    forall c ensures Encoded(c) == Utf8Of(c) {
      EncodedIsUtf8(c);
    }
    ShortEncoderAnswers(max, Encoded, Utf8Of);
  }

  lemma Ucs2ToUtf16BytesAnswer(max: Code, big: bool)
    ensures Answers(ShortEncoder(max, OneUnitBytes(big)), ShortEncoderWaiting(max, Encoding(big)))
  {
    hide UnitBytes, Low16, Lead, Trail;
    ShortEncoderAnswers(max, OneUnitBytes(big), Encoding(big));
  }

  lemma Ucs2ToUtf8Translates(max: Code)
    ensures Translates(ShortEncoder(max, Encoded), Ucs2Of, Utf8Of, FitsShort(max))
    ensures Sound(ShortEncoder(max, Encoded)) && Monotone(ShortEncoder(max, Encoded))
  {
    hide Encoded, Utf8Of;
    forall c ensures Encoded(c) == Utf8Of(c) {
      EncodedIsUtf8(c);
    }
    ShortEncoderTranslates(max, Encoded, Utf8Of);
  }

  lemma Ucs2ToUtf16BytesTranslates(max: Code, big: bool)
    ensures Translates(ShortEncoder(max, OneUnitBytes(big)), Ucs2Of, Encoding(big), FitsShort(max))
    ensures Sound(ShortEncoder(max, OneUnitBytes(big))) && Monotone(ShortEncoder(max, OneUnitBytes(big)))
  {
    hide UnitBytes, Low16, Lead, Trail;
    ShortEncoderTranslates(max, OneUnitBytes(big), Encoding(big));
  }

  // ----- UTF-8 to UCS-2 -----

  /** utf8_to_ucs2 at the front of the remaining input: a lead byte of four is an error at once. */
  function ShortDecodeStep(s: seq<Byte>, room: nat, max: Code): Step<Unit> {
    if s == [] then Stop(Ok)
    else if room == 0 then Stop(Partial)
    else if s[0] < 0x80 then AcceptUnits(s[0] as Code, 1, max)
    else if s[0] < 0xC2 then Stop(Error)
    else if s[0] < 0xE0 then
      if |s| < 2 then Stop(Partial)
      else if s[1] & 0xC0 != 0x80 then Stop(Error)
      else AcceptUnits(Join2(s[0], s[1]), 2, max)
    else if s[0] < 0xF0 then
      if |s| < 3 then Stop(Partial)
      else if !SecondOf3(s[0], s[1]) || s[2] & 0xC0 != 0x80 then Stop(Error)
      else AcceptUnits(Join3(s[0], s[1], s[2]), 3, max)
    else Stop(Error)
  }

  function ShortDecoder(max: Code): Converter<Byte, Unit> {
    (s: seq<Byte>, room: nat) => ShortDecodeStep(s, room, max)
  }

  /** Beside utf8_to_ucs4: emits the same characters, except those of four bytes. */
  lemma FollowsLongDecoder(s: seq<Byte>, room: nat, max: Code)
    ensures var d, r := DecodeStep(s, room, max), ShortDecodeStep(s, room, max);
      && (r.Emit? <==> d.Emit? && d.used < 4)
      && (r.Emit? ==> r == Emit(d.used, Ucs2Of(d.out[0])))
      && (d.Emit? ==> (d.used < 4 <==> IsShort(d.out[0])))
  {
    hide Join2, Join3, Join4, SecondOf3, SecondOf4, Low16, Within, IsUtf8Char, UnitOf4, SecondUnitOf4;
    var d := DecodeStep(s, room, max);
    if d.Emit? {
      DecodesOnlyChars(s, room, max);
      DecodesChar(s, room, max, d.used);
      FourBytesTwoUnits(s[..d.used]);
    }
  }

  lemma ShortDecodeEnds(s: seq<Byte>, room: nat, max: Code)
    ensures ShortDecodeStep(s, room, max) == Stop(Ok) <==> s == []
  {
    hide Join2, Join3, SecondOf3, Low16, Within;
  }

  lemma ShortDecodePersists(s: seq<Byte>, t: seq<Byte>, less: nat, more: nat, max: Code)
    requires s <= t && less <= more && ShortDecodeStep(s, less, max) == Stop(Error)
    ensures ShortDecodeStep(t, more, max) == Stop(Error)
  {
    hide Join2, Join3, SecondOf3, Low16, Within;
  }

  /** utf8_to_ucs2 waits for room, or for the bytes that the first byte announces, unless these are
      four. */
  predicate ShortDecoderWaits(s: seq<Byte>, room: nat) {
    s != [] && (room == 0 || (|s| < Announced(s[0]) && Announced(s[0]) < 4))
  }

  lemma ShortDecoderAnswers(max: Code)
    ensures Answers(ShortDecoder(max), ShortDecoderWaits)
  {
    hide Join2, Join3, SecondOf3, Low16, Within;
    forall s, room ensures AnswersAt(ShortDecoder(max), ShortDecoderWaits, s, room) {
    }
  }

  lemma ShortDecoderTranslates(max: Code)
    ensures Translates(ShortDecoder(max), Utf8Of, Ucs2Of, FitsShort(max))
    ensures Sound(ShortDecoder(max)) && Monotone(ShortDecoder(max))
  {
    hide ShortDecodeStep, DecodeStep, Ucs2Of, Utf8Of, IsScalar, Within, IsShort;
    var step, fit := ShortDecoder(max), FitsShort(max);
    forall s, room ensures EmitsOnlyCharacters(step, Utf8Of, Ucs2Of, fit, s, room) {
      FollowsLongDecoder(s, room, max);
      if step(s, room).Emit? {
        DecodesOnlyUtf8(s, room, max);
        var c := DecodeStep(s, room, max).out[0];
        OneUnitLong(c);
        assert Front(Utf8Of, fit, s, c);
      }
    }
    forall c, s, room ensures EmitsCharacter(step, Utf8Of, Ucs2Of, fit, c, s, room) {
      DecodesUtf8(c, s, room, max);
      OneUnitLong(c);
      if Front(Utf8Of, fit, s, c) {
        assert Front(Utf8Of, Fits(max), s, c);
        FollowsLongDecoder(s, room, max);
      }
    }
    forall s, room ensures OkOnlyAtTheEnd(step, s, room) {
      ShortDecodeEnds(s, room, max);
    }
    forall s, t, less: nat, more: nat ensures ErrorPersists(step, s, t, less, more) {
      if s <= t && less <= more && step(s, less) == Stop(Error) {
        ShortDecodePersists(s, t, less, more, max);
      }
    }
    TranslatesIsSound(step, Utf8Of, Ucs2Of, fit);
    TranslatesIsMonotone(step, Utf8Of, Ucs2Of, fit);
  }

  /** One character of utf8_to_ucs2_length. */
  function ShortLengthStep(s: seq<Byte>, room: nat, max: Code): (nat, nat) {
    if s == [] || room == 0 then (0, 0)
    else if s[0] < 0x80 then if Within(s[0] as Code, max) then (1, 1) else (0, 0)
    else if s[0] < 0xC2 then (0, 0)
    else if s[0] < 0xE0 then
      if |s| < 2 || s[1] & 0xC0 != 0x80 || !Within(Join2(s[0], s[1]), max) then (0, 0) else (2, 1)
    else if s[0] < 0xF0 then
      if |s| < 3 || !SecondOf3(s[0], s[1]) || s[2] & 0xC0 != 0x80 || !Within(Join3(s[0], s[1], s[2]), max) then (0, 0)
      else (3, 1)
    else (0, 0)
  }

  function ShortLengths(max: Code): Measurer<Byte> {
    (s: seq<Byte>, room: nat) => ShortLengthStep(s, room, max)
  }

  lemma ShortLengthsMeasure(max: Code)
    ensures Measures(ShortLengths(max), ShortDecoder(max))
  {
    hide ShortLengthStep, ShortDecodeStep;
    forall s, room ensures MeasuresAt(ShortLengths(max), ShortDecoder(max), s, room) {
      ShortLengthStepMeasures(s, room, max);
    }
  }

  lemma ShortLengthStepMeasures(s: seq<Byte>, room: nat, max: Code)
    ensures ShortLengthStep(s, room, max) == if ShortDecodeStep(s, room, max).Emit?
      then (ShortDecodeStep(s, room, max).used, |ShortDecodeStep(s, room, max).out|) else (0, 0)
  {
    hide Join2, Join3, SecondOf3, Low16, Within;
  }

  // ----- UTF-16 bytes to UCS-2 -----

  /** utf16be_to_ucs2 and utf16le_to_ucs2 at the front of the remaining input. */
  function UnitStep(s: seq<Byte>, room: nat, max: Code, big: bool): Step<Unit> {
    if s == [] then Stop(Ok)
    else if |s| < 2 || room == 0 then Stop(Partial)
    else if RefusedUnit(UnitAt(s, 0, big), max) then Stop(Error)
    else Emit(2, [UnitAt(s, 0, big)])
  }

  function UnitDecoder(max: Code, big: bool): Converter<Byte, Unit> {
    (s: seq<Byte>, room: nat) => UnitStep(s, room, max, big)
  }

  /** utf16be_to_ucs2 and utf16le_to_ucs2 wait for room or for a whole unit. */
  predicate UnitDecoderWaits(s: seq<Byte>, room: nat) {
    s != [] && (room == 0 || |s| < 2)
  }

  lemma UnitDecoderAnswers(max: Code, big: bool)
    ensures Answers(UnitDecoder(max, big), UnitDecoderWaits)
  {
    hide UnitAt, RefusedUnit;
    forall s, room ensures AnswersAt(UnitDecoder(max, big), UnitDecoderWaits, s, room) {
    }
  }

  lemma UnitDecoderTranslates(max: Code, big: bool)
    ensures Translates(UnitDecoder(max, big), Encoding(big), Ucs2Of, FitsShort(max))
    ensures Sound(UnitDecoder(max, big)) && Monotone(UnitDecoder(max, big))
  {
    hide Wide, Glue, UnitAt, RefusedUnit, Low16, BytesOf, UnitBytes, ShortFit;
    var step, read, fit := UnitDecoder(max, big), Encoding(big), FitsShort(max);
    forall s, room ensures EmitsOnlyCharacters(step, read, Ucs2Of, fit, s, room) {
      if step(s, room).Emit? {
        UnitIsCode(UnitAt(s, 0, big), max);
        ShortFitIsShort(Wide(UnitAt(s, 0, big)), max);
        FirstUnit(s, Wide(UnitAt(s, 0, big)), big);
        assert Front(read, fit, s, Wide(UnitAt(s, 0, big)));
      }
    }
    forall c, s, room ensures EmitsCharacter(step, read, Ucs2Of, fit, c, s, room) {
      if fit(c) {
        ShortFitIsShort(c, max);
        FirstUnit([0, 0], c, big);
        if Front(read, fit, s, c) {
          FirstUnit(s, c, big);
          UnitIsCode(UnitAt(s, 0, big), max);
        }
      }
    }
    forall s, room ensures OkOnlyAtTheEnd(step, s, room) {
    }
    forall s, t, less: nat, more: nat ensures ErrorPersists(step, s, t, less, more) {
      UnitStepPersists(s, t, less, more, max, big);
    }
    TranslatesIsSound(step, read, Ucs2Of, fit);
    TranslatesIsMonotone(step, read, Ucs2Of, fit);
  }

  lemma UnitStepPersists(s: seq<Byte>, t: seq<Byte>, less: nat, more: nat, max: Code, big: bool)
    ensures ErrorPersists(UnitDecoder(max, big), s, t, less, more)
  {
    hide Glue, RefusedUnit;
  }

  /** The bytes of a short character are those of the unit that they form. */
  lemma FirstUnit(s: seq<Byte>, c: Code, big: bool)
    requires |s| >= 2 && IsShort(c)
    ensures |BytesOf(c, big)| == 2
    ensures s[..2] == BytesOf(c, big) <==> Wide(UnitAt(s, 0, big)) == c
  {
    hide Wide, High8, Low8, Glue, Low16, BytesOf, IsShort, Lead, Trail;
    ShortBytes(c, big);
    Unglued(s[0], s[1]);
    Unglued(s[1], s[0]);
    Glued(Low16(c));
    CodeIsUnit(c);
    UnitOfItself(UnitAt(s, 0, big));
    assert s[..2] == [s[0], s[1]];
  }

  lemma ShortBytes(c: Code, big: bool)
    requires IsShort(c)
    ensures BytesOf(c, big) == UnitBytes(Low16(c), big)
  {
    hide UnitBytes, Low16, Lead, Trail;
  }

  lemma UnitOfItself(u: Unit)
    ensures Low16(Wide(u)) == u
  {
  }

  /** One character of utf16be_to_ucs2_length and utf16le_to_ucs2_length. */
  function UnitLengthStep(s: seq<Byte>, room: nat, max: Code, big: bool): (nat, nat) {
    if |s| < 2 || room == 0 || RefusedUnit(UnitAt(s, 0, big), max) then (0, 0) else (2, 1)
  }

  function UnitLengths(max: Code, big: bool): Measurer<Byte> {
    (s: seq<Byte>, room: nat) => UnitLengthStep(s, room, max, big)
  }

  lemma UnitLengthsMeasure(max: Code, big: bool)
    ensures Measures(UnitLengths(max, big), UnitDecoder(max, big))
  {
    hide UnitAt, RefusedUnit;
    forall s, room ensures MeasuresAt(UnitLengths(max, big), UnitDecoder(max, big), s, room) {
    }
  }

  // ----- there and back, and across -----

  /** A header in front is rejected if U+FEFF is not within Maxcode. */
  lemma RejectsShortHeader(s: seq<Byte>, max: Code, room: nat)
    requires HEADER <= s && max < BOM && room > 0
    ensures ShortDecodeStep(s, room, max) == Stop(Error)
  {
    hide Within, Join3, Low16;
    assert s[0] == 0xEF && s[1] == 0xBB && s[2] == 0xBF;
    HeaderJoins(max);
  }

  lemma RejectsUnitHeader(s: seq<Byte>, max: Code, big: bool, room: nat)
    requires Header(big) <= s && max < BOM && room > 0
    ensures UnitStep(s, room, max, big) == Stop(Error)
  {
    hide Glue, Within;
    assert s[0] == Header(big)[0] && s[1] == Header(big)[1];
    HeaderGlues(max);
  }

  lemma HeaderGlues(max: Code)
    ensures Glue(0xFE, 0xFF) == 0xFEFF && Wide(0xFEFF) == BOM
    ensures max < BOM ==> !Within(BOM, max)
  {
  }

  lemma MarkFitsShort(max: Code)
    ensures FitsShort(max)(BOM) <==> max >= BOM
  {
  }

  /** What reading a text of this encoding gives that may have been written with a header. */
  ghost function Returned(
    text: seq<Byte>, max: Code, generate: bool, consume: bool, xs: seq<Code>): Outcome<Unit>
  {
    if generate && !consume && max < BOM then Outcome(Error, 0, [])
    else Outcome(Ok, |text|, All(Ucs2Of, Reread(BOM, generate, consume, xs)))
  }

  lemma MarkTakesRoomShort(xs: seq<Code>)
    ensures |All(Ucs2Of, [BOM] + xs)| > 0
  {
    AllCons(Ucs2Of, BOM, xs);
  }

  /** For every text of characters below 0x10000 within Maxcode, with units its UCS-2 form: UTF-8 leads
      there and back, with every treatment of headers. */
  lemma RoundTripShort(xs: seq<Code>, max: Code, generate: bool, consume: bool, room: nat, back: nat)
    requires forall i :: 0 <= i < |xs| ==> FitsShort(max)(xs[i])
    requires room >= |All(Utf8Of, xs)| + if generate then 3 else 0
    requires back >= |All(Ucs2Of, Reread(BOM, generate, consume, xs))|
    ensures Sound(ShortEncoder(max, Encoded)) && Sound(ShortDecoder(max))
    ensures var units, text := All(Ucs2Of, xs), (if generate then HEADER else []) + All(Utf8Of, xs);
      && WithHeader(ShortEncoder(max, Encoded), HEADER, generate, units, room) == Outcome(Ok, |units|, text)
      && SkippingHeader(ShortDecoder(max), HEADER, consume, text, back) == Returned(text, max, generate, consume, xs)
  {
    hide Encoded, Ucs2Of, Utf8Of, FitsShort, ShortEncoder, ShortDecodeStep;
    Ucs2ToUtf8Translates(max);
    ShortDecoderTranslates(max);
    HeaderIsTheMark();
    EncodesWithHeader(ShortEncoder(max, Encoded), Ucs2Of, Utf8Of, FitsShort(max), HEADER, generate, xs, room);
    ShortTextFits(xs, max);
    MarkInFront(xs, max);
    MarkFitsShort(max);
    if generate && !consume && max < BOM {
      MarkTakesRoomShort(xs);
      RejectsShortHeader(HEADER + All(Utf8Of, xs), max, back);
    }
    HeaderRoundTrip(ShortDecoder(max), Utf8Of, Ucs2Of, FitsShort(max), HEADER, BOM, generate, consume, xs, back);
  }

  lemma ShortTextFits(xs: seq<Code>, max: Code)
    requires forall i :: 0 <= i < |xs| ==> FitsShort(max)(xs[i])
    ensures forall i :: 0 <= i < |xs| ==> Fits(max)(xs[i])
  {
    hide ShortFit, Fits;
    forall i | 0 <= i < |xs| ensures Fits(max)(xs[i]) {
      assert FitsShort(max)(xs[i]);
      ShortFitIsShort(xs[i], max);
    }
  }

  /** And UTF-16 of either byte order. */
  lemma RoundTripShort16(
    xs: seq<Code>, max: Code, big: bool, generate: bool, consume: bool, room: nat, back: nat)
    requires forall i :: 0 <= i < |xs| ==> FitsShort(max)(xs[i])
    requires room >= |All(Encoding(big), xs)| + if generate then 2 else 0
    requires back >= |All(Ucs2Of, Reread(BOM, generate, consume, xs))|
    ensures Sound(ShortEncoder(max, OneUnitBytes(big))) && Sound(UnitDecoder(max, big))
    ensures var units, text := All(Ucs2Of, xs), (if generate then Header(big) else []) + All(Encoding(big), xs);
      && WithHeader(ShortEncoder(max, OneUnitBytes(big)), Header(big), generate, units, room)
           == Outcome(Ok, |units|, text)
      && SkippingHeader(UnitDecoder(max, big), Header(big), consume, text, back)
           == Returned(text, max, generate, consume, xs)
  {
    hide OneUnitBytes, Ucs2Of, BytesOf, FitsShort, ShortEncoder, UnitStep;
    Ucs2ToUtf16BytesTranslates(max, big);
    UnitDecoderTranslates(max, big);
    HeaderIsTheMark16(big);
    EncodesWithHeader(
      ShortEncoder(max, OneUnitBytes(big)), Ucs2Of, Encoding(big), FitsShort(max), Header(big), generate, xs, room);
    ShortTextFits(xs, max);
    MarkInFront16(xs, max, big);
    MarkFitsShort(max);
    if generate && !consume && max < BOM {
      MarkTakesRoomShort(xs);
      RejectsUnitHeader(Header(big) + All(Encoding(big), xs), max, big, back);
    }
    HeaderRoundTrip(
      UnitDecoder(max, big), Encoding(big), Ucs2Of, FitsShort(max), Header(big), BOM, generate, consume, xs, back);
  }

  // ----- the functions -----

  method Ucs2ToUtf8(from: seq<Unit>, to: array<Byte>, max: Code, generate: bool)
    returns (status: Status, used: nat, written: nat)
    modifies to
    ensures used <= |from| && written <= to.Length && to[written..] == old(to[written..])
    ensures Sound(ShortEncoder(max, Encoded))
    ensures Outcome(status, used, to[..written])
      == WithHeader(ShortEncoder(max, Encoded), HEADER, generate, from, to.Length)
    ensures if generate && to.Length < 3 then (status, used, written) == (Partial, 0, 0)
            else status == Answer(from[used..], ShortEncoderWaits(from[used..], to.Length - written, max, Utf8Of))
  {
    hide ShortEncoder, Run, Sound, Translates, Monotone, Encoded, Utf8Of, Answers, ShortEncoderWaits;
    Ucs2ToUtf8Translates(max);
    Ucs2ToUtf8Answers(max);
    var at := 0;
    if generate {
      var stored := Store(to, 0, HEADER);
      if !stored {
        return Partial, 0, 0;
      }
      at := 3;
    }
    CallAnswers(ShortEncoder(max, Encoded), ShortEncoderWaiting(max, Utf8Of), from, 0, to.Length - at);
    status, used, written := Convert(ShortEncoder(max, Encoded), from, 0, to, at);
    assert from[0..] == from;
  }

  method Utf8ToUcs2(from: seq<Byte>, to: array<Unit>, max: Code, consume: bool)
    returns (status: Status, used: nat, written: nat)
    modifies to
    ensures used <= |from| && written <= to.Length && to[written..] == old(to[written..])
    ensures Sound(ShortDecoder(max))
    ensures Outcome(status, used, to[..written]) == SkippingHeader(ShortDecoder(max), HEADER, consume, from, to.Length)
    ensures status == Answer(from[used..], ShortDecoderWaits(from[used..], to.Length - written))
  {
    hide ShortDecoder, Run, Sound, Translates, Monotone, StartsWithHeader, Answers, ShortDecoderWaits;
    ShortDecoderTranslates(max);
    ShortDecoderAnswers(max);
    HeaderInFront(from);
    var start := if consume && StartsWithHeader(from) then 3 else 0;
    CallAnswers(ShortDecoder(max), ShortDecoderWaits, from, start, to.Length);
    status, used, written := Convert(ShortDecoder(max), from, start, to, 0);
    assert from[0..] == from;
  }

  /** Equals what utf8_to_ucs2 consumes, given room for mx units. */
  method Utf8ToUcs2Length(from: seq<Byte>, mx: nat, max: Code, consume: bool) returns (used: nat)
    ensures Sound(ShortDecoder(max)) && used == SkippingHeader(ShortDecoder(max), HEADER, consume, from, mx).used
  {
    hide ShortDecoder, Run, Sound, Translates, Monotone, StartsWithHeader, ShortLengths, Measures;
    ShortDecoderTranslates(max);
    ShortLengthsMeasure(max);
    HeaderInFront(from);
    var start := if consume && StartsWithHeader(from) then 3 else 0;
    used := Measure(ShortLengths(max), ShortDecoder(max), from, start, mx);
    assert from[0..] == from;
  }

  method Ucs2ToUtf16Bytes(from: seq<Unit>, to: array<Byte>, max: Code, big: bool, generate: bool)
    returns (status: Status, used: nat, written: nat)
    modifies to
    ensures used <= |from| && written <= to.Length && to[written..] == old(to[written..])
    ensures Sound(ShortEncoder(max, OneUnitBytes(big)))
    ensures Outcome(status, used, to[..written])
      == WithHeader(ShortEncoder(max, OneUnitBytes(big)), Header(big), generate, from, to.Length)
    ensures if generate && to.Length < 2 then (status, used, written) == (Partial, 0, 0)
            else var rest := from[used..];
              status == Answer(rest, ShortEncoderWaits(rest, to.Length - written, max, Encoding(big)))
  {
    hide ShortEncoder, Run, Sound, Translates, Monotone, OneUnitBytes, Encoding, Answers, ShortEncoderWaits;
    Ucs2ToUtf16BytesTranslates(max, big);
    Ucs2ToUtf16BytesAnswer(max, big);
    var at := 0;
    if generate {
      var stored := Store(to, 0, Header(big));
      if !stored {
        return Partial, 0, 0;
      }
      at := 2;
    }
    CallAnswers(
      ShortEncoder(max, OneUnitBytes(big)), ShortEncoderWaiting(max, Encoding(big)), from, 0, to.Length - at);
    status, used, written := Convert(ShortEncoder(max, OneUnitBytes(big)), from, 0, to, at);
    assert from[0..] == from;
  }

  method Utf16BytesToUcs2(from: seq<Byte>, to: array<Unit>, max: Code, big: bool, consume: bool)
    returns (status: Status, used: nat, written: nat)
    modifies to
    ensures used <= |from| && written <= to.Length && to[written..] == old(to[written..])
    ensures Sound(UnitDecoder(max, big))
    ensures Outcome(status, used, to[..written])
      == SkippingHeader(UnitDecoder(max, big), Header(big), consume, from, to.Length)
    ensures status == Answer(from[used..], UnitDecoderWaits(from[used..], to.Length - written))
  {
    hide UnitDecoder, Run, Sound, Translates, Monotone, StartsWithHeader16, Answers, UnitDecoderWaits;
    UnitDecoderTranslates(max, big);
    UnitDecoderAnswers(max, big);
    HeaderInFront16(from, big);
    var start := if consume && StartsWithHeader16(from, big) then 2 else 0;
    CallAnswers(UnitDecoder(max, big), UnitDecoderWaits, from, start, to.Length);
    status, used, written := Convert(UnitDecoder(max, big), from, start, to, 0);
    assert from[0..] == from;
  }

  /** Equals what utf16be_to_ucs2 or utf16le_to_ucs2 consumes, given room for mx units. */
  method Utf16BytesToUcs2Length(from: seq<Byte>, mx: nat, max: Code, big: bool, consume: bool) returns (used: nat)
    ensures Sound(UnitDecoder(max, big))
    ensures used == SkippingHeader(UnitDecoder(max, big), Header(big), consume, from, mx).used
  {
    hide UnitDecoder, Run, Sound, Translates, Monotone, StartsWithHeader16, UnitLengths, Measures;
    UnitDecoderTranslates(max, big);
    UnitLengthsMeasure(max, big);
    HeaderInFront16(from, big);
    var start := if consume && StartsWithHeader16(from, big) then 2 else 0;
    used := Measure(UnitLengths(max, big), UnitDecoder(max, big), from, start, mx);
    assert from[0..] == from;
  }
}
