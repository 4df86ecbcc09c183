/** UTF-16 (RFC 2781): in 16-bit units to and from UTF-8, and in bytes of either order to and from
    UCS-4.
  */
module Utf16 {
  import opened Transcoding
  import opened Utf8

  /** The lowest 16 bits. */
  function Low16(c: Code): Unit { (c & 0xFFFF) as Unit }

  function Lead(c: Code): Unit { 0xD800 | Low16((c - 0x10000) >> 10) }

  function Trail(c: Code): Unit { 0xDC00 | Low16((c - 0x10000) & 0x3FF) }

  /** Section 2.1 of RFC 2781. */
  function Utf16Of(c: Code): seq<Unit> {
    if c < 0x10000 then [Low16(c)] else [Lead(c), Trail(c)]
  }

  predicate IsLead(u: Unit) { 0xD800 <= u <= 0xDBFF }

  predicate IsTrail(u: Unit) { 0xDC00 <= u <= 0xDFFF }

  predicate IsUtf16Char(u: seq<Unit>) {
    || (|u| == 1 && !IsLead(u[0]) && !IsTrail(u[0]))
    || (|u| == 2 && IsLead(u[0]) && IsTrail(u[1]))
  }

  // ----- the bits -----

  /** The value of a surrogate pair, as the source computes it. */
  function JoinPair(w1: Unit, w2: Unit): Code {
    ((((w1 as Code & 0x03C0) >> 6) + 1) << 16) | ((w1 as Code & 0x003F) << 10) | (w2 as Code & 0x03FF)
  }

  lemma SplitPair(c: Code)
    requires 0x10000 <= c <= 0x10FFFF
    ensures IsLead(Lead(c)) && IsTrail(Trail(c))
  {
  }

  lemma RejoinPair(c: Code)
    requires 0x10000 <= c <= 0x10FFFF
    ensures JoinPair(Lead(c), Trail(c)) == c
  {
  }

  lemma PairRange(w1: Unit, w2: Unit)
    requires IsLead(w1) && IsTrail(w2)
    ensures 0x10000 <= JoinPair(w1, w2) <= 0x10FFFF
  {
  }

  lemma JoinedPair(w1: Unit, w2: Unit)
    requires IsLead(w1) && IsTrail(w2)
    ensures Lead(JoinPair(w1, w2)) == w1 && Trail(JoinPair(w1, w2)) == w2
  {
  }

  lemma OneUnit(u: Unit)
    ensures Low16(u as Code) == u && u as Code < 0x10000
    ensures IsSurrogate(u as Code) <==> IsLead(u) || IsTrail(u)
  {
  }

  lemma OneCode16(c: Code)
    requires c < 0x10000
    ensures Low16(c) as Code == c
    ensures IsSurrogate(c) <==> IsLead(Low16(c)) || IsTrail(Low16(c))
  {
  }

  lemma UnitMasks(u: Unit)
    ensures u & 0xFC00 == 0xD800 <==> IsLead(u)
    ensures HasTrailMask(u) <==> IsTrail(u)
  {
  }

  // ----- well-formed is what an encoding is -----

  function UnitsValue(u: seq<Unit>): Code
    requires IsUtf16Char(u)
  {
    if |u| == 1 then u[0] as Code else JoinPair(u[0], u[1])
  }

  lemma Utf16ByLength(c: Code)
    ensures c < 0x10000 ==> Utf16Of(c) == [Low16(c)]
    ensures c >= 0x10000 ==> Utf16Of(c) == [Lead(c), Trail(c)]
  {
  }

  lemma UnitsAreEncoding(u: seq<Unit>)
    requires IsUtf16Char(u)
    ensures IsScalar(UnitsValue(u)) && Utf16Of(UnitsValue(u)) == u
  {
    hide Low16, Lead, Trail, JoinPair, Utf16Of;
    Utf16ByLength(UnitsValue(u));
    if |u| == 1 {
      OneUnit(u[0]);
      assert u == [u[0]];
    } else {
      PairRange(u[0], u[1]);
      JoinedPair(u[0], u[1]);
      assert u == [u[0], u[1]];
    }
  }

  lemma EncodingIsUnits(c: Code)
    requires IsScalar(c)
    ensures IsUtf16Char(Utf16Of(c)) && UnitsValue(Utf16Of(c)) == c
  {
    hide Low16, Lead, Trail, JoinPair;
    if c < 0x10000 {
      OneCode16(c);
    } else {
      SplitPair(c);
      RejoinPair(c);
    }
  }

  // ----- UTF-16 units to UTF-8 -----

  /** z: the plane that a lead surrogate stands for. */
  function Plane(w1: Unit): Byte { ((w1 & 0x03C0) >> 6) as Byte + 1 }

  function PairByte1(w1: Unit): Byte { 0xF0 | (Plane(w1) >> 2) }

  function PairByte2(w1: Unit): Byte { 0x80 | ((Plane(w1) & 0x03) << 4) | ((w1 & 0x003C) >> 2) as Byte }

  function PairByte3(w1: Unit, w2: Unit): Byte { 0x80 | ((w1 & 0x0003) << 4) as Byte | ((w2 & 0x03C0) >> 6) as Byte }

  function PairByte4(w2: Unit): Byte { 0x80 | (w2 & 0x003F) as Byte }

  /** The bytes that utf16_to_utf8 writes for a surrogate pair. */
  function PairBytes(w1: Unit, w2: Unit): seq<Byte> {
    [PairByte1(w1), PairByte2(w1), PairByte3(w1, w2), PairByte4(w2)]
  }

  /** The value that utf16_to_utf8 compares with Maxcode: a sum where the other functions or. */
  function PairSum(w1: Unit, w2: Unit): Code {
    ((((w1 as Code & 0x03C0) >> 6) + 1) << 16) + ((w1 as Code & 0x003F) << 10) + (w2 as Code & 0x03FF)
  }

  lemma PairSumIsValue(w1: Unit, w2: Unit)
    ensures PairSum(w1, w2) == JoinPair(w1, w2)
  {
  }

  lemma PairBits(w1: Unit, w2: Unit)
    requires IsLead(w1) && IsTrail(w2)
    ensures var c := JoinPair(w1, w2);
      && PairByte1(w1) == Head4(c) && PairByte2(w1) == Tail3(c)
      && PairByte3(w1, w2) == Tail2(c) && PairByte4(w2) == Continuation(c)
  {
  }

  lemma PairBytesAreUtf8(w1: Unit, w2: Unit)
    requires IsLead(w1) && IsTrail(w2)
    ensures IsScalar(JoinPair(w1, w2)) && PairBytes(w1, w2) == Utf8Of(JoinPair(w1, w2))
  {
    hide IsLead, IsTrail, JoinPair, PairByte1, PairByte2, PairByte3, PairByte4;
    hide Head2, Head3, Head4, Tail2, Tail3, Low, Continuation, Utf8Of;
    PairRange(w1, w2);
    PairBits(w1, w2);
    Utf8ByLength(JoinPair(w1, w2));
  }

  predicate HasTrailMask(u: Unit) { u & 0xFC00 == 0xDC00 }

  /** utf16_to_utf8 at the front of the remaining input. */
  function UnitsStep(s: seq<Unit>, room: nat, max: Code): Step<Byte> {
    if s == [] then Stop(Ok)
    else if !Within(s[0] as Code, max) then Stop(Error)
    else if IsLead(s[0]) then
      if |s| < 2 then Stop(Partial)
      else if !HasTrailMask(s[1]) then Stop(Error)
      else if room < 4 then Stop(Partial)
      else if !Within(PairSum(s[0], s[1]), max) then Stop(Error)
      else Emit(2, PairBytes(s[0], s[1]))
    else if IsTrail(s[0]) then Stop(Error)
    else Put(Encoded(s[0] as Code), 1, room)
  }

  function UnitsToUtf8(max: Code): Converter<Unit, Byte> {
    (s: seq<Unit>, room: nat) => UnitsStep(s, room, max)
  }

  lemma LeadIsWithin(w1: Unit, w2: Unit, max: Code)
    requires IsLead(w1) && IsTrail(w2) && Within(JoinPair(w1, w2), max)
    ensures Within(w1 as Code, max)
  {
    hide JoinPair;
    PairRange(w1, w2);
  }

  lemma UnitsStepPair(s: seq<Unit>, room: nat, max: Code)
    requires |s| >= 2 && IsLead(s[0]) && IsTrail(s[1]) && Within(JoinPair(s[0], s[1]), max)
    ensures UnitsStep(s, room, max) == Put(Utf8Of(JoinPair(s[0], s[1])), 2, room)
  {
    hide IsLead, IsTrail, HasTrailMask, Within, JoinPair, PairSum, PairBytes, Utf8Of;
    LeadIsWithin(s[0], s[1], max);
    PairSumIsValue(s[0], s[1]);
    PairBytesAreUtf8(s[0], s[1]);
    FourBytes(s[0], s[1]);
    UnitMasks(s[1]);
  }

  lemma FourBytes(w1: Unit, w2: Unit)
    ensures |PairBytes(w1, w2)| == 4
  {
  }

  /** A character within Maxcode is written, if its bytes have room. */
  lemma UnitsStepChar(s: seq<Unit>, room: nat, max: Code, n: nat)
    requires n <= |s| && IsUtf16Char(s[..n]) && Within(UnitsValue(s[..n]), max)
    ensures UnitsStep(s, room, max) == Put(Utf8Of(UnitsValue(s[..n])), n, room)
  {
    hide IsLead, IsTrail, HasTrailMask, Within, JoinPair, PairSum, PairBytes, Utf8Of, Encoded;
    if n == 1 {
      EncodedIsUtf8(s[0] as Code);
    } else {
      UnitsStepPair(s, room, max);
    }
  }

  lemma UnitsStepOnlyChars(s: seq<Unit>, room: nat, max: Code)
    requires UnitsStep(s, room, max).Emit?
    ensures var n := UnitsStep(s, room, max).used;
      0 < n <= |s| && IsUtf16Char(s[..n]) && Within(UnitsValue(s[..n]), max)
  {
    hide IsLead, IsTrail, HasTrailMask, Within, JoinPair, PairSum, PairBytes, Encoded;
    if |s| > 1 {
      UnitMasks(s[1]);
      PairSumIsValue(s[0], s[1]);
    }
  }

  lemma UnitsStepPersists(s: seq<Unit>, t: seq<Unit>, less: nat, more: nat, max: Code)
    requires s <= t && less <= more && UnitsStep(s, less, max) == Stop(Error)
    ensures UnitsStep(t, more, max) == Stop(Error)
  {
    hide IsLead, IsTrail, HasTrailMask, Within, PairSum, PairBytes, Encoded;
  }

  lemma UnitsStepEnds(s: seq<Unit>, room: nat, max: Code)
    ensures UnitsStep(s, room, max) == Stop(Ok) <==> s == []
  {
    hide IsLead, IsTrail, HasTrailMask, Within, PairSum, PairBytes, Encoded;
  }

  /** utf16_to_utf8 waits for room for a character, or for the other half of a pair. */
  predicate UnitsWait(s: seq<Unit>, room: nat, max: Code) {
    && s != [] && Within(s[0] as Code, max)
    && if IsLead(s[0]) then |s| < 2 || (IsTrail(s[1]) && room < 4)
       else !IsTrail(s[0]) && room < |Utf8Of(s[0] as Code)|
  }

  function UnitsWaiting(max: Code): Waiting<Unit> {
    (s: seq<Unit>, room: nat) => UnitsWait(s, room, max)
  }

  /** Everything else that is not read is an error: half a pair, and a character above Maxcode. */
  lemma UnitsAnswer(max: Code)
    ensures Answers(UnitsToUtf8(max), UnitsWaiting(max))
  {
    hide IsLead, IsTrail, HasTrailMask, Within, PairSum, PairBytes, Encoded, Utf8Of;
    forall s, room ensures AnswersAt(UnitsToUtf8(max), UnitsWaiting(max), s, room) {
      if s != [] {
        EncodedIsUtf8(s[0] as Code);
        if |s| > 1 {
          UnitMasks(s[1]);
        }
      }
    }
  }

  lemma UnitsToUtf8Translates(max: Code)
    ensures Translates(UnitsToUtf8(max), Utf16Of, Utf8Of, Fits(max))
    ensures Sound(UnitsToUtf8(max)) && Monotone(UnitsToUtf8(max))
  {
    hide UnitsStep, Utf16Of, Utf8Of, UnitsValue, IsUtf16Char, IsScalar, Within;
    var step, fit := UnitsToUtf8(max), Fits(max);
    forall s, room ensures EmitsOnlyCharacters(step, Utf16Of, Utf8Of, fit, s, room) {
      if step(s, room).Emit? {
        var n := step(s, room).used;
        UnitsStepOnlyChars(s, room, max);
        UnitsStepChar(s, room, max, n);
        UnitsAreEncoding(s[..n]);
        assert Front(Utf16Of, fit, s, UnitsValue(s[..n]));
      }
    }
    forall c, s, room ensures EmitsCharacter(step, Utf16Of, Utf8Of, fit, c, s, room) {
      Utf16ByLength(c);
      if fit(c) && Front(Utf16Of, fit, s, c) {
        EncodingIsUnits(c);
        UnitsStepChar(s, room, max, |Utf16Of(c)|);
      }
    }
    forall s, room ensures OkOnlyAtTheEnd(step, s, room) {
      UnitsStepEnds(s, room, max);
    }
    forall s, t, less: nat, more: nat ensures ErrorPersists(step, s, t, less, more) {
      if s <= t && less <= more && step(s, less) == Stop(Error) {
        UnitsStepPersists(s, t, less, more, max);
      }
    }
    TranslatesIsSound(step, Utf16Of, Utf8Of, fit);
    TranslatesIsMonotone(step, Utf16Of, Utf8Of, fit);
  }

  // ----- UTF-8 to UTF-16 units -----

  /** The units that utf8_to_utf16 writes for four bytes. */
  function UnitOf4(b0: Byte, b1: Byte, b2: Byte): Unit {
    0xD800
    | (((((b0 as Unit & 0x07) << 2) | ((b1 as Unit & 0x30) >> 4)) - 1) << 6)
    | ((b1 as Unit & 0x0F) << 2)
    | ((b2 as Unit & 0x30) >> 4)
  }

  function SecondUnitOf4(b2: Byte, b3: Byte): Unit {
    0xDC00 | ((b2 as Unit & 0x0F) << 6) | (b3 as Unit & 0x3F)
  }

  /** The value that utf8_to_utf16 compares with Maxcode, again as a sum. */
  function SumOf4(b0: Byte, b1: Byte, b2: Byte, b3: Byte): Code {
    ((b0 as Code & 0x07) << 18) + ((b1 as Code & 0x3F) << 12) + ((b2 as Code & 0x3F) << 6) + (b3 as Code & 0x3F)
  }

  lemma UnitsOf4(b0: Byte, b1: Byte, b2: Byte, b3: Byte)
    requires 0x10000 <= Join4(b0, b1, b2, b3) <= 0x10FFFF
    ensures UnitOf4(b0, b1, b2) == Lead(Join4(b0, b1, b2, b3))
    ensures SecondUnitOf4(b2, b3) == Trail(Join4(b0, b1, b2, b3))
  {
  }

  lemma SumIsJoin4(b0: Byte, b1: Byte, b2: Byte, b3: Byte)
    ensures SumOf4(b0, b1, b2, b3) == Join4(b0, b1, b2, b3)
  {
  }

  function AcceptUnits(c: Code, used: nat, max: Code): Step<Unit> {
    if Within(c, max) then Emit(used, [Low16(c)]) else Stop(Error)
  }

  /** utf8_to_utf16 at the front of the remaining input. */
  function BytesStep(s: seq<Byte>, room: nat, max: Code): Step<Unit> {
    if s == [] then Stop(Ok)
    else if room == 0 then Stop(Partial)
    else if !Within(s[0] as Code, max) then Stop(Error)
    else if s[0] < 0x80 then Emit(1, [Low16(s[0] as Code)])
    else if s[0] < 0xC2 then Stop(Error)
    else if s[0] < 0xE0 then
      if |s| < 2 then Stop(Partial)
      else if s[1] & 0xC0 != 0x80 then Stop(Error)
      else AcceptUnits(Join2(s[0], s[1]), 2, max)
    else if s[0] < 0xF0 then
      if |s| < 3 then Stop(Partial)
      else if !SecondOf3(s[0], s[1]) || s[2] & 0xC0 != 0x80 then Stop(Error)
      else AcceptUnits(Join3(s[0], s[1], s[2]), 3, max)
    else if s[0] < 0xF5 then
      if |s| < 4 then Stop(Partial)
      else if !SecondOf4(s[0], s[1]) || s[2] & 0xC0 != 0x80 || s[3] & 0xC0 != 0x80 then Stop(Error)
      else if room < 2 then Stop(Partial)
      else if !Within(SumOf4(s[0], s[1], s[2], s[3]), max) then Stop(Error)
      else Emit(4, [UnitOf4(s[0], s[1], s[2]), SecondUnitOf4(s[2], s[3])])
    else Stop(Error)
  }

  function Utf8ToUnits(max: Code): Converter<Byte, Unit> {
    (s: seq<Byte>, room: nat) => BytesStep(s, room, max)
  }

  /** utf8_to_utf16 also compares the first byte of every sequence with Maxcode. */
  predicate LeadWithin(c: Code, max: Code) {
    Within(Utf8Of(c)[0] as Code, max)
  }

  function FitsWithLead(max: Code): Code -> bool {
    c => Fits(max)(c) && LeadWithin(c, max)
  }

  /** Four bytes are what takes two units. */
  lemma FourBytesTwoUnits(b: seq<Byte>)
    requires IsUtf8Char(b)
    ensures |b| == 4 <==> Value(b) >= 0x10000
    ensures |b| < 4 ==> Utf16Of(Value(b)) == [Low16(Value(b))]
    ensures |b| == 4 ==> Utf16Of(Value(b)) == [UnitOf4(b[0], b[1], b[2]), SecondUnitOf4(b[2], b[3])]
  {
    hide Utf8Of, Join2, Join3, Join4, UnitOf4, SecondUnitOf4, Lead, Trail, Low16, IsTail;
    CharIsEncoding(b);
    Utf8ByLength(Value(b));
    if |b| == 4 {
      UnitsOf4(b[0], b[1], b[2], b[3]);
    }
  }

  /** Beside utf8_to_ucs4, which emits the character itself: emits its units, if the first byte is
      within Maxcode and the units have room. */
  lemma FollowsDecoder(s: seq<Byte>, room: nat, max: Code)
    ensures var d := DecodeStep(s, room, max);
      BytesStep(s, room, max).Emit? <==>
        d.Emit? && s != [] && Within(s[0] as Code, max) && |Utf16Of(d.out[0])| <= room
    ensures BytesStep(s, room, max).Emit? ==>
      BytesStep(s, room, max) == Emit(DecodeStep(s, room, max).used, Utf16Of(DecodeStep(s, room, max).out[0]))
  {
    hide Join2, Join3, Join4, SecondOf3, SecondOf4, UnitOf4, SecondUnitOf4, SumOf4, Low16, Utf16Of, Within, IsUtf8Char;
    if |s| >= 4 {
      SumIsJoin4(s[0], s[1], s[2], s[3]);
    }
    var d := DecodeStep(s, room, max);
    if d.Emit? {
      DecodesOnlyChars(s, room, max);
      DecodesChar(s, room, max, d.used);
      FourBytesTwoUnits(s[..d.used]);
    }
  }

  lemma BytesStepPersists(s: seq<Byte>, t: seq<Byte>, less: nat, more: nat, max: Code)
    requires s <= t && less <= more && BytesStep(s, less, max) == Stop(Error)
    ensures BytesStep(t, more, max) == Stop(Error)
  {
    hide Join2, Join3, Join4, SecondOf3, SecondOf4, UnitOf4, SecondUnitOf4, SumOf4, Low16, Within;
  }

  lemma BytesStepEnds(s: seq<Byte>, room: nat, max: Code)
    ensures BytesStep(s, room, max) == Stop(Ok) <==> s == []
  {
    hide Join2, Join3, Join4, SecondOf3, SecondOf4, UnitOf4, SecondUnitOf4, SumOf4, Low16, Within;
  }

  /** utf8_to_utf16 waits for room, for the bytes that the first byte announces, or for room for both
      units of a pair; not if the first byte is above Maxcode. */
  predicate BytesWait(s: seq<Byte>, room: nat, max: Code) {
    && s != []
    && (room == 0
        || (Within(s[0] as Code, max)
            && (|s| < Announced(s[0]) || (room < 2 && Announced(s[0]) == 4 && IsUtf8Char(s[..4])))))
  }

  function BytesWaiting(max: Code): Waiting<Byte> {
    (s: seq<Byte>, room: nat) => BytesWait(s, room, max)
  }

  lemma BytesAnswer(max: Code)
    ensures Answers(Utf8ToUnits(max), BytesWaiting(max))
  {
    hide Join2, Join3, Join4, UnitOf4, SecondUnitOf4, SumOf4, Low16, Within;
    forall s, room ensures AnswersAt(Utf8ToUnits(max), BytesWaiting(max), s, room) {
      if |s| > 3 {
        Masks(s[1]);
        Masks(s[2]);
        Masks(s[3]);
      }
    }
  }

  lemma Utf8ToUnitsTranslates(max: Code)
    ensures Translates(Utf8ToUnits(max), Utf8Of, Utf16Of, FitsWithLead(max))
    ensures Sound(Utf8ToUnits(max)) && Monotone(Utf8ToUnits(max))
  {
    hide BytesStep, DecodeStep, Utf16Of, Utf8Of, IsScalar, Within;
    var step, fit := Utf8ToUnits(max), FitsWithLead(max);
    forall s, room ensures EmitsOnlyCharacters(step, Utf8Of, Utf16Of, fit, s, room) {
      FollowsDecoder(s, room, max);
      if step(s, room).Emit? {
        DecodesOnlyUtf8(s, room, max);
        var c := DecodeStep(s, room, max).out[0];
        assert Utf8Of(c)[0] == s[..|Utf8Of(c)|][0] == s[0];
        assert Front(Utf8Of, fit, s, c);
      }
    }
    forall c, s, room ensures EmitsCharacter(step, Utf8Of, Utf16Of, fit, c, s, room) {
      DecodesUtf8(c, s, room, max);
      Utf16ByLength(c);
      if Front(Utf8Of, fit, s, c) {
        assert Utf8Of(c)[0] == s[..|Utf8Of(c)|][0] == s[0];
        assert Front(Utf8Of, Fits(max), s, c);
        FollowsDecoder(s, room, max);
      }
    }
    forall s, room ensures OkOnlyAtTheEnd(step, s, room) {
      BytesStepEnds(s, room, max);
    }
    forall s, t, less: nat, more: nat ensures ErrorPersists(step, s, t, less, more) {
      if s <= t && less <= more && step(s, less) == Stop(Error) {
        BytesStepPersists(s, t, less, more, max);
      }
    }
    TranslatesIsSound(step, Utf8Of, Utf16Of, fit);
    TranslatesIsMonotone(step, Utf8Of, Utf16Of, fit);
  }

  lemma SmallLead(c: Code, max: Code)
    requires Fits(max)(c) && (max < 0x80 || max >= 0xC3)
    ensures LeadWithin(c, max)
  {
    hide Continuation, Tail2, Tail3;
    if c < 0x80 {
      OneCode(c);
    } else if c < 0x800 {
      Split2(c);
      LeadOfTwo(c);
    } else if c < 0x10000 {
      Split3(c);
    } else {
      Split4(c);
    }
  }

  lemma LeadOfTwo(c: Code)
    requires 0x80 <= c < 0x800
    ensures 0xC2 <= Head2(c) as Code <= 0xDF
    ensures c < 0x100 ==> Head2(c) <= 0xC3
    ensures c == 0x80 ==> Head2(c) == 0xC2
    ensures c == 0xC2 ==> Head2(c) == 0xC3
  {
  }

  /** Comparing the first byte of every sequence with Maxcode keeps out no character within Maxcode
      exactly if Maxcode is below 0x80 or at least 0xC3; between the two, utf8_to_utf16 rejects
      valid text that the other converters accept. */
  lemma LeadCheckIsHarmless(max: Code)
    ensures (forall c :: Fits(max)(c) ==> LeadWithin(c, max)) <==> max < 0x80 || max >= 0xC3
  {
    if max < 0x80 || max >= 0xC3 {
      forall c | Fits(max)(c) ensures LeadWithin(c, max) {
        SmallLead(c, max);
      }
    } else {
      var c: Code := if max < 0xC2 then 0x80 else 0xC2;
      LeadOfTwo(c);
      assert Fits(max)(c) && Utf8Of(c)[0] == Head2(c);
      assert !LeadWithin(c, max);
    }
  }

  /** U+0080 with Maxcode 0x80: utf8_to_utf16 rejects what utf8_to_ucs4 accepts. */
  lemma LeadCheckRejects()
    ensures Utf8Of(0x80) == [0xC2, 0x80]
    ensures BytesStep([0xC2, 0x80], 1, 0x80) == Stop(Error)
    ensures DecodeStep([0xC2, 0x80], 1, 0x80) == Emit(2, [0x80])
  {
    LeadOfTwo(0x80);
    assert Continuation(0x80) == 0x80 && Join2(0xC2, 0x80) == 0x80;
  }

  /** One character of utf8_to_utf16_length: bytes and units, or (0, 0) for its break. */
  function UnitsLengthStep(s: seq<Byte>, room: nat, max: Code): (nat, nat) {
    if s == [] || room == 0 || !Within(s[0] as Code, max) then (0, 0)
    else if s[0] < 0x80 then (1, 1)
    else if s[0] < 0xC2 then (0, 0)
    else if s[0] < 0xE0 then
      if |s| < 2 || s[1] & 0xC0 != 0x80 || !Within(Join2(s[0], s[1]), max) then (0, 0) else (2, 1)
    else if s[0] < 0xF0 then
      if |s| < 3 || !SecondOf3(s[0], s[1]) || s[2] & 0xC0 != 0x80 || !Within(Join3(s[0], s[1], s[2]), max) then (0, 0)
      else (3, 1)
    else if s[0] < 0xF5 then
      if |s| < 4 || room < 2 || !SecondOf4(s[0], s[1]) || s[2] & 0xC0 != 0x80 || s[3] & 0xC0 != 0x80
         || !Within(SumOf4(s[0], s[1], s[2], s[3]), max)
      then (0, 0)
      else (4, 2)
    else (0, 0)
  }

  function UnitsLengths(max: Code): Measurer<Byte> {
    (s: seq<Byte>, room: nat) => UnitsLengthStep(s, room, max)
  }

  lemma UnitsLengthStepMeasures(s: seq<Byte>, room: nat, max: Code)
    ensures UnitsLengthStep(s, room, max) ==
      if BytesStep(s, room, max).Emit? then (BytesStep(s, room, max).used, |BytesStep(s, room, max).out|) else (0, 0)
  {
    hide Join2, Join3, Join4, SecondOf3, SecondOf4, UnitOf4, SecondUnitOf4, SumOf4, Low16, Within;
  }

  lemma UnitsLengthsMeasure(max: Code)
    ensures Measures(UnitsLengths(max), Utf8ToUnits(max))
  {
    hide UnitsLengthStep, BytesStep;
    forall s, room ensures MeasuresAt(UnitsLengths(max), Utf8ToUnits(max), s, room) {
      UnitsLengthStepMeasures(s, room, max);
    }
  }

  /** A header in front is rejected if U+FEFF is not within Maxcode. */
  lemma RejectsUnitsHeader(s: seq<Byte>, max: Code, room: nat)
    requires HEADER <= s && max < BOM && room > 0
    ensures BytesStep(s, room, max) == Stop(Error)
  {
    hide Within, Join3, Low16;
    assert s[0] == 0xEF && s[1] == 0xBB && s[2] == 0xBF;
    HeaderJoins(max);
  }

  lemma HeaderJoins(max: Code)
    ensures Join3(0xEF, 0xBB, 0xBF) == BOM && SecondOf3(0xEF, 0xBB)
    ensures max < BOM ==> !Within(BOM, max)
    ensures max >= BOM ==> Within(0xEF, max)
  {
  }

  /** U+FEFF passes utf8_to_utf16 exactly if it is within Maxcode. */
  lemma MarkFitsWithLead(max: Code)
    ensures FitsWithLead(max)(BOM) <==> max >= BOM
  {
    hide Utf8Of;
    HeaderIsTheMark();
    HeaderJoins(max);
    assert Utf8Of(BOM)[0] as Code == 0xEF;
    assert Fits(max)(BOM) <==> max >= BOM;
    assert max >= BOM ==> LeadWithin(BOM, max);
  }

  /** For every text within Maxcode, if comparing first bytes is harmless: UTF-16 to UTF-8 and back, with
      every treatment of headers. */
  lemma UnitsRoundTrip(xs: seq<Code>, max: Code, generate: bool, consume: bool, room: nat, back: nat)
    requires (forall i :: 0 <= i < |xs| ==> Fits(max)(xs[i])) && (max < 0x80 || max >= 0xC3)
    requires room >= |All(Utf8Of, xs)| + if generate then 3 else 0
    requires back >= |All(Utf16Of, Reread(BOM, generate, consume, xs))|
    ensures Sound(UnitsToUtf8(max)) && Sound(Utf8ToUnits(max))
    ensures var units := All(Utf16Of, xs);
      var there := WithHeader(UnitsToUtf8(max), HEADER, generate, units, room);
      && there == Outcome(Ok, |units|, (if generate then HEADER else []) + All(Utf8Of, xs))
      && SkippingHeader(Utf8ToUnits(max), HEADER, consume, there.out, back) ==
           if generate && !consume && max < BOM then Outcome(Error, 0, [])
           else Outcome(Ok, |there.out|, All(Utf16Of, Reread(BOM, generate, consume, xs)))
  {
    hide Utf8Of, Utf16Of, Within, IsScalar, Translates, BytesStep, LeadWithin;
    UnitsToUtf8Translates(max);
    Utf8ToUnitsTranslates(max);
    HeaderIsTheMark();
    EncodesWithHeader(UnitsToUtf8(max), Utf16Of, Utf8Of, Fits(max), HEADER, generate, xs, room);
    forall i | 0 <= i < |xs| ensures FitsWithLead(max)(xs[i]) {
      SmallLead(xs[i], max);
    }
    MarkInFront(xs, max);
    MarkFitsWithLead(max);
    if generate && !consume && max < BOM {
      MarkTakesRoom(xs);
      RejectsUnitsHeader(HEADER + All(Utf8Of, xs), max, back);
    }
    HeaderRoundTrip(
      Utf8ToUnits(max), Utf8Of, Utf16Of, FitsWithLead(max), HEADER, BOM, generate, consume, xs, back);
  }

  lemma MarkTakesRoom(xs: seq<Code>)
    ensures |All(Utf16Of, [BOM] + xs)| > 0
  {
    hide Utf16Of;
    AllCons(Utf16Of, BOM, xs);
    Utf16ByLength(BOM);
  }

  // ----- the functions -----

  method Utf16ToUtf8(from: seq<Unit>, to: array<Byte>, max: Code, generate: bool)
    returns (status: Status, used: nat, written: nat)
    modifies to
    ensures used <= |from| && written <= to.Length && to[written..] == old(to[written..])
    ensures Sound(UnitsToUtf8(max))
    ensures Outcome(status, used, to[..written]) == WithHeader(UnitsToUtf8(max), HEADER, generate, from, to.Length)
    ensures if generate && to.Length < 3 then (status, used, written) == (Partial, 0, 0)
            else status == Answer(from[used..], UnitsWait(from[used..], to.Length - written, max))
  {
    hide UnitsToUtf8, Run, Sound, Translates, Monotone, Answers, UnitsWait;
    UnitsToUtf8Translates(max);
    UnitsAnswer(max);
    var at := 0;
    if generate {
      var stored := Store(to, 0, HEADER);
      if !stored {
        return Partial, 0, 0;
      }
      at := 3;
    }
    CallAnswers(UnitsToUtf8(max), UnitsWaiting(max), from, 0, to.Length - at);
    status, used, written := Convert(UnitsToUtf8(max), from, 0, to, at);
    assert from[0..] == from;
  }

  method Utf8ToUtf16(from: seq<Byte>, to: array<Unit>, max: Code, consume: bool)
    returns (status: Status, used: nat, written: nat)
    modifies to
    ensures used <= |from| && written <= to.Length && to[written..] == old(to[written..])
    ensures Sound(Utf8ToUnits(max))
    ensures Outcome(status, used, to[..written]) == SkippingHeader(Utf8ToUnits(max), HEADER, consume, from, to.Length)
    ensures status == Answer(from[used..], BytesWait(from[used..], to.Length - written, max))
  {
    hide Utf8ToUnits, Run, Sound, Translates, Monotone, StartsWithHeader, Answers, BytesWait;
    Utf8ToUnitsTranslates(max);
    BytesAnswer(max);
    HeaderInFront(from);
    var start := if consume && StartsWithHeader(from) then 3 else 0;
    CallAnswers(Utf8ToUnits(max), BytesWaiting(max), from, start, to.Length);
    status, used, written := Convert(Utf8ToUnits(max), from, start, to, 0);
    assert from[0..] == from;
  }

  /** Equals what utf8_to_utf16 consumes, given room for mx units; a pair counts as two. */
  method Utf8ToUtf16Length(from: seq<Byte>, mx: nat, max: Code, consume: bool) returns (used: nat)
    ensures Sound(Utf8ToUnits(max)) && used == SkippingHeader(Utf8ToUnits(max), HEADER, consume, from, mx).used
  {
    hide Utf8ToUnits, Run, Sound, Translates, Monotone, StartsWithHeader, UnitsLengths, Measures;
    Utf8ToUnitsTranslates(max);
    UnitsLengthsMeasure(max);
    HeaderInFront(from);
    var start := if consume && StartsWithHeader(from) then 3 else 0;
    used := Measure(UnitsLengths(max), Utf8ToUnits(max), from, start, mx);
    assert from[0..] == from;
  }
}
