/** UTF-8 (RFC 3629) to and from UCS-4. */
module Utf8 {
  import opened Transcoding

  predicate IsSurrogate(c: Code) {
    0xD800 <= c <= 0xDFFF
  }

  /** The characters there are. */
  predicate IsScalar(c: Code) {
    c <= 0x10FFFF && !IsSurrogate(c)
  }

  /** c <= Maxcode */
  predicate Within(c: Code, max: Code) {
    c <= max
  }

  function Fits(max: Code): Code -> bool {
    c => IsScalar(c) && Within(c, max)
  }

  function Single(c: Code): seq<Code> { [c] }

  function Low(c: Code): Byte { (c & 0xFF) as Byte }

  /** 10xxxxxx with the lowest six bits. */
  function Continuation(c: Code): Byte {
    0x80 | Low(c & 0x3F)
  }

  function Head2(c: Code): Byte { 0xC0 | Low(c >> 6) }

  function Head3(c: Code): Byte { 0xE0 | Low(c >> 12) }

  function Head4(c: Code): Byte { 0xF0 | Low(c >> 18) }

  function Tail2(c: Code): Byte { Continuation(c >> 6) }

  function Tail3(c: Code): Byte { Continuation(c >> 12) }

  /** Section 3 of RFC 3629. */
  function Utf8Of(c: Code): seq<Byte> {
    if c < 0x80 then [Low(c)]
    else if c < 0x800 then [Head2(c), Continuation(c)]
    else if c < 0x10000 then [Head3(c), Tail2(c), Continuation(c)]
    else [Head4(c), Tail3(c), Tail2(c), Continuation(c)]
  }

  predicate IsTail(b: Byte) { 0x80 <= b <= 0xBF }

  /** UTF8-char in section 4 of RFC 3629. */
  predicate IsUtf8Char(b: seq<Byte>) {
    || (|b| == 1 && b[0] <= 0x7F)
    || (|b| == 2 && 0xC2 <= b[0] <= 0xDF && IsTail(b[1]))
    || (|b| == 3 && IsTail(b[2]) && (
          || (b[0] == 0xE0 && 0xA0 <= b[1] <= 0xBF)
          || (0xE1 <= b[0] <= 0xEC && IsTail(b[1]))
          || (b[0] == 0xED && 0x80 <= b[1] <= 0x9F)
          || (0xEE <= b[0] <= 0xEF && IsTail(b[1]))))
    || (|b| == 4 && IsTail(b[2]) && IsTail(b[3]) && (
          || (b[0] == 0xF0 && 0x90 <= b[1] <= 0xBF)
          || (0xF1 <= b[0] <= 0xF3 && IsTail(b[1]))
          || (b[0] == 0xF4 && 0x80 <= b[1] <= 0x8F)))
  }

  // ----- the bits -----

  function Join2(b0: Byte, b1: Byte): Code {
    ((b0 as Code & 0x1F) << 6) | (b1 as Code & 0x3F)
  }

  function Join3(b0: Byte, b1: Byte, b2: Byte): Code {
    ((b0 as Code & 0x0F) << 12) | ((b1 as Code & 0x3F) << 6) | (b2 as Code & 0x3F)
  }

  function Join4(b0: Byte, b1: Byte, b2: Byte, b3: Byte): Code {
    ((b0 as Code & 0x07) << 18) | ((b1 as Code & 0x3F) << 12) | ((b2 as Code & 0x3F) << 6) | (b3 as Code & 0x3F)
  }

  lemma Split2(c: Code)
    requires 0x80 <= c < 0x800
    ensures var b0, b1 := Head2(c), Continuation(c);
      0xC2 <= b0 <= 0xDF && IsTail(b1) && Join2(b0, b1) == c
  {
  }

  lemma Joined2(b0: Byte, b1: Byte)
    requires 0xC2 <= b0 <= 0xDF && IsTail(b1)
    ensures var c := Join2(b0, b1);
      0x80 <= c < 0x800 && Head2(c) == b0 && Continuation(c) == b1
  {
  }

  lemma Split3(c: Code)
    requires 0x800 <= c < 0x10000
    ensures var b0, b1, b2 := Head3(c), Tail2(c), Continuation(c);
      && 0xE0 <= b0 <= 0xEF && IsTail(b1) && IsTail(b2)
      && (b0 == 0xE0 ==> 0xA0 <= b1) && (b0 == 0xED && !IsSurrogate(c) ==> b1 <= 0x9F)
  {
  }

  lemma Rejoin3(c: Code)
    requires 0x800 <= c < 0x10000
    ensures Join3(Head3(c), Tail2(c), Continuation(c)) == c
  {
  }

  lemma Joined3(b0: Byte, b1: Byte, b2: Byte)
    requires 0xE0 <= b0 <= 0xEF && IsTail(b1) && IsTail(b2)
    requires (b0 == 0xE0 ==> 0xA0 <= b1) && (b0 == 0xED ==> b1 <= 0x9F)
    ensures var c := Join3(b0, b1, b2);
      0x800 <= c < 0x10000 && !IsSurrogate(c) && Head3(c) == b0 && Tail2(c) == b1 && Continuation(c) == b2
  {
  }

  lemma Split4(c: Code)
    requires 0x10000 <= c <= 0x10FFFF
    ensures var b0, b1, b2, b3 := Head4(c), Tail3(c), Tail2(c), Continuation(c);
      && 0xF0 <= b0 <= 0xF4 && IsTail(b1) && IsTail(b2) && IsTail(b3)
      && (b0 == 0xF0 ==> 0x90 <= b1) && (b0 == 0xF4 ==> b1 <= 0x8F)
  {
  }

  lemma Rejoin4(c: Code)
    requires 0x10000 <= c <= 0x10FFFF
    ensures Join4(Head4(c), Tail3(c), Tail2(c), Continuation(c)) == c
  {
  }

  lemma Joined4(b0: Byte, b1: Byte, b2: Byte, b3: Byte)
    requires 0xF0 <= b0 <= 0xF4 && IsTail(b1) && IsTail(b2) && IsTail(b3)
    requires (b0 == 0xF0 ==> 0x90 <= b1) && (b0 == 0xF4 ==> b1 <= 0x8F)
    ensures var c := Join4(b0, b1, b2, b3);
      0x10000 <= c <= 0x10FFFF && Head4(c) == b0 && Tail3(c) == b1 && Tail2(c) == b2 && Continuation(c) == b3
  {
  }

  lemma OneByte(b: Byte)
    requires b < 0x80
    ensures b as Code < 0x80 && Low(b as Code) == b
  {
  }

  lemma OneCode(c: Code)
    requires c < 0x80
    ensures Low(c) < 0x80 && Low(c) as Code == c
  {
  }

  // ----- well-formed is what an encoding is -----

  function Value(b: seq<Byte>): Code
    requires IsUtf8Char(b)
  {
    if |b| == 1 then b[0] as Code
    else if |b| == 2 then Join2(b[0], b[1])
    else if |b| == 3 then Join3(b[0], b[1], b[2])
    else Join4(b[0], b[1], b[2], b[3])
  }

  /** The encoding by length. */
  lemma Utf8ByLength(c: Code)
    ensures c < 0x80 ==> Utf8Of(c) == [Low(c)]
    ensures 0x80 <= c < 0x800 ==> Utf8Of(c) == [Head2(c), Continuation(c)]
    ensures 0x800 <= c < 0x10000 ==> Utf8Of(c) == [Head3(c), Tail2(c), Continuation(c)]
    ensures 0x10000 <= c ==>
      Utf8Of(c) == [Head4(c), Tail3(c), Tail2(c), Continuation(c)]
  {
  }

  lemma EncodesJoined1(b0: Byte)
    requires b0 < 0x80
    ensures b0 as Code < 0x80 && Utf8Of(b0 as Code) == [b0]
  {
    OneByte(b0);
  }

  lemma EncodesJoined2(b0: Byte, b1: Byte)
    requires 0xC2 <= b0 <= 0xDF && IsTail(b1)
    ensures Join2(b0, b1) < 0x800 && Utf8Of(Join2(b0, b1)) == [b0, b1]
  {
    hide Join2, Low, Continuation, Head2, Head3, Head4, Tail2, Tail3, Utf8Of;
    Joined2(b0, b1);
    Utf8ByLength(Join2(b0, b1));
  }

  lemma EncodesJoined3(b0: Byte, b1: Byte, b2: Byte)
    requires 0xE0 <= b0 <= 0xEF && IsTail(b1) && IsTail(b2)
    requires (b0 == 0xE0 ==> 0xA0 <= b1) && (b0 == 0xED ==> b1 <= 0x9F)
    ensures IsScalar(Join3(b0, b1, b2)) && Utf8Of(Join3(b0, b1, b2)) == [b0, b1, b2]
  {
    hide Join3, Low, Continuation, Head2, Head3, Head4, Tail2, Tail3, Utf8Of;
    Joined3(b0, b1, b2);
    Utf8ByLength(Join3(b0, b1, b2));
  }

  lemma EncodesJoined4(b0: Byte, b1: Byte, b2: Byte, b3: Byte)
    requires 0xF0 <= b0 <= 0xF4 && IsTail(b1) && IsTail(b2) && IsTail(b3)
    requires (b0 == 0xF0 ==> 0x90 <= b1) && (b0 == 0xF4 ==> b1 <= 0x8F)
    ensures IsScalar(Join4(b0, b1, b2, b3)) && Utf8Of(Join4(b0, b1, b2, b3)) == [b0, b1, b2, b3]
  {
    hide Join4, Low, Continuation, Head2, Head3, Head4, Tail2, Tail3, Utf8Of;
    Joined4(b0, b1, b2, b3);
    Utf8ByLength(Join4(b0, b1, b2, b3));
  }

  /** A well-formed sequence is the encoding of its value, a character. */
  lemma CharIsEncoding(b: seq<Byte>)
    requires IsUtf8Char(b)
    ensures IsScalar(Value(b)) && Utf8Of(Value(b)) == b
  {
    hide Join2, Join3, Join4, Utf8Of;
    if |b| == 1 {
      EncodesJoined1(b[0]);
      assert b == [b[0]];
    } else if |b| == 2 {
      EncodesJoined2(b[0], b[1]);
      assert b == [b[0], b[1]];
    } else if |b| == 3 {
      EncodesJoined3(b[0], b[1], b[2]);
      assert b == [b[0], b[1], b[2]];
    } else {
      EncodesJoined4(b[0], b[1], b[2], b[3]);
      assert b == [b[0], b[1], b[2], b[3]];
    }
  }

  /** The encoding of a character is well formed and has that value. */
  lemma EncodingIsChar(c: Code)
    requires IsScalar(c)
    ensures IsUtf8Char(Utf8Of(c)) && Value(Utf8Of(c)) == c
  {
    hide Join2, Join3, Join4, Low, Continuation, Head2, Head3, Head4, Tail2, Tail3;
    if c < 0x80 {
      OneCode(c);
    } else if c < 0x800 {
      Split2(c);
    } else if c < 0x10000 {
      Split3(c);
      Rejoin3(c);
    } else {
      Split4(c);
      Rejoin4(c);
    }
  }

  /** The masks of the source as ranges. */
  lemma Masks(b: Byte)
    ensures b & 0xC0 == 0x80 <==> IsTail(b)
    ensures b & 0xE0 == 0xA0 <==> 0xA0 <= b <= 0xBF
    ensures b & 0xE0 == 0x80 <==> 0x80 <= b <= 0x9F
    ensures b & 0xF0 == 0x80 <==> 0x80 <= b <= 0x8F
  {
  }

  // ----- UTF-8 to UCS-4 -----

  function Accept(c: Code, used: nat, max: Code): Step<Code> {
    if Within(c, max) then Emit(used, [c]) else Stop(Error)
  }

  /** The switch on the lead byte of three. */
  predicate SecondOf3(b0: Byte, b1: Byte) {
    if b0 == 0xE0 then b1 & 0xE0 == 0xA0 else if b0 == 0xED then b1 & 0xE0 == 0x80 else b1 & 0xC0 == 0x80
  }

  /** The switch on the lead byte of four. */
  predicate SecondOf4(b0: Byte, b1: Byte) {
    if b0 == 0xF0 then 0x90 <= b1 <= 0xBF else if b0 == 0xF4 then b1 & 0xF0 == 0x80 else b1 & 0xC0 == 0x80
  }

  /** utf8_to_ucs4 at the front of the remaining input. */
  function DecodeStep(s: seq<Byte>, room: nat, max: Code): Step<Code> {
    if s == [] then Stop(Ok)
    else if room == 0 then Stop(Partial)
    else if s[0] < 0x80 then Accept(s[0] as Code, 1, max)
    else if s[0] < 0xC2 then Stop(Error)
    else if s[0] < 0xE0 then
      if |s| < 2 then Stop(Partial)
      else if s[1] & 0xC0 != 0x80 then Stop(Error)
      else Accept(Join2(s[0], s[1]), 2, max)
    else if s[0] < 0xF0 then
      if |s| < 3 then Stop(Partial)
      else if !SecondOf3(s[0], s[1]) || s[2] & 0xC0 != 0x80 then Stop(Error)
      else Accept(Join3(s[0], s[1], s[2]), 3, max)
    else if s[0] < 0xF5 then
      if |s| < 4 then Stop(Partial)
      else if !SecondOf4(s[0], s[1]) || s[2] & 0xC0 != 0x80 || s[3] & 0xC0 != 0x80 then Stop(Error)
      else Accept(Join4(s[0], s[1], s[2], s[3]), 4, max)
    else Stop(Error)
  }

  function Decoder(max: Code): Converter<Byte, Code> {
    (s: seq<Byte>, room: nat) => DecodeStep(s, room, max)
  }

  /** The decoder accepts every well-formed character. */
  lemma DecodesChar(s: seq<Byte>, room: nat, max: Code, n: nat)
    requires room > 0 && n <= |s| && IsUtf8Char(s[..n])
    ensures DecodeStep(s, room, max) == Accept(Value(s[..n]), n, max)
  {
    hide Join2, Join3, Join4;
    if n > 1 { Masks(s[1]); }
    if n > 2 { Masks(s[2]); }
    if n > 3 { Masks(s[3]); }
  }

  /** The decoder accepts nothing but well-formed characters. */
  lemma DecodesOnlyChars(s: seq<Byte>, room: nat, max: Code)
    requires DecodeStep(s, room, max).Emit?
    ensures room > 0 && 0 < DecodeStep(s, room, max).used <= |s|
    ensures IsUtf8Char(s[..DecodeStep(s, room, max).used])
  {
    hide Join2, Join3, Join4;
    if |s| > 1 { Masks(s[1]); }
    if |s| > 2 { Masks(s[2]); }
    if |s| > 3 { Masks(s[3]); }
  }

  lemma DecodesOnlyUtf8(s: seq<Byte>, room: nat, max: Code)
    ensures EmitsOnlyCharacters(Decoder(max), Utf8Of, Single, Fits(max), s, room)
  {
    hide Utf8Of, Value, IsUtf8Char, IsScalar, DecodeStep;
    if DecodeStep(s, room, max).Emit? {
      var n := DecodeStep(s, room, max).used;
      DecodesOnlyChars(s, room, max);
      DecodesChar(s, room, max, n);
      CharIsEncoding(s[..n]);
      assert Front(Utf8Of, Fits(max), s, Value(s[..n]));
    }
  }

  lemma DecodesUtf8(c: Code, s: seq<Byte>, room: nat, max: Code)
    ensures EmitsCharacter(Decoder(max), Utf8Of, Single, Fits(max), c, s, room)
  {
    hide Value, DecodeStep;
    if Fits(max)(c) {
      EncodingIsChar(c);
      if Front(Utf8Of, Fits(max), s, c) && room > 0 {
        DecodesChar(s, room, max, |Utf8Of(c)|);
      }
    }
  }

  lemma DecoderTranslates(max: Code)
    ensures Translates(Decoder(max), Utf8Of, Single, Fits(max)) && Sound(Decoder(max)) && Monotone(Decoder(max))
  {
    forall s, room ensures EmitsOnlyCharacters(Decoder(max), Utf8Of, Single, Fits(max), s, room) {
      DecodesOnlyUtf8(s, room, max);
    }
    forall c, s, room ensures EmitsCharacter(Decoder(max), Utf8Of, Single, Fits(max), c, s, room) {
      DecodesUtf8(c, s, room, max);
    }
    forall s, room ensures OkOnlyAtTheEnd(Decoder(max), s, room) {
    }
    forall s, t, less: nat, more: nat ensures ErrorPersists(Decoder(max), s, t, less, more) {
    }
    TranslatesIsSound(Decoder(max), Utf8Of, Single, Fits(max));
    TranslatesIsMonotone(Decoder(max), Utf8Of, Single, Fits(max));
  }

  /** How many bytes a first byte announces; 0 if no character begins with it. */
  function Announced(b: Byte): nat {
    if b < 0x80 then 1
    else if b < 0xC2 then 0
    else if b < 0xE0 then 2
    else if b < 0xF0 then 3
    else if b < 0xF5 then 4
    else 0
  }

  /** A first byte announces the length of every character that begins with it, and more than 0 exactly
      if there is one. */
  lemma AnnouncesLength(b: Byte, c: seq<Byte>)
    ensures IsUtf8Char(c) && c[0] == b ==> |c| == Announced(b)
    ensures Announced(b) > 0 <==> exists d :: IsUtf8Char(d) && d[0] == b
  {
    if Announced(b) > 0 {
      var d := [b, if b == 0xF0 then 0x90 else if b == 0xE0 then 0xA0 else 0x80, 0x80, 0x80][..Announced(b)];
      assert IsUtf8Char(d) && d[0] == b;
    }
  }

  /** utf8_to_ucs4 waits for room, or for the bytes that the first byte announces. */
  predicate Utf8Waits(s: seq<Byte>, room: nat) {
    s != [] && (room == 0 || |s| < Announced(s[0]))
  }

  /** Everything else that is not read is an error: a byte that begins no character, announced bytes that
      make none, and a character above Maxcode. */
  lemma DecoderAnswers(max: Code)
    ensures Answers(Decoder(max), Utf8Waits)
  {
    hide Join2, Join3, Join4, SecondOf3, SecondOf4;
    forall s, room ensures AnswersAt(Decoder(max), Utf8Waits, s, room) {
    }
  }

  // ----- UCS-4 to UTF-8 -----

  function Put<Out>(out: seq<Out>, used: nat, room: nat): Step<Out> {
    if room < |out| then Stop(Partial) else Emit(used, out)
  }

  function Middle(c: Code): Byte { 0x80 | Low((c & 0x0FC0) >> 6) }

  function Upper(c: Code): Byte { 0x80 | Low((c & 0x03F000) >> 12) }

  function Last(c: Code): Byte { 0x80 | Low(c & 0x3F) }

  /** The bytes ucs4_to_utf8 writes. */
  function Encoded(c: Code): seq<Byte> {
    if c < 0x80 then [Low(c)]
    else if c < 0x800 then [Head2(c), Last(c)]
    else if c < 0x10000 then [Head3(c), Middle(c), Last(c)]
    else [Head4(c), Upper(c), Middle(c), Last(c)]
  }

  predicate Refused(c: Code, max: Code) {
    c & 0xFFFFF800 == 0xD800 || c > max
  }

  /** ucs4_to_utf8 at the front of the remaining input. */
  function EncodeStep(s: seq<Code>, room: nat, max: Code): Step<Byte> {
    if s == [] then Stop(Ok)
    else if Refused(s[0], max) then Stop(Error)
    else Put(Encoded(s[0]), 1, room)
  }

  function Encoder(max: Code): Converter<Code, Byte> {
    (s: seq<Code>, room: nat) => EncodeStep(s, room, max)
  }

  /** The encoder itself does not mind codes above 0x10FFFF, only Maxcode. */
  function Encodable(max: Code): Code -> bool {
    c => !IsSurrogate(c) && c <= max
  }

  lemma MaskedContinuations(c: Code)
    ensures Middle(c) == Tail2(c) && Upper(c) == Tail3(c) && Last(c) == Continuation(c)
    ensures c & 0xFFFFF800 == 0xD800 <==> IsSurrogate(c)
  {
  }

  lemma EncodedIsUtf8(c: Code)
    ensures Encoded(c) == Utf8Of(c)
  {
    hide Low, Middle, Upper, Last, Continuation, Head2, Head3, Head4, Tail2, Tail3;
    MaskedContinuations(c);
  }

  lemma EncodesUtf8(s: seq<Code>, room: nat, max: Code)
    requires s != []
    ensures EncodeStep(s, room, max) == if Encodable(max)(s[0]) then Put(Utf8Of(s[0]), 1, room) else Stop(Error)
  {
    hide Utf8Of, Encoded;
    EncodedIsUtf8(s[0]);
    MaskedContinuations(s[0]);
  }

  lemma EncoderTranslates(max: Code)
    ensures Translates(Encoder(max), Single, Utf8Of, Encodable(max)) && Sound(Encoder(max)) && Monotone(Encoder(max))
  {
    hide EncodeStep, Encoded, Utf8Of, IsSurrogate;
    forall s, room ensures OkOnlyAtTheEnd(Encoder(max), s, room) {
      EncoderEnds(s, room, max);
    }
    forall s, room ensures EmitsOnlyCharacters(Encoder(max), Single, Utf8Of, Encodable(max), s, room) {
      assert OkOnlyAtTheEnd(Encoder(max), s, room);
      if s != [] {
        EncodesUtf8(s, room, max);
        assert Encodable(max)(s[0]) ==> Front(Single, Encodable(max), s, s[0]);
      }
    }
    forall c, s, room ensures EmitsCharacter(Encoder(max), Single, Utf8Of, Encodable(max), c, s, room) {
      if Front(Single, Encodable(max), s, c) {
        assert s[..1][0] == c;
        EncodesUtf8(s, room, max);
      }
    }
    forall s, t, less: nat, more: nat ensures ErrorPersists(Encoder(max), s, t, less, more) {
      if s != [] && s <= t {
        EncodesUtf8(s, less, max);
        EncodesUtf8(t, more, max);
      }
      EncoderEnds(s, less, max);
    }
    TranslatesIsSound(Encoder(max), Single, Utf8Of, Encodable(max));
    TranslatesIsMonotone(Encoder(max), Single, Utf8Of, Encodable(max));
  }

  /** ucs4_to_utf8 waits for room for a code that it writes; codes that it does not write are errors. */
  predicate EncoderWaits(s: seq<Code>, room: nat, max: Code) {
    s != [] && Encodable(max)(s[0]) && room < |Utf8Of(s[0])|
  }

  function EncoderWaiting(max: Code): Waiting<Code> {
    (s: seq<Code>, room: nat) => EncoderWaits(s, room, max)
  }

  lemma EncoderAnswers(max: Code)
    ensures Answers(Encoder(max), EncoderWaiting(max))
  {
    hide EncodeStep, Encoded, Utf8Of, Encodable;
    forall s, room ensures AnswersAt(Encoder(max), EncoderWaiting(max), s, room) {
      EncoderEnds(s, room, max);
      if s != [] {
        EncodesUtf8(s, room, max);
      }
    }
  }

  lemma EncoderEnds(s: seq<Code>, room: nat, max: Code)
    ensures EncodeStep(s, room, max) == Stop(Ok) <==> s == []
  {
  }

  // ----- there and back -----

  const BOM: Code := 0xFEFF

  const HEADER: seq<Byte> := [0xEF, 0xBB, 0xBF]

  lemma HeaderIsTheMark()
    ensures Utf8Of(BOM) == HEADER
  {
  }

  lemma EncodesText(xs: seq<Code>, max: Code, generate: bool, room: nat)
    requires forall i :: 0 <= i < |xs| ==> Fits(max)(xs[i])
    requires room >= |All(Utf8Of, xs)| + if generate then 3 else 0
    ensures Sound(Encoder(max))
    ensures WithHeader(Encoder(max), HEADER, generate, xs, room)
      == Outcome(Ok, |xs|, (if generate then HEADER else []) + All(Utf8Of, xs))
  {
    hide Utf8Of;
    EncoderTranslates(max);
    forall i | 0 <= i < |xs| ensures Encodable(max)(xs[i]) {
      assert Fits(max)(xs[i]);
    }
    AllSingle(Single, xs);
    EncodesWithHeader(Encoder(max), Single, Utf8Of, Encodable(max), HEADER, generate, xs, room);
  }

  /** Only a text whose first character is U+FEFF looks as if it had a header. */
  lemma MarkInFront(xs: seq<Code>, max: Code)
    requires forall i :: 0 <= i < |xs| ==> Fits(max)(xs[i])
    ensures HEADER <= All(Utf8Of, xs) ==> xs != [] && xs[0] == BOM
  {
    hide Utf8Of, All, DecodeStep;
    HeaderIsTheMark();
    if HEADER <= All(Utf8Of, xs) {
      DecoderTranslates(0x10FFFF);
      forall i | 0 <= i < |xs| ensures Fits(0x10FFFF)(xs[i]) {
        assert Fits(max)(xs[i]);
      }
      StartsWithMark(Decoder(0x10FFFF), Utf8Of, Single, Fits(0x10FFFF), BOM, xs);
    }
  }

  /** A header in front is rejected if U+FEFF is not within Maxcode. */
  lemma RejectsHeader(s: seq<Byte>, max: Code, room: nat)
    requires HEADER <= s && max < BOM && room > 0
    ensures DecodeStep(s, room, max) == Stop(Error)
  {
    hide Join3, DecodeStep;
    HeaderIsTheMark();
    assert s[..3] == HEADER;
    EncodingIsChar(BOM);
    DecodesChar(s, room, max, 3);
  }

  /** Every text of characters within Maxcode is encoded to the end.  Decoding gives the text back; or
      the text with U+FEFF in front, if a header was written and is not consumed; or an error, if
      that mark exceeds Maxcode; or the text without its first character, if that is U+FEFF and
      taken for a header that nobody wrote. */
  lemma RoundTrip(xs: seq<Code>, max: Code, generate: bool, consume: bool, room: nat, back: nat)
    requires forall i :: 0 <= i < |xs| ==> Fits(max)(xs[i])
    requires room >= |All(Utf8Of, xs)| + if generate then 3 else 0
    requires back >= |Reread(BOM, generate, consume, xs)|
    ensures Sound(Encoder(max)) && Sound(Decoder(max))
    ensures var text := WithHeader(Encoder(max), HEADER, generate, xs, room).out;
      && WithHeader(Encoder(max), HEADER, generate, xs, room) == Outcome(Ok, |xs|, text)
      && SkippingHeader(Decoder(max), HEADER, consume, text, back) ==
           if generate && !consume && max < BOM then Outcome(Error, 0, [])
           else Outcome(Ok, |text|, Reread(BOM, generate, consume, xs))
  {
    hide Utf8Of, All, DecodeStep;
    DecoderTranslates(max);
    HeaderIsTheMark();
    EncodesText(xs, max, generate, room);
    MarkInFront(xs, max);
    if generate && !consume && max < BOM {
      RejectsHeader(HEADER + All(Utf8Of, xs), max, back);
    }
    AllSingle(Single, Reread(BOM, generate, consume, xs));
    HeaderRoundTrip(Decoder(max), Utf8Of, Single, Fits(max), HEADER, BOM, generate, consume, xs, back);
  }

  /** For any bytes at all: what utf8_to_ucs4 has written is exactly the decoding of what it has
      consumed, which ends between two characters; it says ok exactly at the end of the input,
      and stops before only where the output is full or no character within Maxcode begins: partial
      if the output is full or the announced bytes are not all there, and otherwise error. */
  lemma DecodesWhatItConsumes(s: seq<Byte>, room: nat, max: Code)
    ensures Sound(Decoder(max))
    ensures var r := Run(Decoder(max), s, room);
      && r.used <= |s| && |r.out| <= room && s[..r.used] == All(Utf8Of, r.out)
      && (forall i :: 0 <= i < |r.out| ==> Fits(max)(r.out[i]))
      && (r.status == Ok <==> r.used == |s|)
      && (r.status != Ok ==> |r.out| == room || forall c :: !Front(Utf8Of, Fits(max), s[r.used..], c))
      && r.status == Answer(s[r.used..], Utf8Waits(s[r.used..], room - |r.out|))
  {
    hide Utf8Of, DecodeStep, IsScalar, Utf8Waits;
    DecoderTranslates(max);
    RunWithinBounds(Decoder(max), s, room);
    var xs := ConsumesWholeCharacters(Decoder(max), Utf8Of, Single, Fits(max), s, room);
    AllSingle(Single, xs);
    StopsOnlyWhereItMust(Decoder(max), Utf8Of, Single, Fits(max), s, room);
    DecoderAnswers(max);
    RunAnswers(Decoder(max), Utf8Waits, s, room);
  }

  // ----- the length twin -----

  /** One character of utf8_to_ucs4_length: how many bytes, and one unit; or (0, 0) for its break. */
  function LengthStep(s: seq<Byte>, room: nat, max: Code): (nat, nat) {
    if s == [] || room == 0 then (0, 0)
    else if s[0] < 0x80 then if s[0] as Code > max then (0, 0) else (1, 1)
    else if s[0] < 0xC2 then (0, 0)
    else if s[0] < 0xE0 then
      if |s| < 2 || s[1] & 0xC0 != 0x80 || Join2(s[0], s[1]) > max then (0, 0) else (2, 1)
    else if s[0] < 0xF0 then
      if |s| < 3 || !SecondOf3(s[0], s[1]) || s[2] & 0xC0 != 0x80 || Join3(s[0], s[1], s[2]) > max then (0, 0)
      else (3, 1)
    else if s[0] < 0xF5 then
      if |s| < 4 || !SecondOf4(s[0], s[1]) || s[2] & 0xC0 != 0x80 || s[3] & 0xC0 != 0x80
         || Join4(s[0], s[1], s[2], s[3]) > max
      then (0, 0)
      else (4, 1)
    else (0, 0)
  }

  function Lengths(max: Code): Measurer<Byte> {
    (s: seq<Byte>, room: nat) => LengthStep(s, room, max)
  }

  lemma LengthsMeasure(max: Code)
    ensures Measures(Lengths(max), Decoder(max))
  {
    hide Join2, Join3, Join4, SecondOf3, SecondOf4;
    forall s, room ensures MeasuresAt(Lengths(max), Decoder(max), s, room) {
      LengthStepMeasures(s, room, max);
    }
  }

  lemma LengthStepMeasures(s: seq<Byte>, room: nat, max: Code)
    ensures LengthStep(s, room, max) ==
      if DecodeStep(s, room, max).Emit? then (DecodeStep(s, room, max).used, 1) else (0, 0)
    ensures DecodeStep(s, room, max).Emit? ==> |DecodeStep(s, room, max).out| == 1
  {
    hide Join2, Join3, Join4, SecondOf3, SecondOf4;
  }

  // ----- the functions -----

  method Ucs4ToUtf8(from: seq<Code>, to: array<Byte>, max: Code, generate: bool)
    returns (status: Status, used: nat, written: nat)
    modifies to
    ensures used <= |from| && written <= to.Length && to[written..] == old(to[written..])
    ensures Sound(Encoder(max))
    ensures Outcome(status, used, to[..written]) == WithHeader(Encoder(max), HEADER, generate, from, to.Length)
    ensures if generate && to.Length < 3 then (status, used, written) == (Partial, 0, 0)
            else status == Answer(from[used..], EncoderWaits(from[used..], to.Length - written, max))
  {
    hide Encoder, Run, Sound, Translates, Monotone, Answers, EncoderWaits;
    EncoderTranslates(max);
    EncoderAnswers(max);
    var at := 0;
    if generate {
      var stored := Store(to, 0, HEADER);
      if !stored {
        return Partial, 0, 0;
      }
      at := 3;
    }
    CallAnswers(Encoder(max), EncoderWaiting(max), from, 0, to.Length - at);
    status, used, written := Convert(Encoder(max), from, 0, to, at);
    assert from[0..] == from;
  }

  predicate StartsWithHeader(from: seq<Byte>) {
    |from| >= 3 && from[0] == 0xEF && from[1] == 0xBB && from[2] == 0xBF
  }

  lemma HeaderInFront(from: seq<Byte>)
    ensures StartsWithHeader(from) <==> HEADER <= from
  {
  }

  method Utf8ToUcs4(from: seq<Byte>, to: array<Code>, max: Code, consume: bool)
    returns (status: Status, used: nat, written: nat)
    modifies to
    ensures used <= |from| && written <= to.Length && to[written..] == old(to[written..])
    ensures Sound(Decoder(max))
    ensures Outcome(status, used, to[..written]) == SkippingHeader(Decoder(max), HEADER, consume, from, to.Length)
    ensures status == Answer(from[used..], Utf8Waits(from[used..], to.Length - written))
  {
    hide Decoder, Run, Sound, Translates, Monotone, StartsWithHeader, Answers, Utf8Waits;
    DecoderTranslates(max);
    DecoderAnswers(max);
    HeaderInFront(from);
    var start := if consume && StartsWithHeader(from) then 3 else 0;
    CallAnswers(Decoder(max), Utf8Waits, from, start, to.Length);
    status, used, written := Convert(Decoder(max), from, start, to, 0);
    assert from[0..] == from;
  }

  /** Equals what utf8_to_ucs4 consumes, given room for mx characters. */
  method Utf8ToUcs4Length(from: seq<Byte>, mx: nat, max: Code, consume: bool) returns (used: nat)
    ensures Sound(Decoder(max)) && used == SkippingHeader(Decoder(max), HEADER, consume, from, mx).used
  {
    hide Decoder, Run, Sound, Translates, Monotone, StartsWithHeader, Lengths, Measures;
    DecoderTranslates(max);
    LengthsMeasure(max);
    HeaderInFront(from);
    var start := if consume && StartsWithHeader(from) then 3 else 0;
    used := Measure(Lengths(max), Decoder(max), from, start, mx);
    assert from[0..] == from;
  }
}
