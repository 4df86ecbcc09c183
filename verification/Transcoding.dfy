/** What the transcoders of libcxx/src/locale.cpp have in common.  Each one converts as many
    characters as the input and the room in the output allow, one after the other, and says how
    far it got and why it stopped.  A converter is given by what it does at the front of the
    remaining input: emit the next character, or stop.
  */
module Transcoding {
  type Byte = bv8
  type Unit = bv16
  type Code = bv32

  /** codecvt_base::result */
  datatype Status = Ok | Partial | Error

  datatype Step<Out> = Emit(used: nat, out: seq<Out>) | Stop(status: Status)

  /** frm_nxt - frm, and what lies between to and to_nxt. */
  datatype Outcome<Out> = Outcome(status: Status, used: nat, out: seq<Out>)

  type Converter<!In, !Out> = (seq<In>, nat) -> Step<Out>

  /** A converter takes something from the input and keeps within the room. */
  ghost predicate Sound<In(!new), Out(!new)>(step: Converter<In, Out>) {
    forall s, room :: Progresses(step, s, room)
  }

  ghost predicate Progresses<In, Out>(step: Converter<In, Out>, s: seq<In>, room: nat) {
    var r := step(s, room);
    r.Emit? ==> 0 < r.used <= |s| && |r.out| <= room
  }

  ghost function Run<In(!new), Out(!new)>(step: Converter<In, Out>, s: seq<In>, room: nat): Outcome<Out>
    requires Sound(step)
    decreases |s|
  {
    assert Progresses(step, s, room);
    match step(s, room)
    case Stop(status) => Outcome(status, 0, [])
    case Emit(used, out) => After(used, out, Run(step, s[used..], room - |out|))
  }

  function After<Out>(used: nat, out: seq<Out>, rest: Outcome<Out>): Outcome<Out> {
    Outcome(rest.status, used + rest.used, out + rest.out)
  }

  lemma AfterAfter<Out>(u: nat, o: seq<Out>, v: nat, p: seq<Out>, rest: Outcome<Out>)
    ensures After(u, o, After(v, p, rest)) == After(u + v, o + p, rest)
  {
    assert o + (p + rest.out) == (o + p) + rest.out;
  }

  lemma {:induction false} RunWithinBounds<In(!new), Out(!new)>(step: Converter<In, Out>, s: seq<In>, room: nat)
    requires Sound(step)
    ensures Run(step, s, room).used <= |s| && |Run(step, s, room).out| <= room
    decreases |s|
  {
    assert Progresses(step, s, room);
    if step(s, room).Stop? {
    } else {
      RunWithinBounds(step, s[step(s, room).used..], room - |step(s, room).out|);
    }
  }

  lemma SplitPrefix<T>(s: seq<T>, a: nat, b: nat)
    requires a + b <= |s|
    ensures s[..a + b] == s[..a] + s[a..][..b] && s[a..][b..] == s[a + b..] && s[..a + b][a..] == s[a..][..b]
  {
  }

  /** Where a call stands that has consumed `used` and written `out`: what the next character adds,
      or that it ends here. */
  lemma Here<In(!new), Out(!new)>(step: Converter<In, Out>, s: seq<In>, used: nat, out: seq<Out>, room: nat)
    requires Sound(step) && used <= |s| && |out| <= room
    ensures var total := After(used, out, Run(step, s[used..], room - |out|));
      match step(s[used..], room - |out|)
      case Stop(status) => total == Outcome(status, used, out)
      case Emit(v, p) =>
        && 0 < v && used + v <= |s| && |out| + |p| <= room
        && total == After(used + v, out + p, Run(step, s[used + v..], room - |out| - |p|))
  {
    var rest := s[used..];
    assert Progresses(step, rest, room - |out|);
    match step(rest, room - |out|)
    case Stop(_) =>
    case Emit(v, p) =>
      SplitPrefix(s, used, v);
      AfterAfter(used, out, v, p, Run(step, s[used + v..], room - |out| - |p|));
  }

  /** Writes one character's units if the output has room for all of them. */
  method Store<T>(to: array<T>, at: nat, units: seq<T>) returns (stored: bool)
    requires at <= to.Length
    modifies to
    ensures stored <==> |units| <= to.Length - at
    ensures stored ==> to[..at + |units|] == old(to[..at]) + units && to[at + |units|..] == old(to[at + |units|..])
    ensures !stored ==> to[..] == old(to[..])
  {
    stored := |units| <= to.Length - at;
    if stored {
      for i := 0 to |units|
        invariant to[..at + i] == old(to[..at]) + units[..i]
        invariant to[at + i..] == old(to[at + i..])
      {
        to[at + i] := units[i];
      }
    }
  }

  /** The loop of every converter, after the header: one character at a time into the output. */
  method Convert<In(!new), Out(!new)>(step: Converter<In, Out>, from: seq<In>, start: nat, to: array<Out>, at: nat)
    returns (status: Status, used: nat, written: nat)
    requires Sound(step) && start <= |from| && at <= to.Length
    modifies to
    ensures start <= used <= |from| && at <= written <= to.Length && to[written..] == old(to[written..])
    ensures Outcome(status, used, to[..written])
      == After(start, old(to[..at]), Run(step, from[start..], to.Length - at))
  {
    hide Run, Sound;
    ghost var total := After(start, to[..at], Run(step, from[start..], to.Length - at));
    used, written := start, at;
    while true
      invariant start <= used <= |from| && at <= written <= to.Length && to[written..] == old(to[written..])
      invariant total == After(used, to[..written], Run(step, from[used..], to.Length - written))
      decreases |from| - used
    {
      Here(step, from, used, to[..written], to.Length);
      match step(from[used..], to.Length - written)
      case Stop(s) =>
        return s, used, written;
      case Emit(n, units) =>
        var _ := Store(to, written, units);
        used, written := used + n, written + |units|;
    }
  }

  /** How far the twin of a converter advances: input units of the next character and its output
      units, or nothing. */
  type Measurer<!In> = (seq<In>, nat) -> (nat, nat)

  ghost predicate Measures<In(!new), Out(!new)>(length: Measurer<In>, step: Converter<In, Out>) {
    forall s, room :: MeasuresAt(length, step, s, room)
  }

  ghost predicate MeasuresAt<In, Out>(length: Measurer<In>, step: Converter<In, Out>, s: seq<In>, room: nat) {
    length(s, room) == if step(s, room).Emit? then (step(s, room).used, |step(s, room).out|) else (0, 0)
  }

  /** The loop of every *_length function: counts what the converter would consume. */
  method Measure<In(!new), Out(!new)>(
    length: Measurer<In>, ghost step: Converter<In, Out>, from: seq<In>, start: nat, max: nat)
    returns (used: nat)
    requires Sound(step) && Measures(length, step) && start <= |from|
    ensures used == start + Run(step, from[start..], max).used
  {
    hide Run, Sound;
    ghost var total := After(start, [], Run(step, from[start..], max));
    ghost var out: seq<Out> := [];
    var n := 0;
    used := start;
    while true
      invariant start <= used <= |from| && |out| == n <= max
      invariant total == After(used, out, Run(step, from[used..], max - n))
      decreases |from| - used
    {
      Here(step, from, used, out, max);
      assert MeasuresAt(length, step, from[used..], max - n);
      var (consumes, units) := length(from[used..], max - n);
      if consumes == 0 {
        return;
      }
      out := out + step(from[used..], max - n).out;
      used, n := used + consumes, n + units;
    }
  }

  // ----- resuming -----

  /** More input and more room change neither a character emitted nor an error. */
  ghost predicate Monotone<In(!new), Out(!new)>(step: Converter<In, Out>) {
    forall s, t, less: nat, more: nat :: Persists(step, s, t, less, more)
  }

  ghost predicate Persists<In, Out>(step: Converter<In, Out>, s: seq<In>, t: seq<In>, less: nat, more: nat) {
    s <= t && less <= more && step(s, less) != Stop(Ok) && step(s, less) != Stop(Partial) ==>
      step(t, more) == step(s, less)
  }

  /** Going on after `first` is the same as one call. */
  ghost predicate Resumes<In(!new), Out(!new)>(step: Converter<In, Out>, s: seq<In>, first: Outcome<Out>, room: nat)
    requires Sound(step)
  {
    && first.used <= |s| && |first.out| <= room
    && Run(step, s, room) == After(first.used, first.out, Run(step, s[first.used..], room - |first.out|))
  }

  /** Converting a part of the input into a part of the room, and then resuming where that call
      stopped with all the input and all the room, is the same as one call. */
  lemma {:induction false} Resume<In(!new), Out(!new)>(
    step: Converter<In, Out>, s: seq<In>, part: nat, less: nat, room: nat)
    requires Sound(step) && Monotone(step) && part <= |s| && less <= room
    ensures Resumes(step, s, Run(step, s[..part], less), room)
    decreases |s|
  {
    var front := s[..part];
    assert Persists(step, front, s, less, room) && Progresses(step, front, less);
    match step(front, less)
    case Stop(status) => FromTheStart(step, s, status, room);
    case Emit(used, out) =>
      Resume(step, s[used..], part - used, less - |out|, room - |out|);
      SplitPrefix(s, used, part - used);
      ResumeAfterOne(step, s, used, out, Run(step, front[used..], less - |out|), room);
  }

  lemma FromTheStart<In(!new), Out(!new)>(step: Converter<In, Out>, s: seq<In>, status: Status, room: nat)
    requires Sound(step)
    ensures Resumes(step, s, Outcome(status, 0, []), room)
  {
    assert s[0..] == s;
  }

  lemma ResumeAfterOne<In(!new), Out(!new)>(
    step: Converter<In, Out>, s: seq<In>, used: nat, out: seq<Out>, rest: Outcome<Out>, room: nat)
    requires Sound(step) && step(s, room) == Emit(used, out) && 0 < used <= |s| && |out| <= room
    requires Resumes(step, s[used..], rest, room - |out|)
    ensures Resumes(step, s, After(used, out, rest), room)
  {
    SplitPrefix(s, used, rest.used);
    AfterAfter(used, out, rest.used, rest.out, Run(step, s[used + rest.used..], room - |out| - |rest.out|));
  }

  /** An error in a part is the outcome of the whole. */
  lemma {:induction false} ErrorIsFinal<In(!new), Out(!new)>(
    step: Converter<In, Out>, s: seq<In>, part: nat, less: nat, room: nat)
    requires Sound(step) && Monotone(step) && part <= |s| && less <= room
    ensures Run(step, s[..part], less).status == Error ==> Run(step, s, room) == Run(step, s[..part], less)
    decreases |s|
  {
    var front := s[..part];
    assert Persists(step, front, s, less, room) && Progresses(step, front, less);
    if step(front, less).Stop? {
    } else {
      var used, out := step(front, less).used, step(front, less).out;
      ErrorIsFinal(step, s[used..], part - used, less - |out|, room - |out|);
      SplitPrefix(s, used, part - used);
    }
  }

  // ----- what a converter means -----

  /** The concatenated encodings of some characters. */
  ghost function All<Out(!new)>(encode: Code -> seq<Out>, xs: seq<Code>): seq<Out> {
    if xs == [] then [] else encode(xs[0]) + All(encode, xs[1..])
  }

  lemma AllCons<Out(!new)>(encode: Code -> seq<Out>, c: Code, xs: seq<Code>)
    ensures All(encode, [c] + xs) == encode(c) + All(encode, xs)
  {
    assert ([c] + xs)[1..] == xs;
  }

  /** The converter reads exactly the encodings of the characters that are `fit`, and writes the
      same characters in the other encoding. */
  ghost predicate Translates<In(!new), Out(!new)>(
    step: Converter<In, Out>, read: Code -> seq<In>, write: Code -> seq<Out>, fit: Code -> bool)
  {
    && (forall s, room :: EmitsOnlyCharacters(step, read, write, fit, s, room))
    && (forall c, s, room :: EmitsCharacter(step, read, write, fit, c, s, room))
    && (forall s, room :: OkOnlyAtTheEnd(step, s, room))
  }

  ghost predicate EmitsOnlyCharacters<In(!new), Out(!new)>(
    step: Converter<In, Out>, read: Code -> seq<In>, write: Code -> seq<Out>, fit: Code -> bool, s: seq<In>, room: nat)
  {
    step(s, room).Emit? ==>
      exists c :: Front(read, fit, s, c) && step(s, room) == Emit(|read(c)|, write(c)) && |write(c)| <= room
  }

  /** A fit character's encoding stands at the front of the input. */
  ghost predicate Front<In(!new)>(read: Code -> seq<In>, fit: Code -> bool, s: seq<In>, c: Code) {
    fit(c) && 0 < |read(c)| <= |s| && s[..|read(c)|] == read(c)
  }

  ghost predicate EmitsCharacter<In(!new), Out(!new)>(
    step: Converter<In, Out>, read: Code -> seq<In>, write: Code -> seq<Out>, fit: Code -> bool,
    c: Code, s: seq<In>, room: nat)
  {
    && (fit(c) ==> 0 < |read(c)|)
    && (Front(read, fit, s, c) && |write(c)| <= room ==> step(s, room) == Emit(|read(c)|, write(c)))
  }

  ghost predicate OkOnlyAtTheEnd<In, Out>(step: Converter<In, Out>, s: seq<In>, room: nat) {
    step(s, room) == Stop(Ok) <==> s == []
  }

  lemma TranslatesIsSound<In(!new), Out(!new)>(
    step: Converter<In, Out>, read: Code -> seq<In>, write: Code -> seq<Out>, fit: Code -> bool)
    requires Translates(step, read, write, fit)
    ensures Sound(step)
  {
    forall s, room ensures Progresses(step, s, room) {
      assert EmitsOnlyCharacters(step, read, write, fit, s, room);
    }
  }

  ghost predicate ErrorPersists<In, Out>(step: Converter<In, Out>, s: seq<In>, t: seq<In>, less: nat, more: nat) {
    s <= t && less <= more && step(s, less) == Stop(Error) ==> step(t, more) == Stop(Error)
  }

  /** Emitted characters stay emitted, so only errors need an argument of their own. */
  lemma TranslatesIsMonotone<In(!new), Out(!new)>(
    step: Converter<In, Out>, read: Code -> seq<In>, write: Code -> seq<Out>, fit: Code -> bool)
    requires Translates(step, read, write, fit)
    requires forall s, t, less: nat, more: nat :: ErrorPersists(step, s, t, less, more)
    ensures Monotone(step)
  {
    forall s, t, less: nat, more: nat ensures Persists(step, s, t, less, more) {
      match step(s, less)
      case Stop(status) =>
        assert status == Ok || status == Partial || status == Error;
        assert ErrorPersists(step, s, t, less, more);
      case Emit(_, _) =>
        assert EmitsOnlyCharacters(step, read, write, fit, s, less);
        var c :| Front(read, fit, s, c) && step(s, less) == Emit(|read(c)|, write(c)) && |write(c)| <= less;
        if s <= t && less <= more {
          assert t[..|read(c)|] == s[..|read(c)|];
          assert EmitsCharacter(step, read, write, fit, c, t, more);
        }
    }
  }

  /** On every outcome, for any input at all: what was consumed is a sequence of whole encodings of
      fit characters, and what was written is the same characters in the other encoding. */
  lemma {:induction false} ConsumesWholeCharacters<In(!new), Out(!new)>(
    step: Converter<In, Out>, read: Code -> seq<In>, write: Code -> seq<Out>, fit: Code -> bool, s: seq<In>, room: nat)
    returns (xs: seq<Code>)
    requires Translates(step, read, write, fit) && Sound(step)
    ensures var r := Run(step, s, room);
      && r.used <= |s| && s[..r.used] == All(read, xs) && r.out == All(write, xs)
      && forall i :: 0 <= i < |xs| ==> fit(xs[i])
    decreases |s|
  {
    assert Progresses(step, s, room);
    match step(s, room)
    case Stop(_) => xs := [];
    case Emit(used, out) =>
      assert EmitsOnlyCharacters(step, read, write, fit, s, room);
      var c :| Front(read, fit, s, c) && step(s, room) == Emit(|read(c)|, write(c)) && |write(c)| <= room;
      var rest := ConsumesWholeCharacters(step, read, write, fit, s[used..], room - |out|);
      xs := [c] + rest;
      var r := Run(step, s[used..], room - |out|);
      SplitPrefix(s, used, r.used);
      AllCons(read, c, rest);
      AllCons(write, c, rest);
  }

  /** A converter stops only at the end of the input, or where no fit character begins whose
      encoding has room; and its answer is ok exactly at the end of the input. */
  lemma {:induction false} StopsOnlyWhereItMust<In(!new), Out(!new)>(
    step: Converter<In, Out>, read: Code -> seq<In>, write: Code -> seq<Out>, fit: Code -> bool, s: seq<In>, room: nat)
    requires Translates(step, read, write, fit) && Sound(step)
    ensures var r := Run(step, s, room);
      && r.used <= |s| && (r.status == Ok <==> r.used == |s|)
      && forall c :: Front(read, fit, s[r.used..], c) ==> |write(c)| > room - |r.out|
    decreases |s|
  {
    assert Progresses(step, s, room);
    match step(s, room)
    case Stop(status) =>
      assert OkOnlyAtTheEnd(step, s, room);
      assert s[0..] == s;
      forall c | Front(read, fit, s, c) ensures |write(c)| > room {
        assert EmitsCharacter(step, read, write, fit, c, s, room);
      }
    case Emit(used, out) =>
      StopsOnlyWhereItMust(step, read, write, fit, s[used..], room - |out|);
      var rest := Run(step, s[used..], room - |out|);
      SplitPrefix(s, used, rest.used);
  }

  // ----- why a call ends -----

  /** The answer of a call that ends before `rest`: ok at the end of the input, partial where the
      converter waits for input or room, and otherwise error. */
  function Answer<In>(rest: seq<In>, waits: bool): Status {
    if rest == [] then Ok else if waits then Partial else Error
  }

  /** Whether a converter waits with this much input and room. */
  type Waiting<!In> = (seq<In>, nat) -> bool

  ghost predicate AnswersAt<In, Out>(step: Converter<In, Out>, waits: Waiting<In>, s: seq<In>, room: nat) {
    step(s, room).Stop? ==> step(s, room).status == Answer(s, waits(s, room))
  }

  ghost predicate Answers<In(!new), Out(!new)>(step: Converter<In, Out>, waits: Waiting<In>) {
    forall s, room :: AnswersAt(step, waits, s, room)
  }

  lemma {:induction false} RunAnswers<In(!new), Out(!new)>(
    step: Converter<In, Out>, waits: Waiting<In>, s: seq<In>, room: nat)
    requires Sound(step) && Answers(step, waits)
    ensures var r := Run(step, s, room);
      && r.used <= |s| && |r.out| <= room
      && r.status == Answer(s[r.used..], waits(s[r.used..], room - |r.out|))
    decreases |s|
  {
    assert Progresses(step, s, room);
    match step(s, room)
    case Stop(_) =>
      assert AnswersAt(step, waits, s, room);
      assert s[0..] == s;
    case Emit(used, out) =>
      RunAnswers(step, waits, s[used..], room - |out|);
      var rest := Run(step, s[used..], room - |out|);
      SplitPrefix(s, used, rest.used);
  }

  /** The same for a call that begins behind a header. */
  lemma CallAnswers<In(!new), Out(!new)>(
    step: Converter<In, Out>, waits: Waiting<In>, from: seq<In>, start: nat, room: nat)
    requires Sound(step) && Answers(step, waits) && start <= |from|
    ensures var r := Run(step, from[start..], room);
      var used := start + r.used;
      && used <= |from| && |r.out| <= room
      && r.status == Answer(from[used..], waits(from[used..], room - |r.out|))
  {
    RunAnswers(step, waits, from[start..], room);
    SplitPrefix(from, start, Run(step, from[start..], room).used);
  }

  /** Text that is well formed and fits is converted to the end. */
  lemma {:induction false} ConvertsText<In(!new), Out(!new)>(
    step: Converter<In, Out>, read: Code -> seq<In>, write: Code -> seq<Out>, fit: Code -> bool,
    xs: seq<Code>, room: nat)
    requires Translates(step, read, write, fit) && Sound(step)
    requires (forall i :: 0 <= i < |xs| ==> fit(xs[i])) && |All(write, xs)| <= room
    ensures Run(step, All(read, xs), room) == Outcome(Ok, |All(read, xs)|, All(write, xs))
  {
    var s := All(read, xs);
    if xs == [] {
      assert OkOnlyAtTheEnd(step, s, room);
    } else {
      assert EmitsCharacter(step, read, write, fit, xs[0], s, room);
      assert s[..|read(xs[0])|] == read(xs[0]) && s[|read(xs[0])|..] == All(read, xs[1..]);
      ConvertsText(step, read, write, fit, xs[1..], room - |write(xs[0])|);
    }
  }

  // ----- byte order marks -----

  /** A converter that may write a header first writes it whole or stops at once. */
  ghost function WithHeader<In(!new), Out(!new)>(
    step: Converter<In, Out>, header: seq<Out>, generate: bool, s: seq<In>, room: nat): Outcome<Out>
    requires Sound(step)
  {
    if !generate then Run(step, s, room)
    else if room < |header| then Outcome(Partial, 0, [])
    else After(0, header, Run(step, s, room - |header|))
  }

  /** Text that fits is encoded to the end, after the header if there is to be one. */
  lemma EncodesWithHeader<In(!new), Out(!new)>(
    step: Converter<In, Out>, read: Code -> seq<In>, write: Code -> seq<Out>, fit: Code -> bool,
    header: seq<Out>, generate: bool, xs: seq<Code>, room: nat)
    requires Translates(step, read, write, fit) && Sound(step)
    requires forall i :: 0 <= i < |xs| ==> fit(xs[i])
    requires room >= |All(write, xs)| + if generate then |header| else 0
    ensures WithHeader(step, header, generate, All(read, xs), room)
      == Outcome(Ok, |All(read, xs)|, (if generate then header else []) + All(write, xs))
  {
    ConvertsText(step, read, write, fit, xs, if generate then room - |header| else room);
  }

  /** A converter that may skip a header skips it once if it is there. */
  ghost function SkippingHeader<In(!new), Out(!new)>(
    step: Converter<In, Out>, header: seq<In>, consume: bool, s: seq<In>, room: nat): Outcome<Out>
    requires Sound(step)
  {
    if consume && header <= s then After(|header|, [], Run(step, s[|header|..], room))
    else Run(step, s, room)
  }

  /** Encoding and decoding again, whichever of the two treats headers.  A header that is written and
      not consumed comes back as the mark in front of the text, or is an error if the mark does
      not fit.  A decoder that consumes headers takes a text that starts with the mark itself,
      and has been written without header, to start after it.  Otherwise the text comes back. */
  lemma HeaderRoundTrip<In(!new), Out(!new)>(
    decode: Converter<In, Out>, encoding: Code -> seq<In>, write: Code -> seq<Out>, fit: Code -> bool,
    header: seq<In>, mark: Code, generate: bool, consume: bool, xs: seq<Code>, room: nat)
    requires Translates(decode, encoding, write, fit) && Sound(decode) && header == encoding(mark)
    requires forall i :: 0 <= i < |xs| ==> fit(xs[i])
    requires |All(write, Reread(mark, generate, consume, xs))| <= room
    requires generate && !consume && !fit(mark) ==> decode(header + All(encoding, xs), room) == Stop(Error)
    requires !generate && header <= All(encoding, xs) ==> xs != [] && xs[0] == mark
    ensures var text := (if generate then header else []) + All(encoding, xs);
      SkippingHeader(decode, header, consume, text, room) ==
        if generate && !consume && !fit(mark) then Outcome(Error, 0, [])
        else Outcome(Ok, |text|, All(write, Reread(mark, generate, consume, xs)))
  {
    var text := (if generate then header else []) + All(encoding, xs);
    AllCons(encoding, mark, xs);
    if generate && consume {
      assert header <= text && text[|header|..] == All(encoding, xs);
      ConvertsText(decode, encoding, write, fit, xs, room);
    } else if generate && !fit(mark) {
      assert text == header + All(encoding, xs);
    } else if generate {
      ConvertsText(decode, encoding, write, fit, [mark] + xs, room);
    } else {
      assert text == All(encoding, xs);
      UnheadedRoundTrip(decode, encoding, write, fit, header, mark, consume, xs, room);
    }
  }

  /** What decoding gives for the text xs, depending on who treated headers. */
  function Reread(mark: Code, generate: bool, consume: bool, xs: seq<Code>): seq<Code> {
    if generate && !consume then [mark] + xs
    else if !generate && consume && xs != [] && xs[0] == mark then xs[1..]
    else xs
  }

  lemma UnheadedRoundTrip<In(!new), Out(!new)>(
    decode: Converter<In, Out>, encoding: Code -> seq<In>, write: Code -> seq<Out>, fit: Code -> bool,
    header: seq<In>, mark: Code, consume: bool, xs: seq<Code>, room: nat)
    requires Translates(decode, encoding, write, fit) && Sound(decode) && header == encoding(mark)
    requires forall i :: 0 <= i < |xs| ==> fit(xs[i])
    requires |All(write, Reread(mark, false, consume, xs))| <= room
    requires header <= All(encoding, xs) ==> xs != [] && xs[0] == mark
    ensures var text := All(encoding, xs);
      SkippingHeader(decode, header, consume, text, room)
        == Outcome(Ok, |text|, All(write, Reread(mark, false, consume, xs)))
  {
    var text := All(encoding, xs);
    if consume && header <= text {
      assert text[|header|..] == All(encoding, xs[1..]);
      ConvertsText(decode, encoding, write, fit, xs[1..], room);
    } else {
      assert xs != [] && xs[0] == mark ==> header <= text;
      ConvertsText(decode, encoding, write, fit, xs, room);
    }
  }

  lemma {:induction false} AllSingle(single: Code -> seq<Code>, xs: seq<Code>)
    requires forall c :: single(c) == [c]
    ensures All(single, xs) == xs
  {
    if xs == [] {
    } else {
      AllSingle(single, xs[1..]);
    }
  }

  lemma StartsWithMark<T(!new)>(
    decode: Converter<T, Code>, encoding: Code -> seq<T>, single: Code -> seq<Code>, fit: Code -> bool,
    mark: Code, xs: seq<Code>)
    requires Translates(decode, encoding, single, fit) && (forall c :: single(c) == [c])
    requires fit(mark) && encoding(mark) <= All(encoding, xs) && forall i :: 0 <= i < |xs| ==> fit(xs[i])
    ensures xs != [] && xs[0] == mark
  {
    var s := All(encoding, xs);
    SameFront(decode, encoding, single, fit, mark, if xs == [] then mark else xs[0], s);
  }

  /** No two fit characters have encodings that begin the same text. */
  lemma SameFront<T(!new)>(
    decode: Converter<T, Code>, encoding: Code -> seq<T>, single: Code -> seq<Code>, fit: Code -> bool,
    c: Code, d: Code, s: seq<T>)
    requires Translates(decode, encoding, single, fit) && single(c) == [c] && single(d) == [d]
    requires fit(c) && fit(d) && encoding(c) <= s && encoding(d) <= s
    ensures c == d && s != []
  {
    assert EmitsCharacter(decode, encoding, single, fit, c, s, 1);
    assert EmitsCharacter(decode, encoding, single, fit, d, s, 1);
    assert s[..|encoding(c)|] == encoding(c) && s[..|encoding(d)|] == encoding(d);
  }
}
