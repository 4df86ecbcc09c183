/** The reader-writer lock of libcxx/src/shared_mutex.cpp.

    Every action below is what one thread does between taking the internal mutex and giving it
    up, so the actions of all threads interleave one at a time.  A thread that waits on a
    condition variable is either unsignalled or signalled; it may also wake without a signal.  A timed
    waiter (libcxx/include/shared_mutex) whose time is up goes on like one that wakes if it can, and
    otherwise gives up: at the first gate it just leaves, at the second it takes the write bit back.
  */
module SharedMutex {
  import opened Sums

  // ----- the word: the top bit says that a writer has entered, the others count readers -----

  type Word = w: nat | w < 0x1_0000_0000

  const WRITE_ENTERED: nat := 0x8000_0000
  const N_READERS: nat := 0x7FFF_FFFF

  predicate WriteEntered(w: Word) {
    w / WRITE_ENTERED == 1
  }

  function Readers(w: Word): nat {
    w % WRITE_ENTERED
  }

  /** w | write_entered */
  function EnterWrite(w: Word): Word {
    Readers(w) + WRITE_ENTERED
  }

  /** (w & ~n_readers) | n, for any unsigned n: a top bit in n would show in the result. */
  function StoreReaders(w: Word, n: Word): Word {
    n % WRITE_ENTERED + if WriteEntered(w) || WriteEntered(n) then WRITE_ENTERED else 0
  }

  /** x - 1 and x + 1 as unsigned values wrap. */
  function Increment(n: Word): Word {
    (n + 1) % 0x1_0000_0000
  }

  function Decrement(n: Word): Word {
    if n == 0 then 0xFFFF_FFFF else n - 1
  }

  // ----- threads -----

  datatype Pc =
    | Idle
    | Gate1Writer(signalled: bool)
    | Gate1Reader(signalled: bool)
    | Gate2(signalled: bool)
    | Writing
    | Reading

  datatype State = State(word: Word, threads: seq<Pc>)

  datatype Action =
    | Lock(t: nat)
    | WakeAtGate1(t: nat)
    | WakeAtGate2(t: nat)
    | TryLock(t: nat)
    | Unlock(t: nat)
    | LockShared(t: nat)
    | TryLockShared(t: nat)
    | UnlockShared(t: nat, notified: Notified)
    | GiveUpAtGate1(t: nat)
    | GiveUpAtGate2(t: nat)

  /** Whom notify_one reaches: some unsignalled waiter at the gate, or nobody. */
  datatype Notified = Nobody | Thread(u: nat)

  function Initial(n: nat): State {
    State(0, seq(n, _ => Idle))
  }

  predicate WaitsUnsignalledAtGate1(pc: Pc) {
    (pc.Gate1Writer? || pc.Gate1Reader?) && !pc.signalled
  }

  predicate WaitsUnsignalledAtGate2(pc: Pc) {
    pc.Gate2? && !pc.signalled
  }

  /** notify_one on a gate reaches one of the unsignalled waiters there, if there is one. */
  predicate MayNotify(threads: seq<Pc>, waits: Pc -> bool, who: Notified) {
    match who
    case Nobody => forall u :: 0 <= u < |threads| ==> !waits(threads[u])
    case Thread(u) => u < |threads| && waits(threads[u])
  }

  /** The gate that unlock_shared notifies, as the word stands after the reader has left. */
  datatype Target = NoGate | GateOne | GateTwo

  function NotifiedGate(w: Word, num_readers: Word): Target {
    if WriteEntered(w) then (if num_readers == 0 then GateTwo else NoGate)
    else if num_readers == N_READERS - 1 then GateOne else NoGate
  }

  function AfterLeaving(w: Word): Word {
    StoreReaders(w, Decrement(Readers(w)))
  }

  predicate Enabled(s: State, a: Action) {
    && a.t < |s.threads|
    && var pc := s.threads[a.t];
      match a
      case Lock(_) => pc == Idle
      case WakeAtGate1(_) => pc.Gate1Writer? || pc.Gate1Reader?
      case WakeAtGate2(_) => pc.Gate2?
      case TryLock(_) => pc == Idle
      case Unlock(_) => pc == Writing
      case LockShared(_) => pc == Idle
      case TryLockShared(_) => pc == Idle
      case GiveUpAtGate1(_) =>
        (pc.Gate1Writer? && WriteEntered(s.word)) || (pc.Gate1Reader? && !ReaderMayEnter(s.word))
      case GiveUpAtGate2(_) => pc.Gate2? && Readers(s.word) > 0
      case UnlockShared(_, who) =>
        && pc == Reading
        && match NotifiedGate(AfterLeaving(s.word), Decrement(Readers(s.word)))
          case NoGate => who == Nobody
          case GateOne => MayNotify(s.threads, WaitsUnsignalledAtGate1, who)
          case GateTwo => MayNotify(s.threads, WaitsUnsignalledAtGate2, who)
  }

  function Signal(pc: Pc): Pc {
    match pc
    case Gate1Writer(_) => Gate1Writer(true)
    case Gate1Reader(_) => Gate1Reader(true)
    case Gate2(_) => Gate2(true)
    case _ => pc
  }

  function SignalOne(threads: seq<Pc>, who: Notified): seq<Pc> {
    if who.Thread? && who.u < |threads| then threads[who.u := Signal(threads[who.u])] else threads
  }

  function SignalAllAtGate1(threads: seq<Pc>): seq<Pc> {
    seq(|threads|, i requires 0 <= i < |threads| => if threads[i].Gate2? then threads[i] else Signal(threads[i]))
  }

  /** From the test of the first loop of lock() to the next wait, or to its return. */
  function TryToEnter(w: Word): (Word, Pc) {
    if WriteEntered(w) then (w, Gate1Writer(false)) else PassGate2(EnterWrite(w))
  }

  function PassGate2(w: Word): (Word, Pc) {
    (w, if Readers(w) != 0 then Gate2(false) else Writing)
  }

  predicate ReaderMayEnter(w: Word) {
    !WriteEntered(w) && Readers(w) != N_READERS
  }

  function TryToRead(w: Word): (Word, Pc) {
    if ReaderMayEnter(w) then (StoreReaders(w, Increment(Readers(w))), Reading)
    else (w, Gate1Reader(false))
  }

  function Set(s: State, t: nat, r: (Word, Pc)): State
    requires t < |s.threads|
  {
    State(r.0, s.threads[t := r.1])
  }

  function Apply(s: State, a: Action): State
    requires Enabled(s, a)
  {
    var w := s.word;
    match a
    case Lock(t) => Set(s, t, TryToEnter(w))
    case WakeAtGate1(t) => Set(s, t, if s.threads[t].Gate1Writer? then TryToEnter(w) else TryToRead(w))
    case WakeAtGate2(t) => Set(s, t, PassGate2(w))
    case TryLock(t) => Set(s, t, if w == 0 then (WRITE_ENTERED, Writing) else (w, Idle))
    case Unlock(t) => State(0, SignalAllAtGate1(s.threads[t := Idle]))
    case LockShared(t) => Set(s, t, TryToRead(w))
    case TryLockShared(t) =>
      Set(s, t, if ReaderMayEnter(w) then (StoreReaders(w, Increment(Readers(w))), Reading) else (w, Idle))
    case UnlockShared(t, who) => State(AfterLeaving(w), SignalOne(s.threads[t := Idle], who))
    case GiveUpAtGate1(t) => Set(s, t, (w, Idle))
    case GiveUpAtGate2(t) => Set(s, t, (Readers(w), Idle))
  }

  ghost predicate Allowed(s: State, actions: seq<Action>)
    decreases |actions|
  {
    actions == [] || (Enabled(s, actions[0]) && Allowed(Apply(s, actions[0]), actions[1..]))
  }

  ghost function After(s: State, actions: seq<Action>): State
    requires Allowed(s, actions)
    decreases |actions|
  {
    if actions == [] then s else After(Apply(s, actions[0]), actions[1..])
  }

  // ----- the invariant -----

  function Entered(pc: Pc): nat { if pc.Gate2? || pc.Writing? then 1 else 0 }

  function Holding(pc: Pc): nat { if pc.Reading? then 1 else 0 }

  ghost predicate Counted(s: State) {
    && Sum(s.threads, Entered) == (if WriteEntered(s.word) then 1 else 0)
    && Sum(s.threads, Holding) == Readers(s.word)
  }

  /** A writer that has the lock shares it with no reader, and none sleeps at the second gate without
      a reader to wait for. */
  ghost predicate Exclusive(s: State) {
    forall t :: 0 <= t < |s.threads| ==>
      && (s.threads[t] == Writing ==> Readers(s.word) == 0)
      && (s.threads[t] == Gate2(false) ==> Readers(s.word) > 0)
  }

  /** What every step keeps, timeouts included. */
  ghost predicate Safe(s: State) {
    Counted(s) && Exclusive(s)
  }

  /** No writer sleeps at the first gate while it might enter. */
  ghost predicate WritersGated(s: State) {
    forall t :: 0 <= t < |s.threads| && s.threads[t] == Gate1Writer(false) ==> WriteEntered(s.word)
  }

  /** What every step keeps as long as nobody gives up at the second gate. */
  ghost predicate Inv(s: State) {
    Safe(s) && WritersGated(s)
  }

  /** Nobody gives up at the second gate. */
  ghost predicate Patient(actions: seq<Action>) {
    forall a :: a in actions ==> !a.GiveUpAtGate2?
  }

  lemma WordFacts(w: Word)
    ensures w == Readers(w) + if WriteEntered(w) then WRITE_ENTERED else 0
    ensures Readers(w) <= N_READERS
    ensures !WriteEntered(w) ==> WriteEntered(EnterWrite(w)) && Readers(EnterWrite(w)) == Readers(w)
  {
  }

  /** Counting a reader in or out stays within the reader bits. */
  lemma ReaderBits(w: Word)
    ensures ReaderMayEnter(w) ==>
      var w' := StoreReaders(w, Increment(Readers(w)));
      Readers(w') == Readers(w) + 1 && !WriteEntered(w')
    ensures Readers(w) > 0 ==>
      Readers(AfterLeaving(w)) == Readers(w) - 1 && (WriteEntered(AfterLeaving(w)) <==> WriteEntered(w))
  {
    WordFacts(w);
  }

  lemma InitialInv(n: nat)
    ensures Inv(Initial(n))
  {
    SumZero(Initial(n).threads, Entered);
    SumZero(Initial(n).threads, Holding);
  }

  lemma SumsUpdate(ts: seq<Pc>, t: nat, pc: Pc)
    requires t < |ts|
    ensures Sum(ts[t := pc], Entered) == Sum(ts, Entered) - Entered(ts[t]) + Entered(pc)
    ensures Sum(ts[t := pc], Holding) == Sum(ts, Holding) - Holding(ts[t]) + Holding(pc)
    ensures Entered(ts[t]) <= Sum(ts, Entered) && Holding(ts[t]) <= Sum(ts, Holding)
  {
    SumUpdate(ts, Entered, t, pc);
    SumUpdate(ts, Holding, t, pc);
  }

  lemma {:induction false} SignallingKeepsSums(ts: seq<Pc>)
    ensures Sum(SignalAllAtGate1(ts), Entered) == Sum(ts, Entered)
    ensures Sum(SignalAllAtGate1(ts), Holding) == Sum(ts, Holding)
  {
    if ts == [] {
    } else {
      var n := |ts| - 1;
      assert SignalAllAtGate1(ts)[..n] == SignalAllAtGate1(ts[..n]);
      SignallingKeepsSums(ts[..n]);
    }
  }

  lemma EnteringSafe(s: State, t: nat)
    requires Safe(s) && t < |s.threads| && Entered(s.threads[t]) == 0 && Holding(s.threads[t]) == 0
    ensures Safe(Set(s, t, TryToEnter(s.word)))
  {
    WordFacts(s.word);
    SumsUpdate(s.threads, t, TryToEnter(s.word).1);
  }

  lemma ReadingSafe(s: State, t: nat)
    requires Safe(s) && t < |s.threads| && Entered(s.threads[t]) == 0 && Holding(s.threads[t]) == 0
    ensures Safe(Set(s, t, TryToRead(s.word)))
    ensures Safe(Set(s, t, (s.word, Idle)))
  {
    ReaderBits(s.word);
    SumsUpdate(s.threads, t, TryToRead(s.word).1);
    SumsUpdate(s.threads, t, Idle);
    if ReaderMayEnter(s.word) {
      NoWriterInside(s);
    }
  }

  lemma NoWriterInside(s: State)
    requires Counted(s) && !WriteEntered(s.word)
    ensures forall t :: 0 <= t < |s.threads| ==> !s.threads[t].Gate2? && !s.threads[t].Writing?
  {
    forall t | 0 <= t < |s.threads| ensures Entered(s.threads[t]) == 0 {
      SumsUpdate(s.threads, t, s.threads[t]);
    }
  }

  /** At most one writer is past the first gate. */
  lemma OneWriterInside(s: State, t: nat, u: nat)
    requires Counted(s) && t < |s.threads| && u < |s.threads| && t != u
    ensures Entered(s.threads[t]) + Entered(s.threads[u]) <= 1
  {
    SumOfTwo(s.threads, Entered, if t < u then t else u, if t < u then u else t);
  }

  lemma PassGate2Safe(s: State, t: nat)
    requires Safe(s) && t < |s.threads| && s.threads[t].Gate2?
    ensures Safe(Set(s, t, PassGate2(s.word)))
  {
    SumsUpdate(s.threads, t, PassGate2(s.word).1);
  }

  lemma TryLockSafe(s: State, t: nat)
    requires Safe(s) && t < |s.threads| && s.threads[t] == Idle
    ensures Safe(Apply(s, TryLock(t)))
  {
    SumsUpdate(s.threads, t, Writing);
    SumsUpdate(s.threads, t, Idle);
    WordFacts(s.word);
  }

  lemma UnlockSafe(s: State, t: nat)
    requires Safe(s) && t < |s.threads| && s.threads[t] == Writing
    ensures Safe(Apply(s, Unlock(t)))
  {
    var left := s.threads[t := Idle];
    SumsUpdate(s.threads, t, Idle);
    SignallingKeepsSums(left);
    assert Readers(0) == 0 && !WriteEntered(0);
    assert Sum(s.threads, Entered) == 1;
    forall u | 0 <= u < |left| ensures !left[u].Gate2? && !left[u].Writing? {
      if u != t {
        OneWriterInside(s, t, u);
      }
    }
  }

  lemma GivingUpSafe(s: State, t: nat)
    requires Safe(s) && Enabled(s, GiveUpAtGate2(t))
    ensures Safe(Apply(s, GiveUpAtGate2(t)))
    ensures WriteEntered(s.word)
    ensures var s' := Apply(s, GiveUpAtGate2(t));
      !WriteEntered(s'.word) && Readers(s'.word) == Readers(s.word)
  {
    SumsUpdate(s.threads, t, Idle);
    WordFacts(s.word);
    NoWriterInside(Apply(s, GiveUpAtGate2(t)));
  }

  lemma SignallingOneKeepsSums(ts: seq<Pc>, who: Notified)
    ensures Sum(SignalOne(ts, who), Entered) == Sum(ts, Entered)
    ensures Sum(SignalOne(ts, who), Holding) == Sum(ts, Holding)
  {
    if who.Thread? && who.u < |ts| {
      SumsUpdate(ts, who.u, Signal(ts[who.u]));
    }
  }

  /** The last reader out wakes the one writer that waits at the second gate. */
  lemma LastReaderWakes(s: State, t: nat, who: Notified, u: nat)
    requires Safe(s) && Enabled(s, UnlockShared(t, who)) && Readers(s.word) == 1
    requires u < |s.threads| && s.threads[u].Gate2?
    ensures Apply(s, UnlockShared(t, who)).threads[u] == Gate2(true)
  {
    ReaderBits(s.word);
    if !WriteEntered(s.word) {
      NoWriterInside(s);
    }
    if who.Thread? && who.u != u {
      OneWriterInside(s, u, who.u);
    }
  }

  lemma UnlockSharedSafe(s: State, t: nat, who: Notified)
    requires Safe(s) && Enabled(s, UnlockShared(t, who))
    ensures Safe(Apply(s, UnlockShared(t, who)))
  {
    var s' := Apply(s, UnlockShared(t, who));
    SumsUpdate(s.threads, t, Idle);
    SignallingOneKeepsSums(s.threads[t := Idle], who);
    ReaderBits(s.word);
    forall u | 0 <= u < |s.threads| && s'.threads[u] == Gate2(false) ensures Readers(s'.word) > 0 {
      assert s.threads[u] == Gate2(false);
      if Readers(s.word) == 1 {
        LastReaderWakes(s, t, who, u);
      }
    }
  }

  lemma StepSafe(s: State, a: Action)
    requires Safe(s) && Enabled(s, a)
    ensures Safe(Apply(s, a))
  {
    match a
    case Lock(t) => EnteringSafe(s, t);
    case WakeAtGate1(t) =>
      EnteringSafe(s, t);
      ReadingSafe(s, t);
    case WakeAtGate2(t) => PassGate2Safe(s, t);
    case TryLock(t) => TryLockSafe(s, t);
    case Unlock(t) => UnlockSafe(s, t);
    case LockShared(t) => ReadingSafe(s, t);
    case TryLockShared(t) => ReadingSafe(s, t);
    case UnlockShared(t, who) => UnlockSharedSafe(s, t, who);
    case GiveUpAtGate1(t) => ReadingSafe(s, t);
    case GiveUpAtGate2(t) => GivingUpSafe(s, t);
  }

  /** A writer that has entered stays so until it unlocks or gives up. */
  lemma StaysEntered(s: State, a: Action)
    requires Safe(s) && Enabled(s, a) && WriteEntered(s.word) && !a.Unlock? && !a.GiveUpAtGate2?
    ensures WriteEntered(Apply(s, a).word)
  {
    if a.UnlockShared? {
      SumsUpdate(s.threads, a.t, Idle);
      ReaderBits(s.word);
    }
  }

  lemma StepInv(s: State, a: Action)
    requires Inv(s) && Enabled(s, a) && !a.GiveUpAtGate2?
    ensures Inv(Apply(s, a))
  {
    StepSafe(s, a);
    WordFacts(s.word);
    forall u | 0 <= u < |s.threads| && Apply(s, a).threads[u] == Gate1Writer(false)
      ensures WriteEntered(Apply(s, a).word)
    {
      if a.t != u {
        assert s.threads[u] == Gate1Writer(false);
        StaysEntered(s, a);
      }
    }
  }

  /** Every run of every number of threads is safe, timeouts included. */
  lemma {:induction false} RunSafe(s: State, actions: seq<Action>)
    requires Safe(s) && Allowed(s, actions)
    ensures Safe(After(s, actions))
    decreases |actions|
  {
    if actions == [] {
    } else {
      StepSafe(s, actions[0]);
      RunSafe(Apply(s, actions[0]), actions[1..]);
    }
  }

  /** Every run in which nobody gives up at the second gate keeps the invariant. */
  lemma {:induction false} RunInv(s: State, actions: seq<Action>)
    requires Inv(s) && Allowed(s, actions) && Patient(actions)
    ensures Inv(After(s, actions))
    decreases |actions|
  {
    if actions == [] {
    } else {
      StepInv(s, actions[0]);
      RunInv(Apply(s, actions[0]), actions[1..]);
    }
  }

  // ----- what the lock promises -----

  /** In every run, timeouts included: whoever writes excludes every other writer and every reader. */
  lemma WriterExcludes(n: nat, actions: seq<Action>, t: nat, u: nat)
    requires t < n && u < n && t != u && Allowed(Initial(n), actions)
    ensures var s := After(Initial(n), actions);
      |s.threads| == n && (s.threads[t] == Writing ==> s.threads[u] != Writing && s.threads[u] != Reading)
  {
    var s := After(Initial(n), actions);
    InitialInv(n);
    RunSafe(Initial(n), actions);
    ThreadsStay(Initial(n), actions);
    OneWriterInside(s, t, u);
    SumsUpdate(s.threads, u, s.threads[u]);
  }

  lemma {:induction false} ThreadsStay(s: State, actions: seq<Action>)
    requires Allowed(s, actions)
    ensures |After(s, actions).threads| == |s.threads|
    decreases |actions|
  {
    if actions == [] {
    } else {
      ThreadsStay(Apply(s, actions[0]), actions[1..]);
    }
  }

  /** In every run, timeouts included: the reader bits are the number of shared holders, never more than fit, and
      the write bit is set exactly while a writer waits at the second gate or has the lock. */
  lemma WordCountsHolders(n: nat, actions: seq<Action>)
    requires Allowed(Initial(n), actions)
    ensures var s := After(Initial(n), actions);
      && Readers(s.word) == Sum(s.threads, Holding) <= N_READERS
      && (WriteEntered(s.word) <==> exists t :: 0 <= t < |s.threads| && Entered(s.threads[t]) == 1)
  {
    var s := After(Initial(n), actions);
    InitialInv(n);
    RunSafe(Initial(n), actions);
    WordFacts(s.word);
    if WriteEntered(s.word) {
      SumPositive(s.threads, Entered);
    } else {
      NoWriterInside(s);
    }
  }

  /** In every run: a writer that sleeps at the second gate without a signal has a reader to wait for,
      which is still inside and will notify it; and if nobody gives up there, one that sleeps at the
      first gate has another writer to wait for. */
  lemma NoWriterSleepsThrough(n: nat, actions: seq<Action>, t: nat)
    requires t < n && Allowed(Initial(n), actions)
    ensures var s := After(Initial(n), actions);
      && |s.threads| == n
      && (s.threads[t] == Gate2(false) ==> exists u :: 0 <= u < n && s.threads[u] == Reading)
      && (Patient(actions) && s.threads[t] == Gate1Writer(false) ==>
            exists u :: 0 <= u < n && u != t && (s.threads[u].Gate2? || s.threads[u].Writing?))
  {
    var s := After(Initial(n), actions);
    InitialInv(n);
    RunSafe(Initial(n), actions);
    ThreadsStay(Initial(n), actions);
    if s.threads[t] == Gate2(false) {
      SumPositive(s.threads, Holding);
    }
    if Patient(actions) && s.threads[t] == Gate1Writer(false) {
      RunInv(Initial(n), actions);
      SumPositive(s.threads, Entered);
    }
  }

  /** While a writer is past the first gate no step lets another reader in. */
  lemma ReadersOnlyLeave(s: State, a: Action)
    requires Safe(s) && Enabled(s, a) && WriteEntered(s.word)
    ensures Readers(Apply(s, a).word) <= Readers(s.word)
    ensures forall u :: 0 <= u < |s.threads| && Apply(s, a).threads[u] == Reading ==> s.threads[u] == Reading
  {
    WordFacts(s.word);
    ReaderBits(s.word);
    if a.UnlockShared? {
      SumsUpdate(s.threads, a.t, Idle);
    }
  }

  /** Any number of steps, as long as the writer that entered has not unlocked or given up: no reader
      gets in. */
  lemma {:induction false} ReadersDrain(s: State, actions: seq<Action>)
    requires Safe(s) && WriteEntered(s.word) && Allowed(s, actions) && Patient(actions)
    requires forall i :: 0 <= i < |actions| ==> !actions[i].Unlock?
    ensures WriteEntered(After(s, actions).word)
    ensures Readers(After(s, actions).word) <= Readers(s.word)
    decreases |actions|
  {
    if actions == [] {
    } else {
      StepSafe(s, actions[0]);
      ReadersOnlyLeave(s, actions[0]);
      StaysEntered(s, actions[0]);
      ReadersDrain(Apply(s, actions[0]), actions[1..]);
    }
  }

  // ----- when a call gets through -----

  ghost predicate WriterInside(ts: seq<Pc>) {
    exists u :: 0 <= u < |ts| && (ts[u].Gate2? || ts[u].Writing?)
  }

  ghost predicate ReaderInside(ts: seq<Pc>) {
    exists u :: 0 <= u < |ts| && ts[u] == Reading
  }

  /** Where a thread stands that asks for exclusive ownership. */
  ghost function AsWriter(ts: seq<Pc>): Pc {
    if WriterInside(ts) then Gate1Writer(false) else if ReaderInside(ts) then Gate2(false) else Writing
  }

  /** Where a thread stands that asks for shared ownership; `refused` if it does not get it. */
  ghost function AsReader(ts: seq<Pc>, refused: Pc): Pc {
    if WriterInside(ts) || Sum(ts, Holding) == N_READERS then refused else Reading
  }

  /** Where the acting thread stands afterwards, from where all threads stand before. */
  ghost function Next(ts: seq<Pc>, a: Action): Pc
    requires a.t < |ts|
  {
    match a
    case Lock(_) => AsWriter(ts)
    case WakeAtGate1(t) => if ts[t].Gate1Writer? then AsWriter(ts) else AsReader(ts, Gate1Reader(false))
    case WakeAtGate2(_) => if ReaderInside(ts) then Gate2(false) else Writing
    case TryLock(_) => if WriterInside(ts) || ReaderInside(ts) then Idle else Writing
    case LockShared(_) => AsReader(ts, Gate1Reader(false))
    case TryLockShared(_) => AsReader(ts, Idle)
    case _ => Idle
  }

  /** What the word says about the threads. */
  lemma WordOfThreads(s: State)
    requires Safe(s)
    ensures WriteEntered(s.word) <==> WriterInside(s.threads)
    ensures Readers(s.word) == Sum(s.threads, Holding)
    ensures Readers(s.word) > 0 <==> ReaderInside(s.threads)
    ensures s.word == 0 <==> !WriterInside(s.threads) && !ReaderInside(s.threads)
  {
    WordFacts(s.word);
    if WriteEntered(s.word) {
      SumPositive(s.threads, Entered);
    } else {
      NoWriterInside(s);
    }
    if Readers(s.word) > 0 {
      SumPositive(s.threads, Holding);
    } else if u :| 0 <= u < |s.threads| && s.threads[u] == Reading {
      SumsUpdate(s.threads, u, s.threads[u]);
    }
  }

  /** In every state of every run: which calls get through, and when, said of the threads; a call that
      does not wait and is refused changes nothing; and the other threads stay where they are, but
      for signals. */
  lemma StepOutcome(s: State, a: Action)
    requires Safe(s) && Enabled(s, a)
    ensures var s' := Apply(s, a);
      && |s'.threads| == |s.threads| && s'.threads[a.t] == Next(s.threads, a)
      && ((a.TryLock? || a.TryLockShared?) && s'.threads[a.t] == Idle ==> s' == s)
      && forall u :: 0 <= u < |s.threads| && u != a.t ==>
           s'.threads[u] == s.threads[u] || s'.threads[u] == Signal(s.threads[u])
  {
    hide Safe;
    WordOfThreads(s);
    WordFacts(s.word);
    assert s.threads[a.t := s.threads[a.t]] == s.threads;
  }

  /** Who is signalled: everybody at the first gate when a writer unlocks, the chosen waiter when a
      reader leaves, and otherwise nobody. */
  lemma StepSignals(s: State, a: Action, u: nat)
    requires Enabled(s, a) && u < |s.threads| && u != a.t
    ensures Apply(s, a).threads[u] ==
      if (a.Unlock? && (s.threads[u].Gate1Writer? || s.threads[u].Gate1Reader?))
         || (a.UnlockShared? && a.notified == Thread(u))
      then Signal(s.threads[u]) else s.threads[u]
  {
  }

  // ----- readers at the first gate -----

  /** No reader sleeps at the first gate while it might enter. */
  ghost predicate ReadersGated(s: State) {
    forall t :: 0 <= t < |s.threads| && s.threads[t] == Gate1Reader(false) ==> !ReaderMayEnter(s.word)
  }

  /** The number of threads for which the wake-up of one reader at the maximum is enough. */
  ghost predicate Uncrowded(s: State) {
    |s.threads| <= N_READERS + 1
  }

  function NotHolding(pc: Pc): nat { 1 - Holding(pc) }

  lemma {:induction false} HoldingOrNot(ts: seq<Pc>)
    ensures Sum(ts, Holding) + Sum(ts, NotHolding) == |ts|
  {
    if ts == [] {
    } else {
      HoldingOrNot(ts[..|ts| - 1]);
    }
  }

  /** With the maximum of readers inside there is room for one thread that does not read. */
  lemma OneOutsideAtMaximum(s: State, t: nat, u: nat)
    requires Counted(s) && Uncrowded(s) && Readers(s.word) == N_READERS
    requires t < |s.threads| && u < |s.threads| && s.threads[t] != Reading && s.threads[u] != Reading
    ensures t == u
  {
    HoldingOrNot(s.threads);
    if t != u {
      SumOfTwo(s.threads, NotHolding, if t < u then t else u, if t < u then u else t);
    }
  }

  lemma UnlockSharedReadersGated(s: State, t: nat, who: Notified, u: nat)
    requires Safe(s) && ReadersGated(s) && Uncrowded(s) && Enabled(s, UnlockShared(t, who)) && u < |s.threads|
    requires Apply(s, UnlockShared(t, who)).threads[u] == Gate1Reader(false)
    ensures WriteEntered(s.word)
  {
    assert s.threads[u] == Gate1Reader(false);
    SumsUpdate(s.threads, t, Idle);
    ReaderBits(s.word);
    if !WriteEntered(s.word) {
      assert Readers(s.word) == N_READERS;
      assert who.Thread?;
      OneOutsideAtMaximum(s, u, who.u);
    }
  }

  lemma StepReadersGated(s: State, a: Action)
    requires Safe(s) && ReadersGated(s) && Uncrowded(s) && Enabled(s, a) && !a.GiveUpAtGate2?
    ensures ReadersGated(Apply(s, a))
  {
    WordFacts(s.word);
    ReaderBits(s.word);
    forall u | 0 <= u < |s.threads| && Apply(s, a).threads[u] == Gate1Reader(false)
      ensures !ReaderMayEnter(Apply(s, a).word)
    {
      if a.UnlockShared? {
        UnlockSharedReadersGated(s, a.t, a.notified, u);
        SumsUpdate(s.threads, a.t, Idle);
      } else if a.t != u {
        assert s.threads[u] == Gate1Reader(false) || a.Unlock?;
      }
    }
  }

  lemma {:induction false} RunReadersGated(s: State, actions: seq<Action>)
    requires Safe(s) && ReadersGated(s) && Uncrowded(s) && Allowed(s, actions) && Patient(actions)
    ensures ReadersGated(After(s, actions))
    decreases |actions|
  {
    if actions == [] {
    } else {
      StepSafe(s, actions[0]);
      StepReadersGated(s, actions[0]);
      RunReadersGated(Apply(s, actions[0]), actions[1..]);
    }
  }

  /** In every run of at most N_READERS + 1 threads in which nobody gives up at the second gate: a reader
      that sleeps without a signal has something to wait for: a writer past the first gate, or every
      other thread is reading. */
  lemma NoReaderSleepsThrough(n: nat, actions: seq<Action>, t: nat)
    requires t < n <= N_READERS + 1 && Allowed(Initial(n), actions) && Patient(actions)
    ensures var s := After(Initial(n), actions);
      && |s.threads| == n
      && (s.threads[t] == Gate1Reader(false) ==>
            || (exists u :: 0 <= u < n && (s.threads[u].Gate2? || s.threads[u].Writing?))
            || (Readers(s.word) == N_READERS && forall u :: 0 <= u < n && u != t ==> s.threads[u] == Reading))
  {
    var s := After(Initial(n), actions);
    InitialInv(n);
    RunInv(Initial(n), actions);
    RunReadersGated(Initial(n), actions);
    ThreadsStay(Initial(n), actions);
    if s.threads[t] == Gate1Reader(false) {
      if WriteEntered(s.word) {
        SumPositive(s.threads, Entered);
      } else {
        forall u | 0 <= u < n && u != t ensures s.threads[u] == Reading {
          if s.threads[u] != Reading {
            OneOutsideAtMaximum(s, t, u);
          }
        }
      }
    }
  }

  /** A reader sleeps although it might enter, and no signal is on its way to the first gate. */
  ghost predicate Forgotten(s: State, t: nat) {
    && t < |s.threads| && s.threads[t] == Gate1Reader(false) && ReaderMayEnter(s.word)
    && forall u :: 0 <= u < |s.threads| && (s.threads[u].Gate1Writer? || s.threads[u].Gate1Reader?) ==>
         !s.threads[u].signalled
  }

  /** One step more at the end of a run. */
  lemma {:induction false} RunOn(s: State, actions: seq<Action>, a: Action)
    requires Allowed(s, actions) && Enabled(After(s, actions), a)
    ensures Allowed(s, actions + [a]) && After(s, actions + [a]) == Apply(After(s, actions), a)
    decreases |actions|
  {
    if actions == [] {
      assert ([] + [a])[1..] == [];
      assert Allowed(Apply(s, a), []);
    } else {
      assert (actions + [a])[1..] == actions[1..] + [a];
      RunOn(Apply(s, actions[0]), actions[1..], a);
    }
  }

  /** The run leads from s to s'. */
  ghost predicate Leads(s: State, actions: seq<Action>, s': State) {
    Allowed(s, actions) && After(s, actions) == s'
  }

  lemma LeadsOn(s: State, actions: seq<Action>, s': State, a: Action, s'': State)
    requires Leads(s, actions, s') && Enabled(s', a) && Apply(s', a) == s''
    ensures Leads(s, actions + [a], s'')
  {
    RunOn(s, actions, a);
  }

  /** The first k of n threads read. */
  function Crowd(n: nat, k: nat): State
    requires k <= n && k <= N_READERS
  {
    State(k, seq(n, i => if i < k then Reading else Idle))
  }

  lemma OneMoreReads(n: nat, k: nat)
    requires k < n && k < N_READERS
    ensures Enabled(Crowd(n, k), LockShared(k)) && Apply(Crowd(n, k), LockShared(k)) == Crowd(n, k + 1)
  {
    ReaderBits(k);
    assert Crowd(n, k).threads[k := Reading] == Crowd(n, k + 1).threads;
  }

  lemma MorePatience(actions: seq<Action>, a: Action)
    requires Patient(actions) && !a.GiveUpAtGate2?
    ensures Patient(actions + [a])
  {
  }

  lemma {:induction false} Gather(n: nat, k: nat) returns (actions: seq<Action>)
    requires k <= n && k <= N_READERS
    ensures Leads(Initial(n), actions, Crowd(n, k)) && Patient(actions)
  {
    if k == 0 {
      assert Initial(n) == Crowd(n, 0);
      return [];
    } else {
      hide *;
      actions := Gather(n, k - 1);
      OneMoreReads(n, k - 1);
      LeadsOn(Initial(n), actions, Crowd(n, k - 1), LockShared(k - 1), Crowd(n, k));
      MorePatience(actions, LockShared(k - 1));
      actions := actions + [LockShared(k - 1)];
    }
  }

  lemma ReaderBlocks(ts: seq<Pc>, t: nat)
    requires t < |ts| && ts[t] == Idle
    ensures var s := State(N_READERS, ts);
      Enabled(s, LockShared(t)) && Apply(s, LockShared(t)) == State(N_READERS, ts[t := Gate1Reader(false)])
  {
  }

  lemma ReaderWakes(w: Word, ts: seq<Pc>, t: nat)
    requires t < |ts| && ts[t].Gate1Reader? && w < N_READERS
    ensures var s := State(w, ts);
      Enabled(s, WakeAtGate1(t)) && Apply(s, WakeAtGate1(t)) == State(w + 1, ts[t := Reading])
  {
  }

  lemma ReaderLeaves(w: Word, ts: seq<Pc>, t: nat, who: Notified)
    requires t < |ts| && ts[t] == Reading && 0 < w <= N_READERS
    requires if w == N_READERS then MayNotify(ts, WaitsUnsignalledAtGate1, who) else who == Nobody
    ensures var s := State(w, ts);
      Enabled(s, UnlockShared(t, who))
      && Apply(s, UnlockShared(t, who)) == State(w - 1, SignalOne(ts[t := Idle], who))
  {
  }

  /** The maximum of threads read and two more sleep.  Two readers leave, but only the first of them
      wakes anybody. */
  lemma ForgetOne(n: nat) returns (actions: seq<Action>, s: State)
    requires n > N_READERS + 1
    ensures Leads(Initial(n), actions, s) && Patient(actions) && Forgotten(s, N_READERS + 1)
  {
    var k: Word := N_READERS;
    var ts0 := Crowd(n, k).threads;
    var ts1 := ts0[k := Gate1Reader(false)];
    var ts2 := ts1[k + 1 := Gate1Reader(false)];
    var ts3 := ts2[0 := Idle][k := Gate1Reader(true)];
    var ts4 := ts3[1 := Idle];
    var ts5 := ts4[k := Reading];
    ReaderBlocks(ts0, k);
    ReaderBlocks(ts1, k + 1);
    ReaderLeaves(k, ts2, 0, Thread(k));
    ReaderLeaves(k - 1, ts3, 1, Nobody);
    ReaderWakes(k - 2, ts4, k);
    s := State(k - 1, ts5);
    assert Forgotten(s, k + 1);
    assert SignalOne(ts2[0 := Idle], Thread(k)) == ts3;
    hide *;
    actions := Gather(n, k);
    LeadsOn(Initial(n), actions, State(k, ts0), LockShared(k), State(k, ts1));
    MorePatience(actions, LockShared(k));
    actions := actions + [LockShared(k)];
    LeadsOn(Initial(n), actions, State(k, ts1), LockShared(k + 1), State(k, ts2));
    MorePatience(actions, LockShared(k + 1));
    actions := actions + [LockShared(k + 1)];
    LeadsOn(Initial(n), actions, State(k, ts2), UnlockShared(0, Thread(k)), State(k - 1, ts3));
    MorePatience(actions, UnlockShared(0, Thread(k)));
    actions := actions + [UnlockShared(0, Thread(k))];
    LeadsOn(Initial(n), actions, State(k - 1, ts3), UnlockShared(1, Nobody), State(k - 2, ts4));
    MorePatience(actions, UnlockShared(1, Nobody));
    actions := actions + [UnlockShared(1, Nobody)];
    LeadsOn(Initial(n), actions, State(k - 2, ts4), WakeAtGate1(k), s);
    MorePatience(actions, WakeAtGate1(k));
    actions := actions + [WakeAtGate1(k)];
  }

  ghost predicate Forgets(n: nat, actions: seq<Action>, t: nat) {
    Allowed(Initial(n), actions) && Patient(actions) && Forgotten(After(Initial(n), actions), t)
  }

  /** With one thread more a reader can be forgotten; the bound is exact. */
  lemma ReaderForgottenIffCrowded(n: nat)
    ensures (exists actions, t :: Forgets(n, actions, t)) <==> n > N_READERS + 1
  {
    if n > N_READERS + 1 {
      var actions, _ := ForgetOne(n);
      assert Forgets(n, actions, N_READERS + 1);
    } else {
      forall actions, t | Allowed(Initial(n), actions) && Patient(actions) ensures !Forgets(n, actions, t) {
        InitialInv(n);
        RunReadersGated(Initial(n), actions);
      }
    }
  }

  // ----- where a timed writer gives up -----

  /** The lock is free, and somebody sleeps at the first gate. */
  ghost predicate LeftAsleep(s: State) {
    s.word == 0 && exists u :: 0 <= u < |s.threads| && WaitsUnsignalledAtGate1(s.threads[u])
  }

  /** And no signal is on its way there. */
  ghost predicate Stranded(s: State) {
    && LeftAsleep(s)
    && forall u :: 0 <= u < |s.threads| ==> s.threads[u] != Gate1Writer(true) && s.threads[u] != Gate1Reader(true)
  }

  ghost predicate Strands(s: State, actions: seq<Action>) {
    Allowed(s, actions) && Patient(actions) && Stranded(After(s, actions))
  }

  /** Unless somebody gives up, no run of at most N_READERS + 1 threads leaves a waiter asleep at a free
      lock. */
  lemma NobodyLeftAsleep(s: State, actions: seq<Action>)
    requires Inv(s) && ReadersGated(s) && Uncrowded(s) && Allowed(s, actions) && Patient(actions)
    ensures !LeftAsleep(After(s, actions))
  {
    RunInv(s, actions);
    RunReadersGated(s, actions);
    assert !WriteEntered(0) && ReaderMayEnter(0);
  }

  /** A writer at the first gate has been signalled, or nobody sleeps there without a reason. */
  ghost predicate Attended(s: State) {
    (exists u :: 0 <= u < |s.threads| && s.threads[u] == Gate1Writer(true)) || (WritersGated(s) && ReadersGated(s))
  }

  /** A signalled writer stays so until it enters; and once a writer has entered all sleep with reason. */
  lemma StepAttended(s: State, a: Action)
    requires Safe(s) && Attended(s) && Uncrowded(s) && Enabled(s, a) && !a.GiveUpAtGate2?
    ensures Attended(Apply(s, a))
  {
    var s' := Apply(s, a);
    if WritersGated(s) && ReadersGated(s) {
      StepInv(s, a);
      StepReadersGated(s, a);
    } else {
      var u :| 0 <= u < |s.threads| && s.threads[u] == Gate1Writer(true);
      assert !WriteEntered(s.word);
      WordFacts(s.word);
      if a.t == u {
        assert WriteEntered(s'.word);
      } else {
        assert s'.threads[u] == Gate1Writer(true);
      }
    }
  }

  lemma {:induction false} RunAttended(s: State, actions: seq<Action>)
    requires Safe(s) && Attended(s) && Uncrowded(s) && Allowed(s, actions) && Patient(actions)
    ensures !Stranded(After(s, actions))
    decreases |actions|
  {
    if actions == [] {
      assert !WriteEntered(0) && ReaderMayEnter(0);
    } else {
      StepSafe(s, actions[0]);
      StepAttended(s, actions[0]);
      RunAttended(Apply(s, actions[0]), actions[1..]);
    }
  }

  /** What is left to do for readers that have been signalled or are inside. */
  function Work(pc: Pc): nat {
    if pc == Gate1Reader(true) then 2 else if pc == Reading then 1 else 0
  }

  /** A thread outside and one that waits leave room for another reader. */
  lemma RoomToRead(s: State, t: nat, u: nat)
    requires Counted(s) && Uncrowded(s) && t < |s.threads| && u < |s.threads| && t != u
    requires s.threads[t] == Idle && WaitsUnsignalledAtGate1(s.threads[u])
    ensures Readers(s.word) < N_READERS
  {
    WordFacts(s.word);
    if Readers(s.word) == N_READERS {
      OneOutsideAtMaximum(s, t, u);
    }
  }

  /** t is outside, u sleeps at the first gate, and no writer is past it or about to be. */
  ghost predicate Draining(s: State, t: nat, u: nat) {
    && Counted(s) && Uncrowded(s) && !WriteEntered(s.word)
    && t < |s.threads| && u < |s.threads| && s.threads[t] == Idle && WaitsUnsignalledAtGate1(s.threads[u])
    && forall v :: 0 <= v < |s.threads| ==> s.threads[v] != Gate1Writer(true)
  }

  lemma SignalledReaderEnters(s: State, t: nat, u: nat, v: nat)
    requires Draining(s, t, u) && v < |s.threads| && s.threads[v] == Gate1Reader(true)
    ensures var s' := Apply(s, WakeAtGate1(v));
      Draining(s', t, u) && Sum(s'.threads, Work) < Sum(s.threads, Work)
  {
    RoomToRead(s, t, u);
    WordFacts(s.word);
    ReaderBits(s.word);
    SumsUpdate(s.threads, v, Reading);
    SumUpdate(s.threads, Work, v, Reading);
  }

  /** Below the maximum a reader that leaves does not notify the first gate. */
  lemma ReaderGoes(s: State, t: nat, u: nat, v: nat)
    requires Draining(s, t, u) && v < |s.threads| && s.threads[v] == Reading
    ensures Enabled(s, UnlockShared(v, Nobody))
    ensures var s' := Apply(s, UnlockShared(v, Nobody));
      Draining(s', t, u) && Sum(s'.threads, Work) < Sum(s.threads, Work)
  {
    RoomToRead(s, t, u);
    SumsUpdate(s.threads, v, Idle);
    ReaderBits(s.word);
    assert NotifiedGate(AfterLeaving(s.word), Decrement(Readers(s.word))) == NoGate;
    SumUpdate(s.threads, Work, v, Idle);
  }

  lemma Drained(s: State, t: nat, u: nat)
    requires Draining(s, t, u) && forall v :: 0 <= v < |s.threads| ==> s.threads[v] != Gate1Reader(true)
    ensures Stranded(s) || exists v :: 0 <= v < |s.threads| && s.threads[v] == Reading
  {
    WordFacts(s.word);
    if Readers(s.word) > 0 {
      SumPositive(s.threads, Holding);
    }
  }

  lemma StrandsBefore(s: State, next: Action, rest: seq<Action>)
    requires Enabled(s, next) && !next.GiveUpAtGate2? && Strands(Apply(s, next), rest)
    ensures Strands(s, [next] + rest)
  {
    assert ([next] + rest)[1..] == rest;
  }

  /** The signalled readers enter and all readers leave, one after the other. */
  lemma {:induction false} ReadersFinish(s: State, t: nat, u: nat) returns (actions: seq<Action>)
    requires Draining(s, t, u)
    ensures Strands(s, actions)
    decreases Sum(s.threads, Work)
  {
    hide Draining, Stranded, Apply, Sum;
    if v :| 0 <= v < |s.threads| && s.threads[v] == Gate1Reader(true) {
      SignalledReaderEnters(s, t, u, v);
      var rest := ReadersFinish(Apply(s, WakeAtGate1(v)), t, u);
      StrandsBefore(s, WakeAtGate1(v), rest);
      return [WakeAtGate1(v)] + rest;
    } else if v :| 0 <= v < |s.threads| && s.threads[v] == Reading {
      ReaderGoes(s, t, u, v);
      var rest := ReadersFinish(Apply(s, UnlockShared(v, Nobody)), t, u);
      StrandsBefore(s, UnlockShared(v, Nobody), rest);
      return [UnlockShared(v, Nobody)] + rest;
    } else {
      Drained(s, t, u);
      return [];
    }
  }

  /** From any state of any run: after a writer has given up at the second gate, some run leads to a free
      lock with somebody asleep at the first gate and no signal on its way, exactly if a thread, reader
      or writer, sleeps unsignalled there when it gives up, and no writer has been signalled there. */
  lemma GivingUpStrandsIff(s: State, t: nat)
    requires Safe(s) && Uncrowded(s) && Enabled(s, GiveUpAtGate2(t))
    ensures (exists actions :: Strands(Apply(s, GiveUpAtGate2(t)), actions)) <==>
            && (exists u :: 0 <= u < |s.threads| && WaitsUnsignalledAtGate1(s.threads[u]))
            && (forall u :: 0 <= u < |s.threads| ==> s.threads[u] != Gate1Writer(true))
  {
    var s' := Apply(s, GiveUpAtGate2(t));
    GivingUpSafe(s, t);
    if u :| 0 <= u < |s.threads| && WaitsUnsignalledAtGate1(s.threads[u])
            && forall v :: 0 <= v < |s.threads| ==> s.threads[v] != Gate1Writer(true) {
      var actions := ReadersFinish(s', t, u);
    } else {
      assert Attended(s') by {
        if v :| 0 <= v < |s.threads| && s.threads[v] == Gate1Writer(true) {
          assert s'.threads[v] == Gate1Writer(true);
        }
      }
      forall actions | Allowed(s', actions) && Patient(actions) ensures !Strands(s', actions) {
        RunAttended(s', actions);
      }
    }
  }

  lemma NobodySignalled(ts: seq<Pc>)
    ensures SignalOne(ts, Nobody) == ts
  {
  }

  lemma WriterWaits()
    ensures Leads(Initial(3), [LockShared(0), Lock(1)], State(WRITE_ENTERED + 1, [Reading, Gate2(false), Idle]))
  {
    var s0, s1 := State(0, [Idle, Idle, Idle]), State(1, [Reading, Idle, Idle]);
    var s2 := State(WRITE_ENTERED + 1, [Reading, Gate2(false), Idle]);
    assert Leads(Initial(3), [], s0);
    assert Apply(s0, LockShared(0)) == s1 && Apply(s1, Lock(1)) == s2;
    LeadsOn(Initial(3), [], s0, LockShared(0), s1);
    LeadsOn(Initial(3), [] + [LockShared(0)], s1, Lock(1), s2);
    assert [] + [LockShared(0)] + [Lock(1)] == [LockShared(0), Lock(1)];
  }

  lemma ThirdSleeps(third: Action, asleep: Pc)
    requires (third, asleep) == (LockShared(2), Gate1Reader(false)) || (third, asleep) == (Lock(2), Gate1Writer(false))
    ensures var s := State(WRITE_ENTERED + 1, [Reading, Gate2(false), Idle]);
      Enabled(s, third) && Apply(s, third) == State(WRITE_ENTERED + 1, [Reading, Gate2(false), asleep])
  {
  }

  lemma WriterGivesUp(asleep: Pc)
    ensures var s := State(WRITE_ENTERED + 1, [Reading, Gate2(false), asleep]);
      Enabled(s, GiveUpAtGate2(1)) && Apply(s, GiveUpAtGate2(1)) == State(1, [Reading, Idle, asleep])
  {
  }

  lemma FiveActions(a: Action, b: Action, c: Action, d: Action, e: Action)
    ensures [a, b] + [c] + [d] + [e] == [a, b, c, d, e]
  {
  }

  lemma SleepsOn(asleep: Pc)
    requires WaitsUnsignalledAtGate1(asleep)
    ensures Stranded(State(0, [Idle, Idle, asleep]))
  {
    assert WaitsUnsignalledAtGate1([Idle, Idle, asleep][2]);
  }

  /** Three threads: one reads, a writer waits for it at the second gate, and the third, reader or
      writer, sleeps at the first.  The writer gives up and the reader leaves: the lock is free, and
      the third sleeps on. */
  lemma GivingUpStrands(third: Action, asleep: Pc)
    requires (third, asleep) == (LockShared(2), Gate1Reader(false)) || (third, asleep) == (Lock(2), Gate1Writer(false))
    ensures var s := State(0, [Idle, Idle, asleep]);
      && Leads(Initial(3), [LockShared(0), Lock(1), third, GiveUpAtGate2(1), UnlockShared(0, Nobody)], s)
      && Stranded(s)
  {
    var s2 := State(WRITE_ENTERED + 1, [Reading, Gate2(false), Idle]);
    var s3 := State(WRITE_ENTERED + 1, [Reading, Gate2(false), asleep]);
    var s4 := State(1, [Reading, Idle, asleep]);
    var s5 := State(0, [Idle, Idle, asleep]);
    var actions := [LockShared(0), Lock(1)];
    hide *;
    ThirdSleeps(third, asleep);
    WriterGivesUp(asleep);
    SleepsOn(asleep);
    WriterWaits();
    ReaderLeaves(1, s4.threads, 0, Nobody);
    NobodySignalled(s5.threads);
    assert s4.threads[0 := Idle] == s5.threads;
    LeadsOn(Initial(3), actions, s2, third, s3);
    LeadsOn(Initial(3), actions + [third], s3, GiveUpAtGate2(1), s4);
    LeadsOn(Initial(3), actions + [third] + [GiveUpAtGate2(1)], s4, UnlockShared(0, Nobody), s5);
    FiveActions(LockShared(0), Lock(1), third, GiveUpAtGate2(1), UnlockShared(0, Nobody));
  }

  // ----- the object -----

  /** A writer that waits at the gate, or at none. */
  function WriterAt(waitsAt: Target): Pc {
    match waitsAt
    case NoGate => Writing
    case GateOne => Gate1Writer(false)
    case GateTwo => Gate2(false)
  }

  /** The lock as the source stores it: one word.  Each method is one critical section, run by
      thread t; the waiting loops of lock and lock_shared appear as the section up to the first
      wait (Lock, LockShared) and the section after each wake (WakeAtGate1, WakeAtGate2). */
  class SharedTimedMutex {
    var state: Word
    ghost var sys: State

    ghost predicate Valid()
      reads this
    {
      Safe(sys) && sys.word == state
    }

    constructor (ghost n: nat)
      ensures Valid() && sys == Initial(n)
    {
      state := 0;
      sys := Initial(n);
      InitialInv(n);
    }

    ghost method Take(a: Action)
      requires Safe(sys) && Enabled(sys, a)
      modifies this`sys
      ensures sys == Apply(old(sys), a) && Safe(sys)
    {
      StepSafe(sys, a);
      sys := Apply(sys, a);
    }

    method Lock(ghost t: nat) returns (waitsAt: Target)
      requires Valid() && Enabled(sys, Action.Lock(t))
      modifies this
      ensures Valid() && sys == Apply(old(sys), Action.Lock(t))
      ensures sys.threads[t] == WriterAt(waitsAt)
    {
      waitsAt := Enter();
      Take(Action.Lock(t));
    }

    /** From the first loop's test on: what both the first try and each wake at gate 1 do. */
    method Enter() returns (waitsAt: Target)
      modifies this`state
      ensures (state, WriterAt(waitsAt)) == TryToEnter(old(state))
    {
      if WriteEntered(state) {
        return GateOne;
      }
      WordFacts(state);
      state := EnterWrite(state);
      return if Readers(state) != 0 then GateTwo else NoGate;
    }

    method WakeWriterAtGate1(ghost t: nat) returns (waitsAt: Target)
      requires Valid() && Enabled(sys, WakeAtGate1(t)) && sys.threads[t].Gate1Writer?
      modifies this
      ensures Valid() && sys == Apply(old(sys), WakeAtGate1(t))
      ensures sys.threads[t] == WriterAt(waitsAt)
    {
      waitsAt := Enter();
      Take(WakeAtGate1(t));
    }

    method WakeWriterAtGate2(ghost t: nat) returns (locked: bool)
      requires Valid() && Enabled(sys, WakeAtGate2(t))
      modifies this
      ensures Valid() && sys == Apply(old(sys), WakeAtGate2(t)) && state == old(state)
      ensures sys.threads[t] == if locked then Writing else Gate2(false)
    {
      locked := Readers(state) == 0;
      Take(WakeAtGate2(t));
    }

    /** try_lock_until, out of time at the first gate: goes on if it can and otherwise gives up. */
    method WriterOutOfTimeAtGate1(ghost t: nat) returns (gaveUp: bool, waitsAt: Target)
      requires Valid() && Enabled(sys, WakeAtGate1(t)) && sys.threads[t].Gate1Writer?
      modifies this
      ensures Valid() && (gaveUp <==> WriteEntered(old(state)))
      ensures gaveUp ==> sys == Apply(old(sys), GiveUpAtGate1(t)) && state == old(state)
      ensures !gaveUp ==> sys == Apply(old(sys), WakeAtGate1(t)) && sys.threads[t] == WriterAt(waitsAt)
    {
      gaveUp, waitsAt := WriteEntered(state), NoGate;
      if gaveUp {
        Take(GiveUpAtGate1(t));
      } else {
        waitsAt := Enter();
        Take(WakeAtGate1(t));
      }
    }

    /** try_lock_until, out of time at the second gate. */
    method WriterOutOfTimeAtGate2(ghost t: nat) returns (gaveUp: bool)
      requires Valid() && Enabled(sys, WakeAtGate2(t))
      modifies this
      ensures Valid() && (gaveUp <==> Readers(old(state)) > 0)
      ensures sys == Apply(old(sys), if gaveUp then GiveUpAtGate2(t) else WakeAtGate2(t))
      ensures sys.threads[t] == if gaveUp then Idle else Writing
    {
      gaveUp := Readers(state) != 0;
      if gaveUp {
        WordFacts(state);
        state := Readers(state);
        Take(GiveUpAtGate2(t));
      } else {
        Take(WakeAtGate2(t));
      }
    }

    method TryLock(ghost t: nat) returns (locked: bool)
      requires Valid() && Enabled(sys, Action.TryLock(t))
      modifies this
      ensures Valid() && sys == Apply(old(sys), Action.TryLock(t))
      ensures sys.threads[t] == if locked then Writing else Idle
      ensures locked <==> !WriterInside(old(sys).threads) && !ReaderInside(old(sys).threads)
    {
      WordOfThreads(sys);
      locked := state == 0;
      if locked {
        state := WRITE_ENTERED;
      }
      Take(Action.TryLock(t));
    }

    method Unlock(ghost t: nat)
      requires Valid() && Enabled(sys, Action.Unlock(t))
      modifies this
      ensures Valid() && sys == Apply(old(sys), Action.Unlock(t))
    {
      state := 0;
      Take(Action.Unlock(t));
    }

    /** num_readers = (state & n_readers) + 1, stored back, unless a writer or too many readers are in. */
    method Admit() returns (reading: bool)
      modifies this`state
      ensures (state, if reading then Reading else Gate1Reader(false)) == TryToRead(old(state))
    {
      reading := !WriteEntered(state) && Readers(state) != N_READERS;
      if reading {
        state := StoreReaders(state, Increment(Readers(state)));
      }
    }

    method LockShared(ghost t: nat) returns (reading: bool)
      requires Valid() && Enabled(sys, Action.LockShared(t))
      modifies this
      ensures Valid() && sys == Apply(old(sys), Action.LockShared(t))
      ensures sys.threads[t] == if reading then Reading else Gate1Reader(false)
    {
      reading := Admit();
      Take(Action.LockShared(t));
    }

    method WakeReader(ghost t: nat) returns (reading: bool)
      requires Valid() && Enabled(sys, WakeAtGate1(t)) && sys.threads[t].Gate1Reader?
      modifies this
      ensures Valid() && sys == Apply(old(sys), WakeAtGate1(t))
      ensures sys.threads[t] == if reading then Reading else Gate1Reader(false)
    {
      reading := Admit();
      Take(WakeAtGate1(t));
    }

    /** try_lock_shared_until, out of time. */
    method ReaderOutOfTime(ghost t: nat) returns (gaveUp: bool)
      requires Valid() && Enabled(sys, WakeAtGate1(t)) && sys.threads[t].Gate1Reader?
      modifies this
      ensures Valid() && (gaveUp <==> !ReaderMayEnter(old(state)))
      ensures sys == Apply(old(sys), if gaveUp then GiveUpAtGate1(t) else WakeAtGate1(t))
      ensures sys.threads[t] == if gaveUp then Idle else Reading
    {
      var reading := Admit();
      gaveUp := !reading;
      if gaveUp {
        Take(GiveUpAtGate1(t));
      } else {
        Take(WakeAtGate1(t));
      }
    }

    method TryLockShared(ghost t: nat) returns (reading: bool)
      requires Valid() && Enabled(sys, Action.TryLockShared(t))
      modifies this
      ensures Valid() && sys == Apply(old(sys), Action.TryLockShared(t))
      ensures sys.threads[t] == if reading then Reading else Idle
      ensures reading <==> !WriterInside(old(sys).threads) && Sum(old(sys).threads, Holding) != N_READERS
    {
      WordOfThreads(sys);
      reading := Admit();
      Take(Action.TryLockShared(t));
    }

    /** Returns the gate it notifies; `who` is the waiter that notify_one reaches. */
    method UnlockShared(ghost t: nat, ghost who: Notified) returns (notifies: Target)
      requires Valid() && Enabled(sys, Action.UnlockShared(t, who))
      modifies this
      ensures Valid() && sys == Apply(old(sys), Action.UnlockShared(t, who))
      ensures notifies == NoGate ==> who == Nobody
      ensures notifies == GateTwo <==> WriteEntered(state) && Readers(state) == 0
      ensures notifies == GateOne <==> !WriteEntered(state) && Readers(state) == N_READERS - 1
    {
      SumsUpdate(sys.threads, t, Idle);
      ReaderBits(state);
      var numReaders := Decrement(Readers(state));
      state := StoreReaders(state, numReaders);
      notifies := NotifiedGate(state, numReaders);
      Take(Action.UnlockShared(t, who));
    }
  }
}
