/** One-time initialisation: the machine that __call_once (libcxx/src/mutex.cpp) and the guards of
    function-local statics (libcxxabi/src/cxa_guard.cpp, Itanium C++ ABI section 3.3.2) both run.

    An action is what one thread does while it holds the internal mutex; the initialiser itself
    and the broadcast happen outside it.  The condition variable is shared by all flags, so a
    broadcast for another flag shows here as a wake without a signal.
  */
module Once {
  datatype Phase = Fresh | Running | Done

  /** Initialising: inside the initialiser.  Broadcasting(ok): it ended (ok: without an exception)
      and the waiters have not been notified yet.  Returned: the last call returned normally. */
  datatype Pc = Idle | Blocked(signalled: bool) | Initialising | Broadcasting(ok: bool) | Returned

  datatype State = State(phase: Phase, threads: seq<Pc>, started: nat, failed: nat, succeeded: nat)

  datatype Action = Call(t: nat) | Wake(t: nat) | Finish(t: nat, ok: bool) | Broadcast(t: nat)

  function Initial(n: nat): State {
    State(Fresh, seq(n, _ => Idle), 0, 0, 0)
  }

  predicate Enabled(s: State, a: Action) {
    && a.t < |s.threads|
    && var pc := s.threads[a.t];
      match a
      case Call(_) => pc == Idle || pc == Returned
      case Wake(_) => pc.Blocked?
      case Finish(_, _) => pc == Initialising
      case Broadcast(_) => pc.Broadcasting?
  }

  /** What a thread does that finds the flag in the given phase. */
  function Look(s: State, t: nat): State
    requires t < |s.threads|
  {
    match s.phase
    case Fresh => s.(phase := Running, threads := s.threads[t := Initialising], started := s.started + 1)
    case Running => s.(threads := s.threads[t := Blocked(false)])
    case Done => s.(threads := s.threads[t := Returned])
  }

  function SignalAll(threads: seq<Pc>): seq<Pc> {
    seq(|threads|, i requires 0 <= i < |threads| => if threads[i].Blocked? then Blocked(true) else threads[i])
  }

  function Apply(s: State, a: Action): State
    requires Enabled(s, a)
  {
    match a
    case Call(t) => Look(s, t)
    case Wake(t) => Look(s, t)
    case Finish(t, ok) =>
      State(if ok then Done else Fresh, s.threads[t := Broadcasting(ok)], s.started,
            s.failed + if ok then 0 else 1, s.succeeded + if ok then 1 else 0)
    case Broadcast(t) =>
      s.(threads := SignalAll(s.threads[t := if s.threads[t].ok then Returned else Idle]))
  }

  ghost predicate Allowed(s: State, actions: seq<Action>)
    decreases |actions|
  {
    actions == [] || (Enabled(s, actions[0]) && Allowed(Apply(s, actions[0]), actions[1..]))
  }

  ghost function After(s: State, actions: seq<Action>): State
    requires Allowed(s, actions)
    decreases |actions|
  {
    if actions == [] then s else After(Apply(s, actions[0]), actions[1..])
  }

  // ----- the invariant -----

  ghost predicate SomeoneInitialises(s: State) {
    exists t :: 0 <= t < |s.threads| && s.threads[t] == Initialising
  }

  ghost predicate BroadcastDue(s: State) {
    exists t :: 0 <= t < |s.threads| && s.threads[t].Broadcasting?
  }

  ghost predicate OneAtATime(s: State) {
    && (s.phase == Running <==> SomeoneInitialises(s))
    && forall t, u :: 0 <= t < u < |s.threads| ==> s.threads[t] != Initialising || s.threads[u] != Initialising
  }

  ghost predicate Tallied(s: State) {
    && s.succeeded == (if s.phase == Done then 1 else 0)
    && s.started == s.failed + s.succeeded + (if s.phase == Running then 1 else 0)
    && forall t :: 0 <= t < |s.threads| && (s.threads[t] == Returned || s.threads[t] == Broadcasting(true)) ==>
        s.phase == Done
  }

  ghost predicate WakesDue(s: State) {
    forall t :: 0 <= t < |s.threads| && s.threads[t] == Blocked(false) ==> s.phase == Running || BroadcastDue(s)
  }

  ghost predicate Inv(s: State) {
    OneAtATime(s) && Tallied(s) && WakesDue(s)
  }

  lemma StepOneAtATime(s: State, a: Action)
    requires OneAtATime(s) && Enabled(s, a)
    ensures OneAtATime(Apply(s, a))
  {
    var s' := Apply(s, a);
    if SomeoneInitialises(s) {
      var t :| 0 <= t < |s.threads| && s.threads[t] == Initialising;
      if a != Finish(t, true) && a != Finish(t, false) {
        assert s'.threads[t] == Initialising;
      }
    } else if s'.phase == Running {
      assert s'.threads[a.t] == Initialising;
    }
  }

  lemma StepWakesDue(s: State, a: Action)
    requires WakesDue(s) && Enabled(s, a)
    ensures WakesDue(Apply(s, a))
  {
    var s' := Apply(s, a);
    if a.Finish? {
      assert s'.threads[a.t].Broadcasting?;
    } else if !a.Broadcast? && BroadcastDue(s) {
      var t :| 0 <= t < |s.threads| && s.threads[t].Broadcasting?;
      assert s'.threads[t].Broadcasting?;
    }
  }

  lemma StepInv(s: State, a: Action)
    requires Inv(s) && Enabled(s, a)
    ensures Inv(Apply(s, a))
  {
    StepOneAtATime(s, a);
    StepWakesDue(s, a);
    if a.Finish? {
      assert SomeoneInitialises(s);
    }
  }

  /** Every run of every number of threads keeps the invariant. */
  lemma {:induction false} RunInv(s: State, actions: seq<Action>)
    requires Inv(s) && Allowed(s, actions)
    ensures Inv(After(s, actions)) && |After(s, actions).threads| == |s.threads|
    decreases |actions|
  {
    if actions == [] {
    } else {
      StepInv(s, actions[0]);
      RunInv(Apply(s, actions[0]), actions[1..]);
    }
  }

  /** Where the acting thread stands afterwards, from what the threads do and whether an initialisation
      has succeeded. */
  ghost function Next(s: State, a: Action): Pc
    requires a.t < |s.threads|
  {
    match a
    case Finish(_, ok) => Broadcasting(ok)
    case Broadcast(t) => if s.threads[t] == Broadcasting(true) then Returned else Idle
    case _ => if SomeoneInitialises(s) then Blocked(false) else if s.succeeded > 0 then Returned else Initialising
  }

  /** In every state of every run: who starts an initialisation, who waits and who returns, and what is
      counted; a broadcast signals everybody who waits, and else the other threads stay as they are. */
  lemma StepOutcome(s: State, a: Action)
    requires Inv(s) && Enabled(s, a)
    ensures var s' := Apply(s, a);
      && |s'.threads| == |s.threads| && s'.threads[a.t] == Next(s, a)
      && s'.started == s.started + (if s'.threads[a.t] == Initialising then 1 else 0)
      && s'.succeeded == s.succeeded + (if a.Finish? && a.ok then 1 else 0)
      && s'.failed == s.failed + (if a.Finish? && !a.ok then 1 else 0)
      && forall u :: 0 <= u < |s.threads| && u != a.t ==>
           s'.threads[u] == if a.Broadcast? && s.threads[u].Blocked? then Blocked(true) else s.threads[u]
  {
  }

  // ----- what the machine promises -----

  /** In every run: at most one thread initialises at a time, at most one initialisation succeeds,
      every started one has failed, has succeeded or is running, and a call returns normally only
      once one has succeeded. */
  lemma InitialisesOnce(n: nat, actions: seq<Action>, t: nat, u: nat)
    requires t < n && u < n && Allowed(Initial(n), actions)
    ensures var s := After(Initial(n), actions);
      && |s.threads| == n
      && (s.threads[t] == Initialising && s.threads[u] == Initialising ==> t == u)
      && s.succeeded <= 1
      && s.started <= s.failed + s.succeeded + 1
      && (s.threads[t] == Initialising ==> s.started == s.failed + 1 && s.succeeded == 0)
      && (s.threads[t] == Returned ==> s.succeeded == 1)
  {
    RunInv(Initial(n), actions);
  }

  /** In every run: a thread blocked without a signal waits for a running initialiser or for a
      broadcast that some other thread is about to make. */
  lemma NobodyBlocksForNothing(n: nat, actions: seq<Action>, t: nat)
    requires t < n && Allowed(Initial(n), actions)
    ensures var s := After(Initial(n), actions);
      |s.threads| == n && (s.threads[t] == Blocked(false) ==> SomeoneInitialises(s) || BroadcastDue(s))
  {
    RunInv(Initial(n), actions);
  }

  /** After a success no run ever starts another initialisation. */
  lemma {:induction false} DoneForGood(s: State, actions: seq<Action>)
    requires Inv(s) && s.phase == Done && Allowed(s, actions)
    ensures After(s, actions).phase == Done && After(s, actions).started == s.started
    ensures !SomeoneInitialises(After(s, actions))
    decreases |actions|
  {
    if actions == [] {
    } else {
      StepInv(s, actions[0]);
      DoneForGood(Apply(s, actions[0]), actions[1..]);
    }
  }

  /** A failed initialisation is retried: in every run, when the last one that ended has failed and
      none is running, the next thread that calls or wakes starts one. */
  lemma FailureIsRetried(n: nat, actions: seq<Action>, a: Action)
    requires Allowed(Initial(n), actions) && Enabled(After(Initial(n), actions), a) && (a.Call? || a.Wake?)
    ensures var s := After(Initial(n), actions);
      s.started == s.failed <==> Apply(s, a).threads[a.t] == Initialising
  {
    RunInv(Initial(n), actions);
  }
}

/** __call_once (libcxx/src/mutex.cpp): the flag is 0, 1 while the function runs, then ~0. */
module CallOnce {
  import opened Once

  const ULONG_MAX: nat := 0xFFFF_FFFF_FFFF_FFFF

  function PhaseOf(flag: nat): Phase {
    if flag == 0 then Fresh else if flag == 1 then Running else Done
  }

  datatype Answer = RunIt | Return | Wait

  class Flag {
    var flag: nat
    ghost var sys: State

    ghost predicate Valid()
      reads this
    {
      Inv(sys) && sys.phase == PhaseOf(flag) && flag <= ULONG_MAX
    }

    constructor (ghost n: nat)
      ensures Valid() && sys == Initial(n)
    {
      flag := 0;
      sys := Initial(n);
    }

    ghost method Take(a: Action)
      requires Inv(sys) && Enabled(sys, a)
      modifies this`sys
      ensures sys == Apply(old(sys), a) && Inv(sys)
    {
      StepInv(sys, a);
      sys := Apply(sys, a);
    }

    /** One pass of the waiting loop: the test of a new call, or (woken) the test after a wake. */
    method Look(ghost t: nat, ghost woken: bool) returns (r: Answer)
      requires Valid() && Enabled(sys, if woken then Wake(t) else Call(t))
      modifies this
      ensures Valid() && sys == Apply(old(sys), if woken then Wake(t) else Call(t))
      ensures sys.threads[t] == match r case RunIt => Initialising case Return => Returned case Wait => Blocked(false)
    {
      if flag == 1 {
        r := Wait;
      } else if flag == 0 {
        flag := 1;
        r := RunIt;
      } else {
        r := Return;
      }
      Take(if woken then Wake(t) else Call(t));
    }

    /** threw: whether the function ended in an exception. */
    method Finish(ghost t: nat, threw: bool)
      requires Valid() && Enabled(sys, Action.Finish(t, !threw))
      modifies this
      ensures Valid() && sys == Apply(old(sys), Action.Finish(t, !threw))
    {
      flag := if threw then 0 else ULONG_MAX;
      Take(Action.Finish(t, !threw));
    }
  }
}

/** The guard variables of cxa_guard.cpp, as bytes in memory order. */
module CxaGuard {
  import opened Once

  type Byte = b: nat | b < 256

  /** Plain: 64 bits, first byte set when initialised, second byte set while locked.
      Arm: 32 bits, "initialised" is the lowest bit of the word, the lock is the second byte.
      Apple: 64 bits, the upper half in memory is the identity of the locking thread. */
  datatype Layout = Plain | Arm(bigEndian: bool) | Apple(bigEndian: bool)

  function Size(l: Layout): nat { if l.Arm? then 4 else 8 }

  function Zero(l: Layout): seq<Byte> { seq(Size(l), _ => 0) }

  type ThreadId = id: nat | 0 < id < 0x1_0000_0000 witness 1

  function Encode(id: ThreadId, bigEndian: bool): (r: seq<Byte>)
    ensures |r| == 4
  {
    var b0, b1, b2, b3 := id % 256, id / 256 % 256, id / 65536 % 256, id / 16777216;
    if bigEndian then [b3, b2, b1, b0] else [b0, b1, b2, b3]
  }

  function Decode(b: seq<Byte>, bigEndian: bool): nat
    requires |b| == 4
  {
    var at := (k: int) requires 0 <= k < 4 => if bigEndian then b[3 - k] as int else b[k] as int;
    at(0) + 256 * at(1) + 65536 * at(2) + 16777216 * at(3)
  }

  lemma DecodeEncode(id: ThreadId, bigEndian: bool)
    ensures Decode(Encode(id, bigEndian), bigEndian) == id
  {
    var h1, h2 := id / 256, id / 65536;
    assert h2 == h1 / 256 && id / 16777216 == h2 / 256;
    assert id == 256 * h1 + id % 256 && h1 == 256 * h2 + h1 % 256 && h2 == 256 * (h2 / 256) + h2 % 256;
  }

  /** set_lock: the rest of the word is cleared. */
  function Locked(l: Layout, id: ThreadId): (w: seq<Byte>)
    ensures |w| == Size(l)
  {
    if l.Apple? then Zero(l)[..4] + Encode(id, l.bigEndian) else Zero(l)[1 := 1]
  }

  /** get_lock; 0 means unlocked. */
  function LockOf(l: Layout, w: seq<Byte>): nat
    requires |w| == Size(l)
  {
    if l.Apple? then Decode(w[4..], l.bigEndian) else if w[1] != 0 then 1 else 0
  }

  /** The byte that set_initialized changes. */
  function InitializedByte(l: Layout): nat {
    if l == Arm(true) then 3 else 0
  }

  /** set_initialized on a cleared word. */
  function Released(l: Layout): (w: seq<Byte>)
    ensures |w| == Size(l)
  {
    Zero(l)[InitializedByte(l) := 1]
  }

  /** __cxa_guard_acquire looks at the first byte, then at the lock. */
  function PhaseOf(l: Layout, w: seq<Byte>): Phase
    requires |w| == Size(l)
  {
    if w[0] != 0 then Done else if LockOf(l, w) != 0 then Running else Fresh
  }

  lemma PhasesOfWords(l: Layout, id: ThreadId)
    ensures PhaseOf(l, Zero(l)) == Fresh && LockOf(l, Zero(l)) == 0
    ensures PhaseOf(l, Locked(l, id)) == Running
    ensures l.Apple? ==> LockOf(l, Locked(l, id)) == id
  {
    if l.Apple? {
      DecodeEncode(id, l.bigEndian);
      assert Locked(l, id)[4..] == Encode(id, l.bigEndian);
    }
  }

  /** A released guard is seen as initialised exactly if the platform is not a big-endian Arm:
      there set_initialized sets the lowest bit of the word, which is not in the byte that
      __cxa_guard_acquire tests, and the next call initialises again. */
  lemma ReleaseIsSeen(l: Layout)
    ensures PhaseOf(l, Released(l)) == Done <==> l != Arm(true)
    ensures PhaseOf(Arm(true), Released(Arm(true))) == Fresh
  {
    assert Released(Arm(true)) == [0, 0, 0, 1];
  }

  datatype Answer = RunIt | Return | Wait | Deadlock

  /** One guard variable with the threads that use it; ids are their Mach thread identities, which
      only the Apple layout looks at. */
  class Guard {
    const layout: Layout
    const ids: seq<ThreadId>
    const bytes: array<Byte>
    ghost var sys: State

    ghost predicate Valid()
      reads this, bytes
    {
      && bytes.Length == Size(layout)
      && |ids| == |sys.threads|
      && (forall t, u :: 0 <= t < u < |ids| ==> ids[t] != ids[u])
      && Inv(sys) && sys.phase == PhaseOf(layout, bytes[..])
      && (bytes[0] != 0 ==> LockOf(layout, bytes[..]) == 0)
      && (layout.Apple? && sys.phase == Running ==>
            forall t :: 0 <= t < |ids| && sys.threads[t] == Initialising ==> LockOf(layout, bytes[..]) == ids[t])
    }

    constructor (layout: Layout, ids: seq<ThreadId>)
      requires forall t, u :: 0 <= t < u < |ids| ==> ids[t] != ids[u]
      ensures Valid() && fresh(bytes) && sys == Initial(|ids|) && this.layout == layout && this.ids == ids
    {
      this.layout, this.ids := layout, ids;
      bytes := new Byte[Size(layout)](_ => 0);
      sys := Initial(|ids|);
      new;
      assert bytes[..] == Zero(layout);
      PhasesOfWords(layout, 1);
    }

    ghost method Take(a: Action)
      requires Inv(sys) && Enabled(sys, a)
      modifies this`sys
      ensures sys == Apply(old(sys), a) && Inv(sys)
    {
      StepInv(sys, a);
      sys := Apply(sys, a);
    }

    method Clear()
      requires bytes.Length == Size(layout)
      modifies bytes
      ensures bytes[..] == Zero(layout)
    {
      forall i | 0 <= i < bytes.Length {
        bytes[i] := 0;
      }
    }

    method SetLock(id: ThreadId)
      requires bytes.Length == Size(layout)
      modifies bytes
      ensures bytes[..] == Locked(layout, id)
    {
      Clear();
      if layout.Apple? {
        var e := Encode(id, layout.bigEndian);
        forall i | 0 <= i < 4 {
          bytes[4 + i] := e[i];
        }
      } else {
        bytes[1] := 1;
      }
    }

    /** The first look of __cxa_guard_acquire, up to its first wait. */
    method Acquire(t: nat) returns (r: Answer)
      requires Valid() && Enabled(sys, Call(t))
      modifies this, bytes
      ensures Valid() && sys == Apply(old(sys), Call(t))
      ensures sys.threads[t] == match r
        case RunIt => Initialising case Return => Returned case _ => Blocked(false)
      ensures r != Deadlock
    {
      PhasesOfWords(layout, ids[t]);
      var lock := LockOf(layout, bytes[..]);
      if bytes[0] != 0 {
        r := Return;
      } else if lock == 0 {
        SetLock(ids[t]);
        r := RunIt;
      } else {
        r := if layout.Apple? && lock == ids[t] then Deadlock else Wait;
      }
      Take(Call(t));
    }

    /** __cxa_guard_acquire by the thread that is initialising: Apple's layout lets it see that. */
    method AcquireAgain(t: nat) returns (r: Answer)
      requires Valid() && t < |ids| && sys.threads[t] == Initialising
      ensures r == if layout.Apple? then Deadlock else Wait
    {
      var lock := LockOf(layout, bytes[..]);
      r := if layout.Apple? && lock == ids[t] then Deadlock else Wait;
    }

    /** The look after each wake: the lock first, then whether the guard is initialised. */
    method AcquireAfterWake(t: nat) returns (r: Answer)
      requires Valid() && Enabled(sys, Wake(t))
      modifies this, bytes
      ensures Valid() && sys == Apply(old(sys), Wake(t))
      ensures sys.threads[t] == match r
        case RunIt => Initialising case Return => Returned case _ => Blocked(false)
    {
      PhasesOfWords(layout, ids[t]);
      var lock := LockOf(layout, bytes[..]);
      if lock != 0 {
        r := Wait;
      } else if bytes[0] == 0 {
        SetLock(ids[t]);
        r := RunIt;
      } else {
        r := Return;
      }
      Take(Wake(t));
    }

    /** A success of the machine; on big-endian Arm the guard is left as after a failure. */
    method Release(ghost t: nat)
      requires Valid() && Enabled(sys, Finish(t, true))
      modifies this, bytes
      ensures Valid() && sys == Apply(old(sys), Finish(t, layout != Arm(true)))
    {
      PhasesOfWords(layout, 1);
      Clear();
      bytes[InitializedByte(layout)] := 1;
      assert bytes[..] == Released(layout);
      ReleaseIsSeen(layout);
      LockOfReleased(layout);
      Take(Finish(t, layout != Arm(true)));
    }

    method Abort(ghost t: nat)
      requires Valid() && Enabled(sys, Finish(t, false))
      modifies this, bytes
      ensures Valid() && sys == Apply(old(sys), Finish(t, false))
    {
      PhasesOfWords(layout, 1);
      Clear();
      Take(Finish(t, false));
    }
  }

  /** One thread that acquires, releases and acquires again is told to initialise twice exactly on
      big-endian Arm. */
  method AcquireTwice(layout: Layout, id: ThreadId) returns (first: Answer, second: Answer)
    ensures first == RunIt
    ensures second == if layout == Arm(true) then RunIt else Return
  {
    var guard := new Guard(layout, [id]);
    first := guard.Acquire(0);
    guard.Release(0);
    guard.Take(Broadcast(0));
    second := guard.Acquire(0);
  }

  lemma LockOfReleased(l: Layout)
    ensures LockOf(l, Released(l)) == 0
  {
    if l.Apple? {
      assert Released(l)[4..] == [0, 0, 0, 0];
    }
  }
}
