/** The recursive timed mutex of libcxx/src/mutex.cpp.

    Every action is what one thread does while it holds the internal mutex; only the notification
    in unlock() happens after the internal mutex has been given up, as an action of its own.
  */
module RecursiveTimedMutex {
  /** The largest value of size_t. */
  const LIMIT: nat := 0xFFFF_FFFF_FFFF_FFFF

  datatype Pc = Idle | Waiting(signalled: bool) | Notifying

  /** depth: how often the thread has locked the mutex without unlocking it. */
  datatype Thread = Thread(depth: nat, pc: Pc)

  /** id: 0 for nobody, otherwise the identity of thread id - 1. */
  datatype State = State(count: nat, id: nat, threads: seq<Thread>)

  datatype Action =
    | Lock(t: nat)
    | Wake(t: nat)
    | TryLock(t: nat)
    | TryLockBusy(t: nat)
    | Unlock(t: nat)
    | NotifyOne(t: nat, who: Notified)

  /** Whom notify_one reaches: some unsignalled waiter, or nobody if there is none. */
  datatype Notified = Nobody | Chosen(u: nat)

  function Initial(n: nat): State {
    State(0, 0, seq(n, _ => Thread(0, Idle)))
  }

  function Self(t: nat): nat { t + 1 }

  predicate MayNotify(threads: seq<Thread>, who: Notified) {
    match who
    case Nobody => forall u :: 0 <= u < |threads| ==> threads[u].pc != Waiting(false)
    case Chosen(u) => u < |threads| && threads[u].pc == Waiting(false)
  }

  /** A thread unlocks only what it has locked. */
  predicate Enabled(s: State, a: Action) {
    && a.t < |s.threads|
    && var th := s.threads[a.t];
      match a
      case Lock(_) => th.pc == Idle
      case Wake(_) => th.pc.Waiting?
      case TryLock(_) => th.pc == Idle
      case TryLockBusy(_) => th.pc == Idle
      case Unlock(_) => th.pc == Idle && th.depth > 0
      case NotifyOne(_, who) => th.pc == Notifying && MayNotify(s.threads, who)
  }

  function Set(s: State, t: nat, th: Thread): State
    requires t < |s.threads|
  {
    s.(threads := s.threads[t := th])
  }

  /** The waiting loop of lock(), from its test on. */
  function Acquire(s: State, t: nat): State
    requires t < |s.threads|
  {
    if s.count != 0 then Set(s, t, Thread(s.threads[t].depth, Waiting(false)))
    else State(1, Self(t), s.threads[t := Thread(s.threads[t].depth + 1, Idle)])
  }

  function Apply(s: State, a: Action): State
    requires Enabled(s, a)
  {
    var th := s.threads[a.t];
    match a
    case Lock(t) =>
      if s.id == Self(t) then
        if s.count == LIMIT then s else Set(s.(count := s.count + 1), t, th.(depth := th.depth + 1))
      else Acquire(s, t)
    case Wake(t) => Acquire(s, t)
    case TryLock(t) =>
      if (s.count == 0 || s.id == Self(t)) && s.count != LIMIT then
        State(s.count + 1, Self(t), s.threads[t := th.(depth := th.depth + 1)])
      else s
    case TryLockBusy(t) => s
    case Unlock(t) =>
      var left := if s.count == 0 then LIMIT else s.count - 1;
      State(left, if left == 0 then 0 else s.id,
            s.threads[t := Thread(th.depth - 1, if left == 0 then Notifying else Idle)])
    case NotifyOne(t, who) =>
      var s' := Set(s, t, th.(pc := Idle));
      if who.Chosen? && who.u < |s.threads| then Set(s', who.u, s'.threads[who.u].(pc := Waiting(true))) else s'
  }

  ghost predicate Allowed(s: State, actions: seq<Action>)
    decreases |actions|
  {
    actions == [] || (Enabled(s, actions[0]) && Allowed(Apply(s, actions[0]), actions[1..]))
  }

  ghost function After(s: State, actions: seq<Action>): State
    requires Allowed(s, actions)
    decreases |actions|
  {
    if actions == [] then s else After(Apply(s, actions[0]), actions[1..])
  }

  // ----- the invariant -----

  /** The count is the owner's depth, and there is an owner exactly when it is not 0. */
  ghost predicate CountIsDepth(s: State) {
    && s.count <= LIMIT
    && (s.id == 0 <==> s.count == 0)
    && s.id <= |s.threads|
    && forall t :: 0 <= t < |s.threads| ==>
        && s.threads[t].depth == (if s.id == Self(t) then s.count else 0)
        && (s.threads[t].pc != Idle ==> s.id != Self(t))
  }

  ghost predicate Asleep(s: State) {
    exists t :: 0 <= t < |s.threads| && s.threads[t].pc == Waiting(false)
  }

  /** Somebody is about to notify, or has been notified and will look at the count. */
  ghost predicate WakeUnderWay(s: State) {
    exists t :: 0 <= t < |s.threads| && (s.threads[t].pc == Notifying || s.threads[t].pc == Waiting(true))
  }

  ghost predicate Inv(s: State) {
    CountIsDepth(s) && (s.count == 0 && Asleep(s) ==> WakeUnderWay(s))
  }

  lemma StepCount(s: State, a: Action)
    requires CountIsDepth(s) && Enabled(s, a)
    ensures CountIsDepth(Apply(s, a))
  {
  }

  lemma StepWakes(s: State, a: Action)
    requires Inv(s) && Enabled(s, a)
    ensures Apply(s, a).count == 0 && Asleep(Apply(s, a)) ==> WakeUnderWay(Apply(s, a))
  {
    var s' := Apply(s, a);
    if s'.count == 0 && Asleep(s') {
      if s'.threads[a.t].pc == Notifying {
        assert WakeUnderWay(s');
      } else if a.NotifyOne? && a.who.Chosen? {
        assert s'.threads[a.who.u].pc == Waiting(true);
      } else if !a.NotifyOne? {
        var u :| 0 <= u < |s'.threads| && s'.threads[u].pc == Waiting(false);
        assert s.threads[u].pc == s'.threads[u].pc;
        var w :| 0 <= w < |s.threads| && (s.threads[w].pc == Notifying || s.threads[w].pc == Waiting(true));
        assert s'.threads[w].pc == s.threads[w].pc;
      }
    }
  }

  /** Every run of every number of threads keeps the invariant. */
  lemma {:induction false} RunInv(s: State, actions: seq<Action>)
    requires Inv(s) && Allowed(s, actions)
    ensures Inv(After(s, actions)) && |After(s, actions).threads| == |s.threads|
    decreases |actions|
  {
    if actions == [] {
    } else {
      StepCount(s, actions[0]);
      StepWakes(s, actions[0]);
      RunInv(Apply(s, actions[0]), actions[1..]);
    }
  }

  // ----- what the mutex promises -----

  /** In every run: at most one thread has the mutex, the count is how often it locked it, and the
      id names it exactly while the count is not 0. */
  lemma OneOwner(n: nat, actions: seq<Action>, t: nat, u: nat)
    requires t < n && u < n && Allowed(Initial(n), actions)
    ensures var s := After(Initial(n), actions);
      && |s.threads| == n
      && (s.threads[t].depth > 0 ==> s.count == s.threads[t].depth <= LIMIT && s.id == Self(t))
      && (s.threads[t].depth > 0 && s.threads[u].depth > 0 ==> t == u)
      && (s.id == 0 <==> s.count == 0)
      && (s.id != 0 ==> s.id <= n && s.threads[s.id - 1].depth == s.count)
  {
    RunInv(Initial(n), actions);
  }

  /** In every run: whatever the next step is, it changes no other thread's depth, and it takes a
      thread past lock() or try_lock() only if no other thread has the mutex. */
  lemma OnlyTheOwnerAdvances(n: nat, actions: seq<Action>, a: Action)
    requires Allowed(Initial(n), actions) && Enabled(After(Initial(n), actions), a)
    ensures var s := After(Initial(n), actions);
      var s' := Apply(s, a);
      && |s'.threads| == |s.threads|
      && forall u :: 0 <= u < |s.threads| && u != a.t ==>
          && s'.threads[u].depth == s.threads[u].depth
          && (s'.threads[a.t].depth > s.threads[a.t].depth ==> s.threads[u].depth == 0)
  {
    RunInv(Initial(n), actions);
  }

  /** Nobody has the mutex. */
  ghost predicate Free(ts: seq<Thread>) {
    forall u :: 0 <= u < |ts| ==> ts[u].depth == 0
  }

  /** The thread gets the mutex, or goes one level deeper: if it is free, or its own and not at its
      limit. */
  ghost predicate GetsThrough(ts: seq<Thread>, t: nat)
    requires t < |ts|
  {
    Free(ts) || 0 < ts[t].depth < LIMIT
  }

  /** What becomes of the acting thread, from what all threads are before. */
  ghost function Next(ts: seq<Thread>, a: Action): Thread
    requires a.t < |ts|
  {
    var deeper := Thread(ts[a.t].depth + 1, Idle);
    match a
    case Lock(t) =>
      if GetsThrough(ts, t) then deeper else if ts[t].depth == 0 then Thread(0, Waiting(false)) else ts[t]
    case Wake(t) => if Free(ts) then deeper else Thread(ts[t].depth, Waiting(false))
    case TryLock(t) => if GetsThrough(ts, t) then deeper else ts[t]
    case TryLockBusy(t) => ts[t]
    case Unlock(t) =>
      Thread(if ts[t].depth > 0 then ts[t].depth - 1 else 0, if ts[t].depth == 1 then Notifying else Idle)
    case NotifyOne(t, _) => Thread(ts[t].depth, Idle)
  }

  /** In every state of every run: which calls get through, said of the threads alone; and all other
      threads stay as they are, but for the one that is notified. */
  lemma StepOutcome(s: State, a: Action)
    requires Inv(s) && Enabled(s, a)
    ensures var s' := Apply(s, a);
      && |s'.threads| == |s.threads| && s'.threads[a.t] == Next(s.threads, a)
      && forall u :: 0 <= u < |s.threads| && u != a.t ==>
           && s'.threads[u].depth == s.threads[u].depth
           && s'.threads[u].pc == if a.NotifyOne? && a.who == Chosen(u) then Waiting(true) else s.threads[u].pc
  {
    if s.count != 0 {
      assert s.threads[s.id - 1].depth == s.count;
    }
  }

  /** In every run: a thread sleeps unsignalled only while somebody has the mutex, or is about to
      notify after giving it up, or has been woken and is about to look. */
  lemma NobodySleepsThrough(n: nat, actions: seq<Action>, t: nat)
    requires t < n && Allowed(Initial(n), actions)
    ensures var s := After(Initial(n), actions);
      && |s.threads| == n
      && (s.threads[t].pc == Waiting(false) ==>
            exists u :: 0 <= u < n && u != t &&
              (s.threads[u].depth > 0 || s.threads[u].pc == Notifying || s.threads[u].pc == Waiting(true)))
  {
    RunInv(Initial(n), actions);
    var s := After(Initial(n), actions);
    if s.threads[t].pc == Waiting(false) {
      if s.count == 0 {
        assert Asleep(s);
        var u :| 0 <= u < n && (s.threads[u].pc == Notifying || s.threads[u].pc == Waiting(true));
      } else {
        assert s.threads[s.id - 1].depth > 0;
      }
    }
  }

  /** Locking k times and unlocking k times with nothing in between gives back the same state but
      for the notification that is then due. */
  lemma NestedLocksUnwind(s: State, t: nat, k: nat)
    requires Inv(s) && t < |s.threads| && s.threads[t] == Thread(0, Idle) && s.count == 0 && 0 < k <= LIMIT
    ensures Allowed(s, Repeat(Lock(t), k) + Repeat(Unlock(t), k))
    ensures After(s, Repeat(Lock(t), k) + Repeat(Unlock(t), k)) == Set(s, t, Thread(0, Notifying))
  {
    Deepen(s, t, k);
    var deep := State(k, Self(t), s.threads[t := Thread(k, Idle)]);
    Unwind(deep, t, k);
    RunsConcatenate(s, Repeat(Lock(t), k), Repeat(Unlock(t), k));
    assert deep.threads[t := Thread(0, Notifying)] == s.threads[t := Thread(0, Notifying)];
  }

  lemma {:induction false} RunsConcatenate(s: State, first: seq<Action>, second: seq<Action>)
    requires Allowed(s, first) && Allowed(After(s, first), second)
    ensures Allowed(s, first + second) && After(s, first + second) == After(After(s, first), second)
    decreases |first|
  {
    if first == [] {
      assert first + second == second;
    } else {
      assert (first + second)[1..] == first[1..] + second;
      RunsConcatenate(Apply(s, first[0]), first[1..], second);
    }
  }

  function Repeat(a: Action, k: nat): (r: seq<Action>)
    ensures |r| == k && forall i :: 0 <= i < k ==> r[i] == a
  {
    seq(k, _ => a)
  }

  lemma {:induction false} Deepen(s: State, t: nat, k: nat)
    requires t < |s.threads| && s.threads[t] == Thread(s.count, Idle) && s.count + k <= LIMIT
    requires s.id == if s.count == 0 then 0 else Self(t)
    requires k > 0
    ensures Allowed(s, Repeat(Lock(t), k))
    ensures After(s, Repeat(Lock(t), k)) == State(s.count + k, Self(t), s.threads[t := Thread(s.count + k, Idle)])
    decreases k
  {
    var run := Repeat(Lock(t), k);
    var s' := Apply(s, Lock(t));
    assert run[0] == Lock(t) && run[1..] == Repeat(Lock(t), k - 1);
    if k > 1 {
      Deepen(s', t, k - 1);
      assert s'.threads[t := Thread(s.count + k, Idle)] == s.threads[t := Thread(s.count + k, Idle)];
    } else {
      assert run[1..] == [];
    }
  }

  lemma {:induction false} Unwind(s: State, t: nat, k: nat)
    requires t < |s.threads| && s.threads[t] == Thread(k, Idle) && s.count == k > 0 && s.id == Self(t)
    ensures Allowed(s, Repeat(Unlock(t), k))
    ensures After(s, Repeat(Unlock(t), k)) == State(0, 0, s.threads[t := Thread(0, Notifying)])
    decreases k
  {
    var run := Repeat(Unlock(t), k);
    var s' := Apply(s, Unlock(t));
    assert run[0] == Unlock(t) && run[1..] == Repeat(Unlock(t), k - 1);
    if k > 1 {
      Unwind(s', t, k - 1);
      assert s'.threads[t := Thread(0, Notifying)] == s.threads[t := Thread(0, Notifying)];
    } else {
      assert run[1..] == [];
    }
  }

  // ----- the object -----

  datatype Outcome = Acquired | LimitReached | MustWait

  /** The mutex as the source stores it.  Each method is one critical section, run by thread t;
      lock() is Lock and, as long as it must wait, TryAgain after each wake. */
  class Mutex {
    var count: nat
    var id: nat
    ghost var sys: State

    ghost predicate Valid()
      reads this
    {
      Inv(sys) && sys.count == count && sys.id == id
    }

    constructor (ghost n: nat)
      ensures Valid() && sys == Initial(n)
    {
      count, id := 0, 0;
      sys := Initial(n);
    }

    ghost method Take(a: Action)
      requires Inv(sys) && Enabled(sys, a)
      modifies this`sys
      ensures sys == Apply(old(sys), a) && Inv(sys)
    {
      StepCount(sys, a);
      StepWakes(sys, a);
      sys := Apply(sys, a);
    }

    method Lock(t: nat) returns (r: Outcome)
      requires Valid() && Enabled(sys, Action.Lock(t))
      modifies this
      ensures Valid() && sys == Apply(old(sys), Action.Lock(t))
      ensures r == LimitReached <==> old(id) == Self(t) && old(count) == LIMIT
      ensures sys.threads[t] == match r
        case Acquired => Thread(old(sys).threads[t].depth + 1, Idle)
        case LimitReached => old(sys).threads[t]
        case MustWait => Thread(0, Waiting(false))
    {
      if id == Self(t) {
        if count == LIMIT {
          r := LimitReached;
        } else {
          count := count + 1;
          r := Acquired;
        }
      } else if count != 0 {
        r := MustWait;
      } else {
        count, id := 1, Self(t);
        r := Acquired;
      }
      Take(Action.Lock(t));
    }

    method TryAgain(t: nat) returns (r: Outcome)
      requires Valid() && Enabled(sys, Wake(t))
      modifies this
      ensures Valid() && sys == Apply(old(sys), Wake(t))
      ensures sys.threads[t] == if r == Acquired then Thread(1, Idle) else Thread(0, Waiting(false))
    {
      if count != 0 {
        r := MustWait;
      } else {
        count, id := 1, Self(t);
        r := Acquired;
      }
      Take(Wake(t));
    }

    /** owns: whether try_to_lock got the internal mutex. */
    method TryLock(t: nat, owns: bool) returns (locked: bool)
      requires Valid() && Enabled(sys, Action.TryLock(t))
      modifies this
      ensures Valid() && sys == Apply(old(sys), if owns then Action.TryLock(t) else TryLockBusy(t))
      ensures sys.threads[t].depth == old(sys).threads[t].depth + if locked then 1 else 0
      ensures locked <==> owns && GetsThrough(old(sys).threads, t)
    {
      StepOutcome(sys, Action.TryLock(t));
      locked := owns && (count == 0 || id == Self(t)) && count != LIMIT;
      if locked {
        count, id := count + 1, Self(t);
      }
      Take(if owns then Action.TryLock(t) else TryLockBusy(t));
    }

    /** Returns whether the thread is now to notify one waiter. */
    method Unlock(t: nat) returns (notifies: bool)
      requires Valid() && Enabled(sys, Action.Unlock(t))
      modifies this
      ensures Valid() && sys == Apply(old(sys), Action.Unlock(t))
      ensures notifies <==> sys.threads[t].pc == Notifying
    {
      count := count - 1;
      notifies := count == 0;
      if notifies {
        id := 0;
      }
      Take(Action.Unlock(t));
    }
  }
}
