/** The reference counts of shared and weak pointers (libcxx/src/memory.cpp), as atomic steps of
    any number of threads.  Both counts start at 0 for one owner; all shared owners together
    hold one weak reference.
  */
module SharedCount {
  import opened Sums

  /** Where a thread stands inside an operation.
      OnZero: it took the shared count to -1 and is to run __on_zero_shared.
      DropCollective: it is to give back the weak reference of the shared owners.
      OnZeroWeak: it took the weak count to -1 and is to run __on_zero_shared_weak.
      Loaded(v): it is inside lock() and has read v from the shared count. */
  datatype Pc = Idle | OnZero | DropCollective | OnZeroWeak | Loaded(v: int)

  datatype Thread = Thread(shared: nat, weak: nat, pc: Pc)

  datatype State = State(owners: int, weakOwners: int, threads: seq<Thread>, zeroShared: nat, zeroWeak: nat)

  datatype Action =
    | AddShared(t: nat)
    | AddWeak(t: nat)
    | ReleaseShared(t: nat)
    | RunOnZeroShared(t: nat)
    | ReleaseCollective(t: nat)
    | ReleaseWeak(t: nat)
    | RunOnZeroWeak(t: nat)
    | LockLoad(t: nat)
    | LockFail(t: nat)
    | LockExchange(t: nat)
    | LockReload(t: nat)
    | GiveShared(t: nat, u: nat)
    | GiveWeak(t: nat, u: nat)

  /** A new control block: one owner, held by thread `first`. */
  function Initial(n: nat, first: nat): State
    requires first < n
  {
    State(0, 0, seq(n, i => Thread(if i == first then 1 else 0, 0, Idle)), 0, 0)
  }

  /** Threads add to a count only while they hold a reference, release only what they hold, and
      keep their weak reference during lock(). */
  predicate Enabled(s: State, a: Action) {
    && a.t < |s.threads|
    && var th := s.threads[a.t];
      match a
      case AddShared(_) => th.pc == Idle && th.shared > 0
      case AddWeak(_) => th.pc == Idle && (th.shared > 0 || th.weak > 0)
      case ReleaseShared(_) => th.pc == Idle && th.shared > 0
      case RunOnZeroShared(_) => th.pc == OnZero
      case ReleaseCollective(_) => th.pc == DropCollective
      case ReleaseWeak(_) => th.pc == Idle && th.weak > 0
      case RunOnZeroWeak(_) => th.pc == OnZeroWeak
      case LockLoad(_) => th.pc == Idle && th.weak > 0
      case LockFail(_) => th.pc == Loaded(-1)
      case LockExchange(_) => th.pc.Loaded? && th.pc.v != -1 && s.owners == th.pc.v
      case LockReload(_) => th.pc.Loaded? && th.pc.v != -1 && s.owners != th.pc.v
      case GiveShared(_, u) => u < |s.threads| && u != a.t && th.pc == Idle && th.shared > 0
      case GiveWeak(_, u) => u < |s.threads| && u != a.t && th.pc == Idle && th.weak > 0
  }

  function Update(s: State, t: nat, th: Thread): State
    requires t < |s.threads|
  {
    s.(threads := s.threads[t := th])
  }

  function Apply(s: State, a: Action): State
    requires Enabled(s, a)
  {
    var th := s.threads[a.t];
    match a
    case AddShared(t) => Update(s.(owners := s.owners + 1), t, th.(shared := th.shared + 1))
    case AddWeak(t) => Update(s.(weakOwners := s.weakOwners + 1), t, th.(weak := th.weak + 1))
    case ReleaseShared(t) =>
      var left := s.owners - 1;
      Update(s.(owners := left), t, th.(shared := th.shared - 1, pc := if left == -1 then OnZero else Idle))
    case RunOnZeroShared(t) => Update(s.(zeroShared := s.zeroShared + 1), t, th.(pc := DropCollective))
    case ReleaseCollective(t) =>
      var left := s.weakOwners - 1;
      Update(s.(weakOwners := left), t, th.(pc := if left == -1 then OnZeroWeak else Idle))
    case ReleaseWeak(t) =>
      var left := s.weakOwners - 1;
      Update(s.(weakOwners := left), t, th.(weak := th.weak - 1, pc := if left == -1 then OnZeroWeak else Idle))
    case RunOnZeroWeak(t) => Update(s.(zeroWeak := s.zeroWeak + 1), t, th.(pc := Idle))
    case LockLoad(t) => Update(s, t, th.(pc := Loaded(s.owners)))
    case LockFail(t) => Update(s, t, th.(pc := Idle))
    case LockExchange(t) => Update(s.(owners := th.pc.v + 1), t, th.(shared := th.shared + 1, pc := Idle))
    case LockReload(t) => Update(s, t, th.(pc := Loaded(s.owners)))
    case GiveShared(t, u) =>
      var s' := Update(s, t, th.(shared := th.shared - 1));
      Update(s', u, s'.threads[u].(shared := s'.threads[u].shared + 1))
    case GiveWeak(t, u) =>
      var s' := Update(s, t, th.(weak := th.weak - 1));
      Update(s', u, s'.threads[u].(weak := s'.threads[u].weak + 1))
  }

  ghost predicate Allowed(s: State, actions: seq<Action>)
    decreases |actions|
  {
    actions == [] || (Enabled(s, actions[0]) && Allowed(Apply(s, actions[0]), actions[1..]))
  }

  ghost function After(s: State, actions: seq<Action>): State
    requires Allowed(s, actions)
    decreases |actions|
  {
    if actions == [] then s else After(Apply(s, actions[0]), actions[1..])
  }

  // ----- the invariant -----

  function SharedOf(th: Thread): nat { th.shared }

  function WeakOf(th: Thread): nat { th.weak }

  function AtOnZero(th: Thread): nat { if th.pc == OnZero then 1 else 0 }

  function AtDropCollective(th: Thread): nat { if th.pc == DropCollective then 1 else 0 }

  function AtOnZeroWeak(th: Thread): nat { if th.pc == OnZeroWeak then 1 else 0 }

  function Bit(b: bool): nat { if b then 1 else 0 }

  /** The weak reference that the shared owners hold together is still to be given back. */
  function Collective(s: State): nat {
    Bit(s.owners >= 0) + Sum(s.threads, AtOnZero) + Sum(s.threads, AtDropCollective)
  }

  ghost predicate Inv(s: State) {
    Counted(s) && LoadsAreBacked(s)
  }

  /** A thread inside lock() holds a weak reference, and never read a count below -1. */
  ghost predicate LoadsAreBacked(s: State) {
    forall t :: 0 <= t < |s.threads| && s.threads[t].pc.Loaded? ==>
      s.threads[t].weak > 0 && s.threads[t].pc.v >= -1
  }

  ghost predicate Counted(s: State) {
    // the counts are the numbers of references, less one
    && s.owners + 1 == Sum(s.threads, SharedOf)
    && s.weakOwners + 1 == Sum(s.threads, WeakOf) + Collective(s)
    && Collective(s) <= 1
    // each callback is either still ahead, pending in one thread, or has run, and only one of these
    && s.zeroShared + Bit(s.owners >= 0) + Sum(s.threads, AtOnZero) == 1
    && s.zeroWeak + Bit(s.weakOwners >= 0) + Sum(s.threads, AtOnZeroWeak) == 1
  }

  lemma InitialInv(n: nat, first: nat)
    requires first < n
    ensures Inv(Initial(n, first))
  {
    var s := Initial(n, first);
    var none := s.threads[first := Thread(0, 0, Idle)];
    SumZero(none, SharedOf);
    SumUpdate(none, SharedOf, first, s.threads[first]);
    assert none[first := s.threads[first]] == s.threads;
    SumZero(s.threads, WeakOf);
    SumZero(s.threads, AtOnZero);
    SumZero(s.threads, AtDropCollective);
    SumZero(s.threads, AtOnZeroWeak);
  }

  /** All sums after one thread's step. */
  lemma SumsUpdate(ts: seq<Thread>, t: nat, th: Thread)
    requires t < |ts|
    ensures var ts' := ts[t := th];
      && Sum(ts', SharedOf) == Sum(ts, SharedOf) - ts[t].shared + th.shared
      && Sum(ts', WeakOf) == Sum(ts, WeakOf) - ts[t].weak + th.weak
      && Sum(ts', AtOnZero) == Sum(ts, AtOnZero) - AtOnZero(ts[t]) + AtOnZero(th)
      && Sum(ts', AtDropCollective) == Sum(ts, AtDropCollective) - AtDropCollective(ts[t]) + AtDropCollective(th)
      && Sum(ts', AtOnZeroWeak) == Sum(ts, AtOnZeroWeak) - AtOnZeroWeak(ts[t]) + AtOnZeroWeak(th)
    ensures ts[t].shared <= Sum(ts, SharedOf) && ts[t].weak <= Sum(ts, WeakOf)
    ensures AtOnZero(ts[t]) <= Sum(ts, AtOnZero)
    ensures AtDropCollective(ts[t]) <= Sum(ts, AtDropCollective)
    ensures AtOnZeroWeak(ts[t]) <= Sum(ts, AtOnZeroWeak)
  {
    SumUpdate(ts, SharedOf, t, th);
    SumUpdate(ts, WeakOf, t, th);
    SumUpdate(ts, AtOnZero, t, th);
    SumUpdate(ts, AtDropCollective, t, th);
    SumUpdate(ts, AtOnZeroWeak, t, th);
  }

  lemma StepLoads(s: State, a: Action)
    requires Inv(s) && Enabled(s, a)
    ensures LoadsAreBacked(Apply(s, a))
  {
  }

  lemma OneThreadStepCounts(s: State, a: Action)
    requires Counted(s) && Enabled(s, a) && !a.GiveShared? && !a.GiveWeak?
    ensures Counted(Apply(s, a))
  {
    var th := Apply(s, a).threads[a.t];
    SumsUpdate(s.threads, a.t, th);
    assert Apply(s, a).threads == s.threads[a.t := th];
    match a
    case AddShared(_) =>
    case AddWeak(_) =>
    case ReleaseShared(_) =>
    case RunOnZeroShared(_) =>
    case ReleaseCollective(_) =>
    case ReleaseWeak(_) =>
    case RunOnZeroWeak(_) =>
    case LockLoad(_) =>
    case LockFail(_) =>
    case LockExchange(_) =>
    case LockReload(_) =>
  }

  lemma GivingCounts(s: State, a: Action)
    requires Counted(s) && Enabled(s, a) && (a.GiveShared? || a.GiveWeak?)
    ensures Counted(Apply(s, a))
  {
    var s' := Apply(s, a);
    var ts := s.threads[a.t := s'.threads[a.t]];
    SumsUpdate(s.threads, a.t, s'.threads[a.t]);
    SumsUpdate(ts, a.u, s'.threads[a.u]);
    assert s'.threads == ts[a.u := s'.threads[a.u]];
  }

  lemma StepInv(s: State, a: Action)
    requires Inv(s) && Enabled(s, a)
    ensures Inv(Apply(s, a))
  {
    StepLoads(s, a);
    if a.GiveShared? || a.GiveWeak? {
      GivingCounts(s, a);
    } else {
      OneThreadStepCounts(s, a);
    }
  }

  /** Every run of every number of threads keeps the invariant. */
  lemma {:induction false} RunInv(s: State, actions: seq<Action>)
    requires Inv(s) && Allowed(s, actions)
    ensures Inv(After(s, actions))
    decreases |actions|
  {
    if actions == [] {
    } else {
      StepInv(s, actions[0]);
      RunInv(Apply(s, actions[0]), actions[1..]);
    }
  }

  // ----- what the counts promise -----

  ghost predicate Owned(s: State) {
    exists t :: 0 <= t < |s.threads| && s.threads[t].shared > 0
  }

  ghost predicate WeaklyOwned(s: State) {
    exists t :: 0 <= t < |s.threads| && s.threads[t].weak > 0
  }

  lemma NoReferenceNoSum(s: State)
    ensures !Owned(s) <==> Sum(s.threads, SharedOf) == 0
    ensures !WeaklyOwned(s) <==> Sum(s.threads, WeakOf) == 0
  {
    if Sum(s.threads, SharedOf) > 0 {
      SumPositive(s.threads, SharedOf);
    }
    if Sum(s.threads, WeakOf) > 0 {
      SumPositive(s.threads, WeakOf);
    }
    forall t | 0 <= t < |s.threads| && (s.threads[t].shared > 0 || s.threads[t].weak > 0)
      ensures s.threads[t].shared <= Sum(s.threads, SharedOf) && s.threads[t].weak <= Sum(s.threads, WeakOf)
    {
      SumsUpdate(s.threads, t, s.threads[t]);
    }
  }

  /** In every run: the object is destroyed at most once, and neither destroyed nor being
      destroyed while anyone owns it; the control block is freed at most once, after that, and
      only when nobody holds even a weak reference. */
  lemma CallbacksAreSafe(n: nat, first: nat, actions: seq<Action>)
    requires first < n && Allowed(Initial(n, first), actions)
    ensures var s := After(Initial(n, first), actions);
      && s.zeroShared <= 1 && s.zeroWeak <= 1
      && (s.zeroShared == 1 ==> !Owned(s))
      && (s.zeroWeak == 1 ==> s.zeroShared == 1 && !WeaklyOwned(s))
      && forall t :: 0 <= t < |s.threads| ==>
          && (s.threads[t].pc == OnZero ==> !Owned(s) && s.zeroShared == 0)
          && (s.threads[t].pc == OnZeroWeak ==> !Owned(s) && !WeaklyOwned(s) && s.zeroShared == 1 && s.zeroWeak == 0)
  {
    var s := After(Initial(n, first), actions);
    InitialInv(n, first);
    RunInv(Initial(n, first), actions);
    NoReferenceNoSum(s);
    forall t | 0 <= t < |s.threads|
      ensures AtOnZero(s.threads[t]) <= Sum(s.threads, AtOnZero)
      ensures AtOnZeroWeak(s.threads[t]) <= Sum(s.threads, AtOnZeroWeak)
    {
      SumsUpdate(s.threads, t, s.threads[t]);
    }
  }

  /** When the run has come to rest, a callback has run exactly if nothing refers to what it ends. */
  lemma CallbacksHaveRun(n: nat, first: nat, actions: seq<Action>)
    requires first < n && Allowed(Initial(n, first), actions)
    ensures var s := After(Initial(n, first), actions);
      (forall t :: 0 <= t < |s.threads| ==> s.threads[t].pc == Idle) ==>
        && (s.zeroShared == 1 <==> !Owned(s))
        && (s.zeroWeak == 1 <==> !Owned(s) && !WeaklyOwned(s))
  {
    var s := After(Initial(n, first), actions);
    InitialInv(n, first);
    RunInv(Initial(n, first), actions);
    NoReferenceNoSum(s);
    if forall t :: 0 <= t < |s.threads| ==> s.threads[t].pc == Idle {
      SumZero(s.threads, AtOnZero);
      SumZero(s.threads, AtDropCollective);
      SumZero(s.threads, AtOnZeroWeak);
    }
  }

  lemma StepKeepsDead(s: State, a: Action)
    requires Inv(s) && Enabled(s, a) && s.owners == -1
    ensures Apply(s, a).owners == -1
  {
    SumsUpdate(s.threads, a.t, s.threads[a.t]);
  }

  /** Once the last owner is gone no lock() and no addition ever brings the object back. */
  lemma {:induction false} DeadStaysDead(s: State, actions: seq<Action>)
    requires Inv(s) && s.owners == -1 && Allowed(s, actions)
    ensures After(s, actions).owners == -1 && !Owned(After(s, actions))
    decreases |actions|
  {
    if actions == [] {
      NoReferenceNoSum(s);
    } else {
      StepInv(s, actions[0]);
      StepKeepsDead(s, actions[0]);
      DeadStaysDead(Apply(s, actions[0]), actions[1..]);
    }
  }

  /** lock() hands out ownership only of an object that is owned and not destroyed, and returns
      null only after it saw the object without an owner, which is then so for good. */
  lemma LockIsSound(s: State, t: nat)
    requires Inv(s)
    ensures Enabled(s, LockExchange(t)) ==> Owned(s) && s.zeroShared == 0
    ensures Enabled(s, LockLoad(t)) && Apply(s, LockLoad(t)).threads[t].pc == Loaded(-1) ==> !Owned(s)
    ensures Enabled(s, LockReload(t)) && Apply(s, LockReload(t)).threads[t].pc == Loaded(-1) ==> !Owned(s)
  {
    NoReferenceNoSum(s);
  }

  /** The shared and weak references of all threads together. */
  ghost function References(s: State): (nat, nat) {
    (Sum(s.threads, SharedOf), Sum(s.threads, WeakOf))
  }

  /** What a step does to the acting thread's references: it takes one, gives one up, or neither. */
  ghost function Taken(a: Action): (int, int) {
    match a
    case AddShared(_) => (1, 0)
    case LockExchange(_) => (1, 0)
    case AddWeak(_) => (0, 1)
    case ReleaseShared(_) => (-1, 0)
    case GiveShared(_, _) => (-1, 0)
    case ReleaseWeak(_) => (0, -1)
    case GiveWeak(_, _) => (0, -1)
    case _ => (0, 0)
  }

  /** Where the acting thread stands afterwards, from the references there are before: the one that gives
      up the last shared reference is to run the callback of the object, and then to give up the
      reference that the owners held together; the one that gives up the last reference of all is to
      run the callback of the block. */
  ghost function Next(s: State, a: Action): Pc {
    match a
    case ReleaseShared(_) => if References(s).0 == 1 then OnZero else Idle
    case RunOnZeroShared(_) => DropCollective
    case ReleaseCollective(_) => if References(s).1 == 0 then OnZeroWeak else Idle
    case ReleaseWeak(_) => if References(s).1 == 1 && Collective(s) == 0 then OnZeroWeak else Idle
    case LockLoad(_) => Loaded(References(s).0 - 1)
    case LockReload(_) => Loaded(References(s).0 - 1)
    case _ => Idle
  }

  /** What a step does to the references and what it counts; a reference that is given away arrives, and
      the other threads stay as they are. */
  lemma StepTakes(s: State, a: Action)
    requires Enabled(s, a)
    ensures var s' := Apply(s, a);
      && |s'.threads| == |s.threads|
      && s'.threads[a.t].shared == s.threads[a.t].shared + Taken(a).0
      && s'.threads[a.t].weak == s.threads[a.t].weak + Taken(a).1
      && s'.zeroShared == s.zeroShared + (if a.RunOnZeroShared? then 1 else 0)
      && s'.zeroWeak == s.zeroWeak + (if a.RunOnZeroWeak? then 1 else 0)
      && forall u :: 0 <= u < |s.threads| && u != a.t ==>
           && s'.threads[u].pc == s.threads[u].pc
           && s'.threads[u].shared == s.threads[u].shared + (if a.GiveShared? && a.u == u then 1 else 0)
           && s'.threads[u].weak == s.threads[u].weak + (if a.GiveWeak? && a.u == u then 1 else 0)
  {
  }

  /** In every state of every run: where it leads the acting thread. */
  lemma StepLeadsOn(s: State, a: Action)
    requires Inv(s) && Enabled(s, a)
    ensures Apply(s, a).threads[a.t].pc == Next(s, a)
  {
    hide LoadsAreBacked, Sum;
    SumsUpdate(s.threads, a.t, s.threads[a.t]);
  }

  /** lock() with nobody in between: it takes a reference exactly if the object is owned, and otherwise
      returns null. */
  lemma LockAlone(s: State, t: nat)
    requires Inv(s) && Enabled(s, LockLoad(t))
    ensures var loaded := Apply(s, LockLoad(t));
      if Owned(s)
      then Enabled(loaded, LockExchange(t)) && Apply(loaded, LockExchange(t)).threads
             == s.threads[t := s.threads[t].(shared := s.threads[t].shared + 1)]
      else Enabled(loaded, LockFail(t)) && Apply(loaded, LockFail(t)) == s
  {
    NoReferenceNoSum(s);
    assert s.threads[t := s.threads[t]] == s.threads;
  }

  // ----- the two words -----

  /** The counts as the source stores them.  Each method below is one atomic instruction with the
      branch that follows it, executed by thread t; `Release` is the source's whole operation
      when no other thread runs in between. */
  class ControlBlock {
    var sharedOwners: int
    var sharedWeakOwners: int
    ghost var sys: State

    ghost predicate Valid()
      reads this
    {
      Inv(sys) && sys.owners == sharedOwners && sys.weakOwners == sharedWeakOwners
    }

    constructor (ghost n: nat, ghost first: nat)
      requires first < n
      ensures Valid() && sys == Initial(n, first)
    {
      sharedOwners, sharedWeakOwners := 0, 0;
      sys := Initial(n, first);
      InitialInv(n, first);
    }

    ghost method Take(a: Action)
      requires Inv(sys) && Enabled(sys, a)
      modifies this`sys
      ensures sys == Apply(old(sys), a) && Inv(sys)
    {
      StepInv(sys, a);
      sys := Apply(sys, a);
    }

    method Add(ghost t: nat)
      requires Valid() && Enabled(sys, AddShared(t))
      modifies this
      ensures Valid() && sys == Apply(old(sys), AddShared(t))
    {
      sharedOwners := sharedOwners + 1;
      Take(AddShared(t));
    }

    method AddToWeak(ghost t: nat)
      requires Valid() && Enabled(sys, AddWeak(t))
      modifies this
      ensures Valid() && sys == Apply(old(sys), AddWeak(t))
    {
      sharedWeakOwners := sharedWeakOwners + 1;
      Take(AddWeak(t));
    }

    method DecrementShared(ghost t: nat) returns (last: bool)
      requires Valid() && Enabled(sys, ReleaseShared(t))
      modifies this
      ensures Valid() && sys == Apply(old(sys), ReleaseShared(t))
      ensures last <==> sys.threads[t].pc == OnZero
    {
      sharedOwners := sharedOwners - 1;
      last := sharedOwners == -1;
      Take(ReleaseShared(t));
    }

    method DecrementWeak(ghost t: nat, ghost a: Action) returns (last: bool)
      requires Valid() && Enabled(sys, a) && (a == ReleaseCollective(t) || a == ReleaseWeak(t))
      modifies this
      ensures Valid() && sys == Apply(old(sys), a)
      ensures last <==> sys.threads[t].pc == OnZeroWeak
    {
      sharedWeakOwners := sharedWeakOwners - 1;
      last := sharedWeakOwners == -1;
      Take(a);
    }

    /** __release_weak, for a weak reference of the thread's own or the collective one. */
    method ReleaseWeakReference(ghost t: nat, ghost a: Action)
      requires Valid() && Enabled(sys, a) && (a == ReleaseCollective(t) || a == ReleaseWeak(t))
      modifies this
      ensures Valid() && t < |sys.threads| && sys.threads[t].pc == Idle
      ensures sys.owners == old(sys.owners) && sys.zeroShared == old(sys.zeroShared)
      ensures sys.weakOwners == old(sys.weakOwners) - 1
      ensures sys.zeroWeak == old(sys.zeroWeak) + if old(sys.weakOwners) == 0 then 1 else 0
    {
      var last := DecrementWeak(t, a);
      if last {
        Take(RunOnZeroWeak(t));
      }
    }

    /** __shared_weak_count::__release_shared. */
    method Release(ghost t: nat)
      requires Valid() && Enabled(sys, ReleaseShared(t))
      modifies this
      ensures Valid() && t < |sys.threads| && sys.threads[t].pc == Idle
      ensures sys.owners == old(sys.owners) - 1
      ensures sys.zeroShared == old(sys.zeroShared) + if old(sys.owners) == 0 then 1 else 0
      ensures sys.weakOwners == old(sys.weakOwners) - if old(sys.owners) == 0 then 1 else 0
    {
      var last := DecrementShared(t);
      if last {
        Take(RunOnZeroShared(t));
        ReleaseWeakReference(t, ReleaseCollective(t));
      }
    }

    method LoadOwners(ghost t: nat, ghost a: Action) returns (v: int)
      requires Valid() && Enabled(sys, a) && (a == LockLoad(t) || a == LockReload(t))
      modifies this
      ensures Valid() && sys == Apply(old(sys), a) && sys.threads[t].pc == Loaded(v)
      ensures sharedOwners == old(sharedOwners)
    {
      v := sharedOwners;
      Take(a);
    }

    method CompareAndSwap(ghost t: nat, v: int) returns (swapped: bool)
      requires Valid() && t < |sys.threads| && sys.threads[t].pc == Loaded(v) && v != -1
      modifies this
      ensures Valid() && (swapped <==> old(sharedOwners) == v)
      ensures swapped ==> Enabled(old(sys), LockExchange(t)) && sys == Apply(old(sys), LockExchange(t))
      ensures !swapped ==> sys == old(sys)
      ensures !swapped ==> Enabled(sys, LockReload(t)) && sharedOwners == old(sharedOwners)
    {
      swapped := sharedOwners == v;
      if swapped {
        sharedOwners := v + 1;
        Take(LockExchange(t));
      }
    }
  }
}
