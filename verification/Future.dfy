/** One shared state of a promise with its futures (libcxx/src/future.cpp), and the registrations by
    which a thread makes the state ready when it exits (libcxx/src/thread.cpp).

    An action is what happens under the state's mutex, or one atomic change of the reference
    count, or one notification; ~promise and the thread's exit take several actions.
  */
module Future {
  import opened Sums

  /** The exception that ~promise stores; 0 is the null exception_ptr. */
  const BROKEN_PROMISE: nat := 1

  /** Where the promise is.  Notifying: set_exception has stored its result and is to notify.
      Breaking, BreakNotifying, Releasing: inside ~promise, before storing broken_promise, before
      notifying, and before giving up its reference. */
  datatype PromisePc = Alive | Notifying | Breaking | BreakNotifying | Releasing | Gone

  /** Exiting: about to make the next registered state ready.  Then it notifies and releases. */
  datatype Pc = Idle | Waiting(signalled: bool) | Exiting | ExitNotifying | ExitReleasing | Exited

  /** handles: the futures the thread holds; registered: how often the state is on its exit list. */
  datatype Thread = Thread(handles: nat, registered: nat, pc: Pc)

  /** accepted: how many set calls have not thrown; nulls: how many of them stored a null exception. */
  datatype State = State(
    constructed: bool, attached: bool, ready: bool, exception: nat, owners: int,
    promise: PromisePc, threads: seq<Thread>, deleted: nat, accepted: nat, nulls: nat)

  datatype Action = Promise(p: PromiseAction) | Future(f: FutureAction) | Exit(e: ExitAction)

  datatype PromiseAction =
    | GetFuture(t: nat)
    | SetValue
    | SetException(e: nat)
    | SetValueAtExit(t: nat)
    | SetExceptionAtExit(t: nat, e: nat)
    | Notify
    | DestroyCheck
    | Break
    | ReleasePromise

  datatype FutureAction =
    | Copy(t: nat)
    | Drop(t: nat)
    | Give(t: nat, u: nat)
    | Wait(t: nat)
    | Wake(t: nat)

  datatype ExitAction = Begin(t: nat) | MakeReady(t: nat) | NotifyAll(t: nat) | ReleaseState(t: nat)

  function Initial(n: nat): State {
    State(false, false, false, 0, 0, Alive, seq(n, _ => Thread(0, 0, Idle)), 0, 0, 0)
  }

  predicate HasValue(s: State) {
    s.constructed || s.exception != 0
  }

  predicate ThreadIs(s: State, t: nat, pc: Pc) {
    t < |s.threads| && s.threads[t].pc == pc
  }

  /** One thread at a time uses the promise. */
  predicate PromiseEnabled(s: State, a: PromiseAction) {
    match a
    case GetFuture(t) => s.promise == Alive && ThreadIs(s, t, Idle)
    case SetValue => s.promise == Alive
    case SetException(_) => s.promise == Alive
    case SetValueAtExit(t) => s.promise == Alive && ThreadIs(s, t, Idle)
    case SetExceptionAtExit(t, _) => s.promise == Alive && ThreadIs(s, t, Idle)
    case Notify => s.promise == Notifying || s.promise == BreakNotifying
    case DestroyCheck => s.promise == Alive
    case Break => s.promise == Breaking
    case ReleasePromise => s.promise == Releasing
  }

  /** A thread uses only futures it holds. */
  predicate FutureEnabled(s: State, a: FutureAction) {
    && a.t < |s.threads|
    && var th := s.threads[a.t];
      match a
      case Copy(_) => th.pc == Idle && th.handles > 0
      case Drop(_) => th.pc == Idle && th.handles > 0
      case Give(t, u) => (th.pc == Idle || th.pc == Exited) && th.handles > 0 && u < |s.threads| && u != t
      case Wait(_) => th.pc == Idle && th.handles > 0
      case Wake(_) => th.pc.Waiting?
  }

  predicate ExitEnabled(s: State, a: ExitAction) {
    && a.t < |s.threads|
    && s.threads[a.t].pc == match a
      case Begin(_) => Idle
      case MakeReady(_) => Exiting
      case NotifyAll(_) => ExitNotifying
      case ReleaseState(_) => ExitReleasing
  }

  predicate Enabled(s: State, a: Action) {
    match a
    case Promise(p) => PromiseEnabled(s, p)
    case Future(f) => FutureEnabled(s, f)
    case Exit(e) => ExitEnabled(s, e)
  }

  function Signal(th: Thread): Thread {
    if th.pc.Waiting? then th.(pc := Waiting(true)) else th
  }

  function SignalAll(threads: seq<Thread>): seq<Thread> {
    seq(|threads|, i requires 0 <= i < |threads| => Signal(threads[i]))
  }

  function Set(s: State, t: nat, th: Thread): State
    requires t < |s.threads|
  {
    s.(threads := s.threads[t := th])
  }

  /** __release_shared: the last one deletes the state. */
  function Release(s: State): State {
    s.(owners := s.owners - 1, deleted := s.deleted + if s.owners == 0 then 1 else 0)
  }

  function Accept(s: State, exception: nat, isNull: bool): State {
    s.(exception := exception, accepted := s.accepted + 1, nulls := s.nulls + if isNull then 1 else 0)
  }

  /** The state goes on the thread's exit list, which holds a reference to it. */
  function Register(s: State, t: nat): State
    requires t < |s.threads|
  {
    Set(s, t, s.threads[t].(registered := s.threads[t].registered + 1)).(owners := s.owners + 1)
  }

  function ApplyPromise(s: State, a: PromiseAction): State
    requires PromiseEnabled(s, a)
  {
    match a
    case GetFuture(t) =>
      if s.attached then s
      else Set(s, t, s.threads[t].(handles := s.threads[t].handles + 1)).(attached := true, owners := s.owners + 1)
    case SetValue =>
      if HasValue(s) then s
      else Accept(s, s.exception, false).(constructed := true, ready := true, threads := SignalAll(s.threads))
    case SetException(e) =>
      if HasValue(s) then s else Accept(s, e, e == 0).(ready := true, promise := Notifying)
    case SetValueAtExit(t) =>
      if HasValue(s) then s else Register(Accept(s, s.exception, false), t).(constructed := true)
    case SetExceptionAtExit(t, e) =>
      if HasValue(s) then s else Register(Accept(s, e, e == 0), t)
    case Notify =>
      s.(threads := SignalAll(s.threads), promise := if s.promise == Notifying then Alive else Releasing)
    case DestroyCheck => s.(promise := if !HasValue(s) && s.owners + 1 > 1 then Breaking else Releasing)
    case Break =>
      if HasValue(s) then s.(promise := Releasing)
      else Accept(s, BROKEN_PROMISE, false).(ready := true, promise := BreakNotifying)
    case ReleasePromise => Release(s).(promise := Gone)
  }

  function ApplyFuture(s: State, a: FutureAction): State
    requires FutureEnabled(s, a)
  {
    var th := s.threads[a.t];
    match a
    case Copy(t) => Set(s, t, th.(handles := th.handles + 1)).(owners := s.owners + 1)
    case Drop(t) => Release(Set(s, t, th.(handles := th.handles - 1)))
    case Give(t, u) =>
      var s' := Set(s, t, th.(handles := th.handles - 1));
      Set(s', u, s'.threads[u].(handles := s'.threads[u].handles + 1))
    case Wait(t) => Set(s, t, th.(pc := if s.ready then Idle else Waiting(false)))
    case Wake(t) => Set(s, t, th.(pc := if s.ready then Idle else Waiting(false)))
  }

  function ApplyExit(s: State, a: ExitAction): State
    requires ExitEnabled(s, a)
  {
    var th := s.threads[a.t];
    match a
    case Begin(t) => Set(s, t, th.(pc := if th.registered > 0 then Exiting else Exited))
    case MakeReady(t) => Set(s, t, th.(pc := ExitNotifying)).(ready := true)
    case NotifyAll(t) => s.(threads := SignalAll(s.threads[t := th.(pc := ExitReleasing)]))
    case ReleaseState(t) =>
      var left := if th.registered > 0 then th.registered - 1 else 0;
      Release(Set(s, t, th.(registered := left, pc := if left > 0 then Exiting else Exited)))
  }

  function Apply(s: State, a: Action): State
    requires Enabled(s, a)
  {
    match a
    case Promise(p) => ApplyPromise(s, p)
    case Future(f) => ApplyFuture(s, f)
    case Exit(e) => ApplyExit(s, e)
  }

  ghost predicate Allowed(s: State, actions: seq<Action>)
    decreases |actions|
  {
    actions == [] || (Enabled(s, actions[0]) && Allowed(Apply(s, actions[0]), actions[1..]))
  }

  ghost function After(s: State, actions: seq<Action>): State
    requires Allowed(s, actions)
    decreases |actions|
  {
    if actions == [] then s else After(Apply(s, actions[0]), actions[1..])
  }

  // ----- the invariant, in sums over the threads -----

  function HandlesOf(th: Thread): nat { th.handles }

  function RegisteredOf(th: Thread): nat { th.registered }

  function NotifyingOf(th: Thread): nat { if th.pc == ExitNotifying then 1 else 0 }

  function MadeReadyOf(th: Thread): nat { if th.pc == ExitNotifying || th.pc == ExitReleasing then 1 else 0 }

  function UnsignalledOf(th: Thread): nat { if th.pc == Waiting(false) then 1 else 0 }

  /** An exiting thread has registrations until it has exited; a waiting one holds a future. */
  predicate InOrder(th: Thread) {
    && (th.pc == Exiting || th.pc == ExitNotifying || th.pc == ExitReleasing ==> th.registered > 0)
    && (th.pc == Exited ==> th.registered == 0)
    && (th.pc.Waiting? ==> th.handles > 0)
  }

  function DisorderOf(th: Thread): nat { if InOrder(th) then 0 else 1 }

  datatype Totals = Totals(
    handles: nat, registered: nat, notifying: nat, madeReady: nat, unsignalled: nat, disorder: nat)

  function TotalsOf(ts: seq<Thread>): Totals {
    Totals(Sum(ts, HandlesOf), Sum(ts, RegisteredOf), Sum(ts, NotifyingOf), Sum(ts, MadeReadyOf),
         Sum(ts, UnsignalledOf), Sum(ts, DisorderOf))
  }

  lemma Update(ts: seq<Thread>, t: nat, th: Thread)
    requires t < |ts|
    ensures var before, after := TotalsOf(ts), TotalsOf(ts[t := th]);
      && after.handles == before.handles - ts[t].handles + th.handles
      && after.registered == before.registered - ts[t].registered + th.registered
      && after.notifying == before.notifying - NotifyingOf(ts[t]) + NotifyingOf(th)
      && after.madeReady == before.madeReady - MadeReadyOf(ts[t]) + MadeReadyOf(th)
      && after.unsignalled == before.unsignalled - UnsignalledOf(ts[t]) + UnsignalledOf(th)
      && after.disorder == before.disorder - DisorderOf(ts[t]) + DisorderOf(th)
      && ts[t].handles <= before.handles && ts[t].registered <= before.registered
      && NotifyingOf(ts[t]) <= before.notifying && MadeReadyOf(ts[t]) <= before.madeReady
      && UnsignalledOf(ts[t]) <= before.unsignalled && DisorderOf(ts[t]) <= before.disorder
  {
    SumUpdate(ts, HandlesOf, t, th);
    SumUpdate(ts, RegisteredOf, t, th);
    SumUpdate(ts, NotifyingOf, t, th);
    SumUpdate(ts, MadeReadyOf, t, th);
    SumUpdate(ts, UnsignalledOf, t, th);
    SumUpdate(ts, DisorderOf, t, th);
  }

  lemma {:induction false} Signalling(ts: seq<Thread>)
    ensures TotalsOf(SignalAll(ts)) == TotalsOf(ts).(unsignalled := 0)
  {
    if ts == [] {
    } else {
      var n := |ts| - 1;
      assert SignalAll(ts)[..n] == SignalAll(ts[..n]);
      Signalling(ts[..n]);
    }
  }

  /** The count is the number of holders, less one, and the state is deleted when it is -1. */
  ghost predicate Counted(s: State, u: Totals) {
    && s.owners + 1 == u.handles + u.registered + (if s.promise == Gone then 0 else 1)
    && s.deleted == (if s.owners == -1 then 1 else 0)
    && u.disorder == 0
  }

  /** A non-null result has been accepted exactly if there is one, and then only one. */
  ghost predicate OneResult(s: State) {
    s.accepted == s.nulls + (if HasValue(s) then 1 else 0)
  }

  ghost predicate NotifyDue(s: State, u: Totals) {
    s.promise == Notifying || s.promise == BreakNotifying || u.notifying > 0
  }

  /** A stored result reaches the waiters now or when a thread exits; ~promise lets go only of a
      state that is settled in this way or that no future refers to. */
  ghost predicate Settled(s: State, u: Totals) {
    && (HasValue(s) ==> s.ready || u.registered > 0)
    && (s.promise == Releasing || s.promise == Gone ==> s.ready || u.registered > 0 || u.handles == 0)
    && (s.promise == Notifying || s.promise == BreakNotifying ==> s.ready)
    && (u.madeReady > 0 ==> s.ready)
    && (u.unsignalled > 0 && s.ready ==> NotifyDue(s, u))
  }

  ghost predicate Inv(s: State) {
    var u := TotalsOf(s.threads);
    Counted(s, u) && OneResult(s) && Settled(s, u)
  }

  lemma InitialInv(n: nat)
    ensures Inv(Initial(n))
  {
    var ts := Initial(n).threads;
    SumZero(ts, HandlesOf);
    SumZero(ts, RegisteredOf);
    SumZero(ts, NotifyingOf);
    SumZero(ts, MadeReadyOf);
    SumZero(ts, UnsignalledOf);
    SumZero(ts, DisorderOf);
  }

  predicate SetsNow(a: PromiseAction) {
    a.SetValue? || a.SetException? || a.Break?
  }

  predicate SetsAtExit(a: PromiseAction) {
    a.SetValueAtExit? || a.SetExceptionAtExit?
  }

  lemma SettingInv(s: State, a: PromiseAction)
    requires Inv(s) && PromiseEnabled(s, a) && SetsNow(a)
    ensures Inv(ApplyPromise(s, a))
  {
    Signalling(s.threads);
  }

  lemma SettingAtExitInv(s: State, a: PromiseAction)
    requires Inv(s) && PromiseEnabled(s, a) && SetsAtExit(a)
    ensures Inv(ApplyPromise(s, a))
  {
    Update(s.threads, a.t, ApplyPromise(s, a).threads[a.t]);
  }

  lemma HandlingInv(s: State, a: PromiseAction)
    requires Inv(s) && PromiseEnabled(s, a) && !SetsNow(a) && !SetsAtExit(a)
    ensures Inv(ApplyPromise(s, a))
  {
    match a
    case GetFuture(t) => Update(s.threads, t, ApplyPromise(s, a).threads[t]);
    case Notify => Signalling(s.threads);
    case DestroyCheck =>
    case ReleasePromise =>
  }

  lemma PromiseStepInv(s: State, a: PromiseAction)
    requires Inv(s) && PromiseEnabled(s, a)
    ensures Inv(ApplyPromise(s, a))
  {
    if SetsNow(a) {
      SettingInv(s, a);
    } else if SetsAtExit(a) {
      SettingAtExitInv(s, a);
    } else {
      HandlingInv(s, a);
    }
  }

  lemma FutureStepInv(s: State, a: FutureAction)
    requires Inv(s) && FutureEnabled(s, a)
    ensures Inv(ApplyFuture(s, a))
  {
    var th := ApplyFuture(s, a).threads[a.t];
    Update(s.threads, a.t, th);
    if a.Give? {
      Update(s.threads[a.t := th], a.u, ApplyFuture(s, a).threads[a.u]);
    }
  }

  lemma ExitStepInv(s: State, a: ExitAction)
    requires Inv(s) && ExitEnabled(s, a)
    ensures Inv(ApplyExit(s, a))
  {
    if a.NotifyAll? {
      var th := s.threads[a.t].(pc := ExitReleasing);
      Update(s.threads, a.t, th);
      Signalling(s.threads[a.t := th]);
    } else {
      Update(s.threads, a.t, ApplyExit(s, a).threads[a.t]);
    }
  }

  lemma StepInv(s: State, a: Action)
    requires Inv(s) && Enabled(s, a)
    ensures Inv(Apply(s, a))
  {
    match a
    case Promise(p) => PromiseStepInv(s, p);
    case Future(f) => FutureStepInv(s, f);
    case Exit(e) => ExitStepInv(s, e);
  }

  /** Every run of every number of threads keeps the invariant. */
  lemma {:induction false} RunInv(s: State, actions: seq<Action>)
    requires Inv(s) && Allowed(s, actions)
    ensures Inv(After(s, actions))
    decreases |actions|
  {
    if actions == [] {
    } else {
      StepInv(s, actions[0]);
      RunInv(Apply(s, actions[0]), actions[1..]);
    }
  }

  // ----- what the shared state promises -----

  /** The result that a waiter sees: the value, an exception, or neither yet. */
  function Result(s: State): (bool, nat) {
    (s.constructed, s.exception)
  }

  predicate SetsNull(a: PromiseAction) {
    a == SetException(0) || (a.SetExceptionAtExit? && a.e == 0)
  }

  /** What a step that is no set call leaves alone. */
  ghost predicate Undisturbed(s: State, after: State) {
    && |after.threads| == |s.threads| && (s.ready ==> after.ready)
    && after.accepted == s.accepted && after.nulls == s.nulls && Result(after) == Result(s)
  }

  lemma PromiseStepResults(s: State, a: PromiseAction)
    requires PromiseEnabled(s, a)
    ensures var s' := ApplyPromise(s, a);
      && |s'.threads| == |s.threads| && (s.ready ==> s'.ready)
      && if (SetsNow(a) || SetsAtExit(a)) && !HasValue(s)
         then s'.accepted == s.accepted + 1 && s'.nulls == s.nulls + if SetsNull(a) then 1 else 0
         else s'.accepted == s.accepted && s'.nulls == s.nulls && Result(s') == Result(s)
  {
  }

  lemma OtherStepUndisturbed(s: State, a: Action)
    requires Enabled(s, a) && !a.Promise?
    ensures Undisturbed(s, Apply(s, a))
  {
    match a
    case Future(f) => assert Undisturbed(s, ApplyFuture(s, f));
    case Exit(e) => assert Undisturbed(s, ApplyExit(s, e));
  }

  predicate IsSet(a: Action) {
    a.Promise? && (SetsNow(a.p) || SetsAtExit(a.p))
  }

  lemma StepResults(s: State, a: Action)
    requires Enabled(s, a)
    ensures var s' := Apply(s, a);
      && |s'.threads| == |s.threads| && (s.ready ==> s'.ready)
      && if IsSet(a) && !HasValue(s)
         then s'.accepted == s.accepted + 1 && s'.nulls == s.nulls + if SetsNull(a.p) then 1 else 0
         else s'.accepted == s.accepted && s'.nulls == s.nulls && Result(s') == Result(s)
  {
    if a.Promise? {
      PromiseStepResults(s, a.p);
    } else {
      OtherStepUndisturbed(s, a);
    }
  }

  lemma {:induction false} ThreadsStay(s: State, actions: seq<Action>)
    requires Allowed(s, actions)
    ensures |After(s, actions).threads| == |s.threads|
    decreases |actions|
  {
    if actions == [] {
    } else {
      StepResults(s, actions[0]);
      ThreadsStay(Apply(s, actions[0]), actions[1..]);
    }
  }

  ghost predicate NobodyHolds(s: State) {
    forall t :: 0 <= t < |s.threads| ==> s.threads[t].handles == 0 && s.threads[t].registered == 0
  }

  ghost predicate SomeExitAnswers(s: State) {
    exists u :: 0 <= u < |s.threads| && s.threads[u].registered > 0 && s.threads[u].pc != Exited
  }

  ghost predicate SomeExitNotifies(s: State) {
    exists u :: 0 <= u < |s.threads| && s.threads[u].pc == ExitNotifying
  }

  /** In every run: the reference count is the number of holders (futures, registrations and the
      promise), and the state is deleted once, exactly when there is none left. */
  lemma CountsMatchHolders(n: nat, actions: seq<Action>)
    requires Allowed(Initial(n), actions)
    ensures var s := After(Initial(n), actions);
      && s.owners + 1 == Sum(s.threads, HandlesOf) + Sum(s.threads, RegisteredOf) + (if s.promise == Gone then 0 else 1)
      && s.deleted <= 1
      && (s.deleted == 1 <==> s.promise == Gone && NobodyHolds(s))
  {
    InitialInv(n);
    RunInv(Initial(n), actions);
    var s := After(Initial(n), actions);
    if s.deleted == 1 {
      forall t | 0 <= t < |s.threads| ensures s.threads[t].handles == 0 && s.threads[t].registered == 0 {
        Update(s.threads, t, s.threads[t]);
      }
    } else if NobodyHolds(s) {
      SumZero(s.threads, HandlesOf);
      SumZero(s.threads, RegisteredOf);
    }
  }

  /** A set call is accepted, rather than thrown out, exactly if there is no non-null result yet;
      a result that is there is never changed. */
  lemma AcceptedIffEmpty(n: nat, actions: seq<Action>, a: Action)
    requires Allowed(Initial(n), actions) && Enabled(After(Initial(n), actions), a)
    ensures var s := After(Initial(n), actions);
      && (HasValue(s) <==> s.accepted == s.nulls + 1)
      && (IsSet(a) ==> Apply(s, a).accepted == s.accepted + if s.accepted == s.nulls then 1 else 0)
      && (!IsSet(a) ==> Apply(s, a).accepted == s.accepted)
      && (HasValue(s) ==> Result(Apply(s, a)) == Result(s))
  {
    InitialInv(n);
    RunInv(Initial(n), actions);
    StepResults(After(Initial(n), actions), a);
  }

  // ----- which result -----

  /** The result that a set call hands in. */
  function Given(a: PromiseAction): (bool, nat)
    requires SetsNow(a) || SetsAtExit(a)
  {
    match a
    case SetException(e) => (false, e)
    case SetExceptionAtExit(_, e) => (false, e)
    case Break => (false, BROKEN_PROMISE)
    case _ => (true, 0)
  }

  /** A set call that is accepted stores just what it hands in, and the state is ready at once, unless the
      call leaves that to the exit of its thread; one that is not accepted changes no result. */
  lemma SetStoresWhatIsGiven(s: State, a: PromiseAction)
    requires PromiseEnabled(s, a) && (SetsNow(a) || SetsAtExit(a))
    ensures var s' := ApplyPromise(s, a);
      && Result(s') == (if HasValue(s) then Result(s) else Given(a))
      && s'.ready == (s.ready || (SetsNow(a) && !HasValue(s)))
      && (SetsAtExit(a) ==> s'.threads[a.t].registered == s.threads[a.t].registered + if HasValue(s) then 0 else 1)
  {
  }

  /** Some set call of the run has handed in this result. */
  ghost predicate WasGiven(actions: seq<Action>, result: (bool, nat)) {
    exists i :: 0 <= i < |actions| && IsSet(actions[i]) && Given(actions[i].p) == result
  }

  lemma {:induction false} RunResult(s: State, actions: seq<Action>)
    requires Allowed(s, actions)
    ensures Result(After(s, actions)) == Result(s) || WasGiven(actions, Result(After(s, actions)))
    decreases |actions|
  {
    if actions == [] {
    } else {
      var a, rest := actions[0], actions[1..];
      var s' := Apply(s, a);
      RunResult(s', rest);
      StepResults(s, a);
      if IsSet(a) {
        SetStoresWhatIsGiven(s, a.p);
      }
      var result := Result(After(s', rest));
      if WasGiven(rest, result) {
        var i :| 0 <= i < |rest| && IsSet(rest[i]) && Given(rest[i].p) == result;
        assert actions[i + 1] == rest[i];
      }
    }
  }

  /** In every run: whatever result is there has been handed in by a set call; so a broken promise is seen
      only if ~promise has stored it, or a caller has handed in that very exception. */
  lemma ResultWasGiven(n: nat, actions: seq<Action>)
    requires Allowed(Initial(n), actions)
    ensures var s := After(Initial(n), actions);
      Result(s) == (false, 0) || WasGiven(actions, Result(s))
  {
    RunResult(Initial(n), actions);
  }

  /** In every run: once a non-null result is there, it is there for good. */
  lemma {:induction false} ResultStays(s: State, actions: seq<Action>)
    requires Allowed(s, actions) && HasValue(s)
    ensures Result(After(s, actions)) == Result(s)
    decreases |actions|
  {
    if actions == [] {
    } else {
      StepResults(s, actions[0]);
      ResultStays(Apply(s, actions[0]), actions[1..]);
    }
  }

  // ----- which future -----

  lemma {:induction false} AttachedForGood(s: State, actions: seq<Action>)
    requires Allowed(s, actions) && s.attached
    ensures After(s, actions).attached
    decreases |actions|
  {
    if actions == [] {
    } else {
      AttachedForGood(Apply(s, actions[0]), actions[1..]);
    }
  }

  /** The first get_future gets a future, and every later one, after any steps, is refused. */
  lemma OneFuture(s: State, t: nat, actions: seq<Action>, u: nat)
    requires Enabled(s, Promise(GetFuture(t))) && !s.attached
    requires Allowed(Apply(s, Promise(GetFuture(t))), actions)
    requires Enabled(After(Apply(s, Promise(GetFuture(t))), actions), Promise(GetFuture(u)))
    ensures var s' := Apply(s, Promise(GetFuture(t)));
      && s'.attached && s'.threads[t].handles == s.threads[t].handles + 1
      && Apply(After(s', actions), Promise(GetFuture(u))) == After(s', actions)
  {
    AttachedForGood(Apply(s, Promise(GetFuture(t))), actions);
  }

  /** No step but get_future attaches one; in the beginning none is attached. */
  lemma {:induction false} AttachedByGetFuture(s: State, actions: seq<Action>)
    requires Allowed(s, actions) && !s.attached
    requires forall a :: a in actions ==> !(a.Promise? && a.p.GetFuture?)
    ensures !After(s, actions).attached
    decreases |actions|
  {
    if actions == [] {
    } else {
      AttachedByGetFuture(Apply(s, actions[0]), actions[1..]);
    }
  }

  // ----- what the other steps do to the threads -----

  /** What a step does to the acting thread's futures: it takes one, gives one up, or neither. */
  function Taken(a: FutureAction): int {
    match a
    case Copy(_) => 1
    case Drop(_) => -1
    case Give(_, _) => -1
    case _ => 0
  }

  /** A future's step: a thread waits exactly while the state is not ready, and a future that is given
      away arrives. */
  lemma FutureStepOutcome(s: State, a: FutureAction)
    requires FutureEnabled(s, a)
    ensures var s' := ApplyFuture(s, a);
      && |s'.threads| == |s.threads| && s'.promise == s.promise
      && s'.threads[a.t].handles == s.threads[a.t].handles + Taken(a)
      && ((a.Wait? || a.Wake?) ==> s'.threads[a.t].pc == if s.ready then Idle else Waiting(false))
      && forall u :: 0 <= u < |s.threads| && u != a.t ==>
           && s'.threads[u].(handles := 0) == s.threads[u].(handles := 0)
           && s'.threads[u].handles == s.threads[u].handles + (if a.Give? && a.u == u then 1 else 0)
  {
  }

  /** An exiting thread makes the state ready, notifies and gives up its reference, once for every
      registration, and has exited after the last. */
  lemma ExitStepOutcome(s: State, a: ExitAction)
    requires Inv(s) && ExitEnabled(s, a)
    ensures var s' := ApplyExit(s, a);
      var th, th' := s.threads[a.t], s'.threads[a.t];
      && th'.handles == th.handles
      && th'.registered == th.registered - (if a.ReleaseState? then 1 else 0)
      && (s'.ready <==> s.ready || a.MakeReady?)
      && (match a
          case MakeReady(_) => th'.pc == ExitNotifying
          case NotifyAll(_) => th'.pc == ExitReleasing
          case _ => th'.pc == if th'.registered > 0 then Exiting else Exited)
      && forall u :: 0 <= u < |s.threads| && u != a.t ==>
           s'.threads[u] == if a.NotifyAll? then Signal(s.threads[u]) else s.threads[u]
  {
    Update(s.threads, a.t, s.threads[a.t]);
  }

  /** What ~promise does: it breaks the promise exactly if there is no result and a future or an exit list
      refers to the state; set_value and the notifications signal everybody who waits. */
  lemma PromiseStepOutcome(s: State, a: PromiseAction)
    requires Inv(s) && PromiseEnabled(s, a)
    ensures var s' := ApplyPromise(s, a);
      && (a.DestroyCheck? ==>
            (s'.promise == Breaking <==>
              !HasValue(s) && (Sum(s.threads, HandlesOf) > 0 || Sum(s.threads, RegisteredOf) > 0)))
      && (a.SetException? && !HasValue(s) ==> s'.promise == Notifying)
      && (a.Break? ==> s'.promise == if HasValue(s) then Releasing else BreakNotifying)
      && (a.Notify? ==> s'.promise == if s.promise == Notifying then Alive else Releasing)
      && (a.ReleasePromise? ==> s'.promise == Gone)
      && forall u :: 0 <= u < |s.threads| && s.threads[u].pc.Waiting? ==>
           s'.threads[u].pc == if a.Notify? || (a.SetValue? && !HasValue(s)) then Waiting(true) else s.threads[u].pc
  {
  }

  lemma {:induction false} RunNulls(s: State, actions: seq<Action>)
    requires Inv(s) && Allowed(s, actions)
    requires forall i :: 0 <= i < |actions| ==> !(actions[i].Promise? && SetsNull(actions[i].p))
    ensures After(s, actions).nulls == s.nulls
    decreases |actions|
  {
    if actions == [] {
    } else {
      StepInv(s, actions[0]);
      StepResults(s, actions[0]);
      RunNulls(Apply(s, actions[0]), actions[1..]);
    }
  }

  /** In every run that stores no null exception the state accepts at most one result. */
  lemma AtMostOneResult(n: nat, actions: seq<Action>)
    requires Allowed(Initial(n), actions)
    requires forall i :: 0 <= i < |actions| ==> !(actions[i].Promise? && SetsNull(actions[i].p))
    ensures After(Initial(n), actions).accepted <= 1
  {
    InitialInv(n);
    RunInv(Initial(n), actions);
    RunNulls(Initial(n), actions);
  }

  /** With a null exception the state accepts a second result, although it is ready already. */
  lemma NullAdmitsASecondResult()
    ensures var actions := [Promise(SetException(0)), Promise(Notify), Promise(SetValue)];
      Allowed(Initial(0), actions) && After(Initial(0), actions).accepted == 2
  {
    var a0, a1, a2 := Promise(SetException(0)), Promise(Notify), Promise(SetValue);
    var actions := [a0, a1, a2];
    assert actions[1..] == [a1, a2] && actions[1..][1..] == [a2] && actions[1..][1..][1..] == [];
    var s1 := Apply(Initial(0), a0);
    var s2 := Apply(s1, a1);
    assert Allowed(s2, [a2]);
    assert Allowed(s1, [a1, a2]);
  }

  /** Once ready, ready for good. */
  lemma {:induction false} ReadyForGood(s: State, actions: seq<Action>)
    requires Allowed(s, actions) && s.ready
    ensures After(s, actions).ready
    decreases |actions|
  {
    if actions == [] {
    } else {
      StepResults(s, actions[0]);
      ReadyForGood(Apply(s, actions[0]), actions[1..]);
    }
  }

  /** In every run: when the promise is gone and some future is left, the state is ready, or it is
      on the exit list of a thread that has not finished exiting. */
  lemma NoFutureIsAbandoned(n: nat, actions: seq<Action>, t: nat)
    requires t < n && Allowed(Initial(n), actions)
    ensures var s := After(Initial(n), actions);
      && |s.threads| == n
      && (s.promise == Gone && s.threads[t].handles > 0 ==> s.ready || SomeExitAnswers(s))
  {
    InitialInv(n);
    RunInv(Initial(n), actions);
    ThreadsStay(Initial(n), actions);
    var s := After(Initial(n), actions);
    Update(s.threads, t, s.threads[t]);
    if s.promise == Gone && s.threads[t].handles > 0 && !s.ready {
      SumPositive(s.threads, RegisteredOf);
      var u :| 0 <= u < n && s.threads[u].registered > 0;
      Update(s.threads, u, s.threads[u]);
    }
  }

  /** In every run: a thread that waits unsignalled although the state is ready is about to be
      notified; if the state is not ready, the promise or an exiting thread still answers for it. */
  lemma NoWaiterIsForgotten(n: nat, actions: seq<Action>, t: nat)
    requires t < n && Allowed(Initial(n), actions)
    ensures var s := After(Initial(n), actions);
      && |s.threads| == n
      && (s.threads[t].pc == Waiting(false) ==>
            && (s.ready ==> s.promise == Notifying || s.promise == BreakNotifying || SomeExitNotifies(s))
            && (!s.ready ==> s.promise == Alive || s.promise == Breaking || SomeExitAnswers(s)))
  {
    InitialInv(n);
    RunInv(Initial(n), actions);
    ThreadsStay(Initial(n), actions);
    var s := After(Initial(n), actions);
    Update(s.threads, t, s.threads[t]);
    if s.threads[t].pc == Waiting(false) {
      if s.ready && s.promise != Notifying && s.promise != BreakNotifying {
        SumPositive(s.threads, NotifyingOf);
      }
      if !s.ready && s.promise != Alive && s.promise != Breaking {
        SumPositive(s.threads, RegisteredOf);
        var u :| 0 <= u < n && s.threads[u].registered > 0;
        Update(s.threads, u, s.threads[u]);
      }
    }
  }

  // ----- the object -----

  const CONSTRUCTED: bv32 := 1
  const FUTURE_ATTACHED: bv32 := 2
  const READY: bv32 := 4

  /** Setting one bit leaves the others alone. */
  lemma BitsAreApart(x: bv32)
    ensures (x | CONSTRUCTED) & CONSTRUCTED != 0 && (x | FUTURE_ATTACHED) & FUTURE_ATTACHED != 0
    ensures (x | READY) & READY != 0
    ensures (x | CONSTRUCTED) & READY == x & READY && (x | CONSTRUCTED) & FUTURE_ATTACHED == x & FUTURE_ATTACHED
    ensures (x | FUTURE_ATTACHED) & READY == x & READY && (x | FUTURE_ATTACHED) & CONSTRUCTED == x & CONSTRUCTED
    ensures (x | READY) & CONSTRUCTED == x & CONSTRUCTED && (x | READY) & FUTURE_ATTACHED == x & FUTURE_ATTACHED
    ensures x | CONSTRUCTED | READY == (x | CONSTRUCTED) | READY
  {
  }

  /** The shared state as the source stores it.  Each method is one critical section, or one
      atomic change of the count, run by thread t. */
  class AssocSubState {
    var state: bv32
    var exception: nat
    var owners: int
    ghost var sys: State

    ghost predicate Valid()
      reads this
    {
      && Inv(sys)
      && (state & CONSTRUCTED != 0 <==> sys.constructed)
      && (state & FUTURE_ATTACHED != 0 <==> sys.attached)
      && (state & READY != 0 <==> sys.ready)
      && exception == sys.exception && owners == sys.owners
    }

    constructor (ghost n: nat)
      ensures Valid() && sys == Initial(n)
    {
      state, exception, owners := 0, 0, 0;
      sys := Initial(n);
      InitialInv(n);
    }

    ghost method Take(a: Action)
      requires Inv(sys) && Enabled(sys, a)
      modifies this`sys
      ensures sys == Apply(old(sys), a) && Inv(sys)
    {
      StepInv(sys, a);
      sys := Apply(sys, a);
    }

    predicate HasResult()
      reads this
    {
      state & CONSTRUCTED != 0 || exception != 0
    }

    /** promise::set_value; notifies while it still holds the mutex. */
    method SetValue() returns (thrown: bool)
      requires Valid() && Enabled(sys, Promise(PromiseAction.SetValue))
      modifies this
      ensures Valid() && sys == Apply(old(sys), Promise(PromiseAction.SetValue))
      ensures thrown <==> HasValue(old(sys))
    {
      BitsAreApart(state);
      BitsAreApart(state | CONSTRUCTED);
      thrown := HasResult();
      if !thrown {
        state := state | CONSTRUCTED | READY;
      }
      Take(Promise(PromiseAction.SetValue));
    }

    /** promise::set_exception and, with `breaking`, the same call from ~promise. */
    method SetException(e: nat, ghost breaking: bool) returns (thrown: bool)
      requires Valid() && Enabled(sys, Promise(if breaking then Break else PromiseAction.SetException(e)))
      requires breaking ==> e == BROKEN_PROMISE
      modifies this
      ensures Valid() && sys == Apply(old(sys), Promise(if breaking then Break else PromiseAction.SetException(e)))
      ensures thrown <==> HasValue(old(sys))
      ensures !thrown ==> exception == e && state & CONSTRUCTED == 0 && state & READY != 0
    {
      hide Inv;
      thrown := HasResult();
      if !thrown {
        BitsAreApart(state);
        exception := e;
        state := state | READY;
        assert state & READY != 0 && state & CONSTRUCTED == 0;
        assert state & FUTURE_ATTACHED == old(state) & FUTURE_ATTACHED;
      }
      Take(Promise(if breaking then Break else PromiseAction.SetException(e)));
    }

    method SetValueAtThreadExit(ghost t: nat) returns (thrown: bool)
      requires Valid() && Enabled(sys, Promise(SetValueAtExit(t)))
      modifies this
      ensures Valid() && sys == Apply(old(sys), Promise(SetValueAtExit(t)))
      ensures thrown <==> HasValue(old(sys))
    {
      BitsAreApart(state);
      thrown := HasResult();
      if !thrown {
        state := state | CONSTRUCTED;
        owners := owners + 1;
      }
      Take(Promise(SetValueAtExit(t)));
    }

    method SetExceptionAtThreadExit(ghost t: nat, e: nat) returns (thrown: bool)
      requires Valid() && Enabled(sys, Promise(SetExceptionAtExit(t, e)))
      modifies this
      ensures Valid() && sys == Apply(old(sys), Promise(SetExceptionAtExit(t, e)))
      ensures thrown <==> HasValue(old(sys))
      ensures state == old(state) && (!thrown ==> exception == e)
    {
      thrown := HasResult();
      if !thrown {
        exception := e;
        owners := owners + 1;
      }
      Take(Promise(SetExceptionAtExit(t, e)));
    }

    /** The constructor of a future from the promise's state. */
    method AttachFuture(ghost t: nat) returns (thrown: bool)
      requires Valid() && Enabled(sys, Promise(GetFuture(t)))
      modifies this
      ensures Valid() && sys == Apply(old(sys), Promise(GetFuture(t)))
      ensures thrown <==> old(sys).attached
      ensures state & FUTURE_ATTACHED != 0 && owners == old(owners) + if thrown then 0 else 1
    {
      BitsAreApart(state);
      thrown := state & FUTURE_ATTACHED != 0;
      if !thrown {
        owners := owners + 1;
        state := state | FUTURE_ATTACHED;
      }
      Take(Promise(GetFuture(t)));
    }

    /** The test in ~promise: is there a future that would wait for ever? */
    method DestroyCheck() returns (breaks: bool)
      requires Valid() && Enabled(sys, Promise(PromiseAction.DestroyCheck))
      modifies this
      ensures Valid() && sys == Apply(old(sys), Promise(PromiseAction.DestroyCheck))
      ensures breaks <==> sys.promise == Breaking
    {
      breaks := !HasResult() && owners + 1 > 1;
      Take(Promise(PromiseAction.DestroyCheck));
    }

    /** Returns whether this was the last reference, so that the state is to be deleted. */
    method ReleaseShared(ghost a: Action) returns (deletes: bool)
      requires Valid() && Enabled(sys, a)
      requires a == Promise(ReleasePromise) || (a.Future? && a.f.Drop?) || (a.Exit? && a.e.ReleaseState?)
      modifies this
      ensures Valid() && sys == Apply(old(sys), a)
      ensures deletes <==> sys.deleted > old(sys).deleted
    {
      deletes := owners == 0;
      owners := owners - 1;
      Take(a);
    }

    /** Copying a shared_future. */
    method AddShared(ghost t: nat)
      requires Valid() && Enabled(sys, Future(Copy(t)))
      modifies this
      ensures Valid() && sys == Apply(old(sys), Future(Copy(t)))
    {
      owners := owners + 1;
      Take(Future(Copy(t)));
    }

    /** Called for each registered state when a thread exits. */
    method MakeReady(ghost t: nat)
      requires Valid() && Enabled(sys, Exit(ExitAction.MakeReady(t)))
      modifies this
      ensures Valid() && sys == Apply(old(sys), Exit(ExitAction.MakeReady(t)))
    {
      BitsAreApart(state);
      state := state | READY;
      Take(Exit(ExitAction.MakeReady(t)));
    }

    /** One pass of the waiting loop: the test of a new wait, or (woken) the test after a wake. */
    method SubWait(ghost t: nat, ghost woken: bool) returns (waits: bool)
      requires Valid() && Enabled(sys, Future(if woken then Wake(t) else Wait(t)))
      modifies this
      ensures Valid() && sys == Apply(old(sys), Future(if woken then Wake(t) else Wait(t)))
      ensures sys.threads[t].pc == if waits then Waiting(false) else Idle
    {
      waits := state & READY == 0;
      Take(Future(if woken then Wake(t) else Wait(t)));
    }
  }
}
