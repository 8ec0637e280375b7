/** The bundle publication protocol: an async supervisor, a blocking worker, a canceller and a drop
    guard race over a five-state control word that decides whether one rename happens. */
module Publication {
  import opened Wrappers

  // ----- The control word and its locked operations

  datatype Control = Working | Ready | Authorized | Aborted | Claimed

  /** compare_exchange of the control word: the new word and whether it changed. */
  function Exchange(state: Control, current: Control, next: Control): (Control, bool) {
    if state == current then (next, true) else (state, false)
  }

  /** Aborting wins unless the worker has claimed: the new word and whether the abort won. */
  function AbortFrom(state: Control): (Control, bool) {
    if state == Claimed then (Claimed, false) else (Aborted, true)
  }

  /** The shared control object. A method body runs under the decision lock, which every writer of the
      word takes, so no other write falls between its steps. */
  class PublicationControl {
    var state: Control
    var notifications: nat  // calls of notify_all on the decision condvar

    constructor ()
      ensures state == Working && notifications == 0
    {
      state, notifications := Working, 0;
    }

    method CompareExchange(current: Control, next: Control) returns (ok: bool)
      modifies this`state
      ensures (state, ok) == Exchange(old(state), current, next)
    {
      ok := state == current;
      if ok { state := next; }
    }

    method Transition(current: Control, next: Control) returns (transitioned: bool)
      modifies this
      ensures (state, transitioned) == Exchange(old(state), current, next)
      ensures notifications == old(notifications) + if transitioned then 1 else 0
    {
      transitioned := CompareExchange(current, next);
      if transitioned { notifications := notifications + 1; }
    }

    method Authorize() returns (ok: bool)
      modifies this
      ensures (state, ok) == Exchange(old(state), Ready, Authorized)
      ensures notifications == old(notifications) + if ok then 1 else 0
    {
      ok := Transition(Ready, Authorized);
    }

    method ClaimPublication() returns (ok: bool)
      modifies this
      ensures (state, ok) == Exchange(old(state), Authorized, Claimed)
      ensures notifications == old(notifications) + if ok then 1 else 0
    {
      ok := Transition(Authorized, Claimed);
    }

    method Abort() returns (won: bool)
      modifies this
      ensures (state, won) == AbortFrom(old(state))
      ensures notifications == old(notifications) + if state != old(state) then 1 else 0
    {
      // The source retries when the exchange fails; under the lock that every writer takes it cannot.
      var current := state;
      match current
      case Aborted => won := true;
      case Claimed => won := false;
      case _ =>
        won := CompareExchange(current, Aborted);
        if won { notifications := notifications + 1; }
    }
  }

  /** Aborts on drop unless an explicit abort was made. */
  class PublicationGuard {
    const control: PublicationControl
    var active: bool

    constructor (control: PublicationControl)
      ensures this.control == control && active
    {
      this.control, active := control, true;
    }

    method Abort() returns (won: bool)
      modifies this, control
      ensures (control.state, won) == AbortFrom(old(control.state)) && !active
      ensures control.notifications == old(control.notifications) + if control.state != old(control.state) then 1 else 0
    {
      won := control.Abort();
      active := false;
    }

    method Drop()
      modifies control
      ensures control.state == if active then AbortFrom(old(control.state)).0 else old(control.state)
      ensures control.notifications == old(control.notifications) + if control.state != old(control.state) then 1 else 0
    {
      if active { var _ := control.Abort(); }
    }
  }

  // ----- The interleaved system

  datatype WorkerResult = Done | Failed | SelfCancelled | Panicked

  /** Where the blocking worker stands. The lock is held exactly between a lock step and its release. */
  datatype WorkerPc =
    | NotSpawned
    | Preparing
    | ReadyLock | ReadyExchange | ReadyRelease(ok: bool)
    | WaitLock | WaitCheck | Asleep | Waking | WaitRelease(authorized: bool)
    | Binding
    | ClaimLock | ClaimExchange | ClaimRelease(ok: bool)
    | Renaming | Syncing
    | Finished(result: WorkerResult)

  datatype AfterAbort = ThenAwait | ThenReturn | ThenGone

  datatype Outcome = Cancelled | InputError | FromWorker(result: WorkerResult)

  datatype SupervisorPc =
    | Start
    | SelectReady
    | ReadySeen
    | AuthLock | AuthExchange | AuthRelease(ok: bool) | AuthFailed
    | SelectAuthorized
    | AbortLock(next: AfterAbort) | AbortExchange(next: AfterAbort)
    | AbortRelease(next: AfterAbort, won: bool, changed: bool)
    | AwaitTask(won: bool)
    | Returned(outcome: Outcome)
    | Gone

  datatype Holder = Free | WorkerHolds | SupervisorHolds

  datatype State = State(
    control: Control,
    lock: Holder,
    worker: WorkerPc,
    supervisor: SupervisorPc,
    guardActive: bool,
    cancelled: bool,
    renames: nat)

  const Init := State(Working, Free, NotSpawned, Start, true, false, 0)

  datatype Action =
    | Worker(failure: Option<WorkerResult>)  // the worker's next step, or its failure at this step
    | SpuriousWake
    | TakeCancelled | TakeReady | TakeDone   // the branches of the supervisor's selects
    | Supervise                              // any other step of the supervisor
    | DropFuture
    | Cancel

  /** notify_all: a worker asleep on the condvar starts to wake. */
  function Notify(s: State): State {
    if s.worker == Asleep then s.(worker := Waking) else s
  }

  function WorkerStep(s: State, failure: Option<WorkerResult>): Option<State> {
    match (s.worker, failure)
    case (Preparing, None) => Some(s.(worker := ReadyLock))
    case (Preparing, Some(r)) => if r != Done then Some(s.(worker := Finished(r))) else None
    case (ReadyLock, None) => if s.lock == Free then Some(s.(lock := WorkerHolds, worker := ReadyExchange)) else None
    case (ReadyExchange, None) =>
      var (word, ok) := Exchange(s.control, Working, Ready);
      Some(s.(control := word, worker := ReadyRelease(ok)))
    case (ReadyRelease(ok), None) => Some(s.(lock := Free, worker := if ok then WaitLock else Finished(SelfCancelled)))
    case (WaitLock, None) => if s.lock == Free then Some(s.(lock := WorkerHolds, worker := WaitCheck)) else None
    case (WaitCheck, None) =>
      if s.control == Ready then Some(s.(lock := Free, worker := Asleep))
      else Some(s.(worker := WaitRelease(s.control == Authorized)))
    case (Waking, None) => if s.lock == Free then Some(s.(lock := WorkerHolds, worker := WaitCheck)) else None
    case (WaitRelease(authorized), None) =>
      Some(s.(lock := Free, worker := if authorized then Binding else Finished(SelfCancelled)))
    case (Binding, None) => Some(s.(worker := ClaimLock))
    case (ClaimLock, None) => if s.lock == Free then Some(s.(lock := WorkerHolds, worker := ClaimExchange)) else None
    case (ClaimExchange, None) =>
      var (word, ok) := Exchange(s.control, Authorized, Claimed);
      Some(s.(control := word, worker := ClaimRelease(ok)))
    case (ClaimRelease(ok), None) => Some(s.(lock := Free, worker := if ok then Renaming else Finished(SelfCancelled)))
    case (Renaming, None) => Some(s.(renames := s.renames + 1, worker := Syncing))
    case (Syncing, None) => Some(s.(worker := Finished(Done)))
    case (Binding, Some(r)) => if r == Failed || r == Panicked then Some(s.(worker := Finished(r))) else None
    case (Renaming, Some(r)) => if r == Failed || r == Panicked then Some(s.(worker := Finished(r))) else None
    case (Syncing, Some(r)) => if r == Failed || r == Panicked then Some(s.(worker := Finished(r))) else None
    case _ => None
  }

  /** What the joined task yields: a panic is an input error, whatever else was decided. */
  function Joined(r: WorkerResult, abortWon: bool): Outcome {
    if r == Panicked then InputError else if abortWon then Cancelled else FromWorker(r)
  }

  function SupervisorStep(s: State): Option<State> {
    match s.supervisor
    case Start =>
      Some(if s.cancelled then s.(supervisor := Returned(Cancelled))
           else s.(supervisor := SelectReady, worker := Preparing))
    case ReadySeen => Some(s.(supervisor := if s.cancelled then AbortLock(ThenAwait) else AuthLock))
    case AuthLock => if s.lock == Free then Some(s.(lock := SupervisorHolds, supervisor := AuthExchange)) else None
    case AuthExchange =>
      var (word, ok) := Exchange(s.control, Ready, Authorized);
      Some(s.(control := word, supervisor := AuthRelease(ok)))
    case AuthRelease(ok) =>
      Some((if ok then Notify(s) else s).(lock := Free, supervisor := if ok then SelectAuthorized else AuthFailed))
    case AuthFailed =>
      if s.worker.Finished? then Some(s.(supervisor := Returned(Joined(s.worker.result, true)))) else None
    case AbortLock(next) =>
      if s.lock == Free then Some(s.(lock := SupervisorHolds, supervisor := AbortExchange(next))) else None
    case AbortExchange(next) =>
      var (word, won) := AbortFrom(s.control);
      Some(s.(control := word, supervisor := AbortRelease(next, won, word != s.control)))
    case AbortRelease(next, won, changed) =>
      var released := (if changed then Notify(s) else s).(lock := Free);
      (match next
       case ThenAwait => Some(released.(guardActive := false, supervisor := AwaitTask(won)))
       case ThenReturn =>
         if s.worker.Finished?
         then Some(released.(guardActive := false, supervisor := Returned(Joined(s.worker.result, false))))
         else None
       case ThenGone => Some(released.(supervisor := Gone)))
    case AwaitTask(won) =>
      if s.worker.Finished? then Some(s.(supervisor := Returned(Joined(s.worker.result, won)))) else None
    case _ => None
  }

  predicate AtAwait(s: State) {
    s.supervisor == SelectReady || s.supervisor == SelectAuthorized || s.supervisor == AuthFailed || s.supervisor.AwaitTask?
  }

  function Apply(s: State, a: Action): Option<State> {
    match a
    case Worker(failure) => WorkerStep(s, failure)
    case SpuriousWake => if s.worker == Asleep then Some(s.(worker := Waking)) else None
    case TakeCancelled =>
      if s.cancelled && (s.supervisor == SelectReady || s.supervisor == SelectAuthorized)
      then Some(s.(supervisor := AbortLock(ThenAwait))) else None
    case TakeReady =>
      if s.supervisor == SelectReady && s.control != Working then Some(s.(supervisor := ReadySeen)) else None
    case TakeDone =>
      if s.worker.Finished? && (s.supervisor == SelectReady || s.supervisor == SelectAuthorized)
      then Some(s.(supervisor := AbortLock(ThenReturn))) else None
    case Supervise => SupervisorStep(s)
    case DropFuture =>
      if s.supervisor == Start then Some(s.(supervisor := Gone))
      else if AtAwait(s) then Some(s.(supervisor := if s.guardActive then AbortLock(ThenGone) else Gone))
      else None
    case Cancel => Some(s.(cancelled := true))
  }

  // ----- The inductive invariant

  predicate WorkerHoldsLock(w: WorkerPc) {
    w == ReadyExchange || w.ReadyRelease? || w == WaitCheck || w.WaitRelease? || w == ClaimExchange || w.ClaimRelease?
  }

  predicate SupervisorHoldsLock(p: SupervisorPc) {
    p == AuthExchange || p.AuthRelease? || p.AbortExchange? || p.AbortRelease?
  }

  /** What the control word can be at each place of the worker. */
  predicate WorkerAgrees(s: State) {
    match s.worker
    case NotSpawned => s.control == Working
    case Preparing => s.control == Working || s.control == Aborted
    case ReadyLock => s.control == Working || s.control == Aborted
    case ReadyExchange => s.control == Working || s.control == Aborted
    case ReadyRelease(ok) => s.control == if ok then Ready else Aborted
    case WaitLock => s.control == Ready || s.control == Authorized || s.control == Aborted
    case WaitCheck => s.control == Ready || s.control == Authorized || s.control == Aborted
    case Asleep => s.control == Ready || s.control == Authorized || s.control == Aborted
    case Waking => s.control == Ready || s.control == Authorized || s.control == Aborted
    case WaitRelease(authorized) => s.control == if authorized then Authorized else Aborted
    case Binding => s.control == Authorized || s.control == Aborted
    case ClaimLock => s.control == Authorized || s.control == Aborted
    case ClaimExchange => s.control == Authorized || s.control == Aborted
    case ClaimRelease(ok) => s.control == if ok then Claimed else Aborted
    case Renaming => s.control == Claimed
    case Syncing => s.control == Claimed
    case Finished(Done) => s.control == Claimed
    case Finished(SelfCancelled) => s.control != Claimed && s.control != Ready
    case Finished(_) => s.control != Ready
  }

  /** What the control word can be at each place of the supervisor. */
  predicate SupervisorAgrees(s: State) {
    match s.supervisor
    case Start => s.control == Working && s.worker == NotSpawned
    case SelectReady => s.control == Working || s.control == Ready
    case ReadySeen => s.control == Ready
    case AuthLock => s.control == Ready
    case AuthExchange => s.control == Ready
    case AuthRelease(ok) => ok && s.control == Authorized
    case AuthFailed => false
    case SelectAuthorized => s.control == Authorized || s.control == Claimed
    case AbortLock(next) => s.control != Aborted && (next == ThenReturn ==> s.worker.Finished?)
    case AbortExchange(next) => s.control != Aborted && (next == ThenReturn ==> s.worker.Finished?)
    case AbortRelease(next, won, changed) =>
      && s.control == (if won then Aborted else Claimed) && changed == won
      && (next == ThenReturn ==> s.worker.Finished?)
    case AwaitTask(won) => s.control == if won then Aborted else Claimed
    case Returned(_) => s.worker == NotSpawned || ((s.control == Aborted || s.control == Claimed) && s.worker.Finished?)
    case Gone => s.worker == NotSpawned || s.control == Aborted || s.control == Claimed
  }

  /** A wake-up is never lost: asleep with the word moved on only while its mover is about to notify. */
  predicate WakeUpPending(s: State) {
    s.worker == Asleep && s.control != Ready ==>
      s.supervisor == AuthRelease(true) || (s.supervisor.AbortRelease? && s.supervisor.changed)
  }

  /** The rename count: at most one rename, and only past the claim. */
  predicate RenamesAgree(s: State) {
    && (s.worker == Syncing || s.worker == Finished(Done) ==> s.renames == 1)
    && (s.renames == 0 || (s.renames == 1 && s.control == Claimed
                           && (s.worker == Syncing || (s.worker.Finished? && s.worker.result != SelfCancelled))))
  }

  /** The guard is armed until the supervisor aborts by hand or is through. */
  predicate Armed(p: SupervisorPc) { !p.AwaitTask? && !p.Returned? && p != Gone }

  predicate GuardAgrees(s: State) {
    && (s.worker == NotSpawned ==> s.supervisor == Start || s.supervisor == Returned(Cancelled) || s.supervisor == Gone)
    && (Armed(s.supervisor) ==> s.guardActive)
    && (s.supervisor.AwaitTask? ==> !s.guardActive)
  }

  /** What a returned supervisor reported. */
  predicate OutcomeAgrees(s: State) {
    s.supervisor.Returned? && s.worker != NotSpawned ==>
      s.worker.Finished? && s.supervisor.outcome in
        {Joined(s.worker.result, false), if s.control == Aborted then Joined(s.worker.result, true) else Joined(s.worker.result, false)}
  }

  predicate LockAgrees(s: State) {
    && (s.lock == WorkerHolds <==> WorkerHoldsLock(s.worker))
    && (s.lock == SupervisorHolds <==> SupervisorHoldsLock(s.supervisor))
  }

  predicate Invariant(s: State) {
    && LockAgrees(s) && GuardAgrees(s) && OutcomeAgrees(s)
    && WorkerAgrees(s) && SupervisorAgrees(s) && WakeUpPending(s) && RenamesAgree(s)
  }

  lemma InitInvariant()
    ensures Invariant(Init)
  {}

  lemma WorkerKeepsLock(s: State, failure: Option<WorkerResult>)
    requires LockAgrees(s) && WorkerStep(s, failure).Some?
    ensures LockAgrees(WorkerStep(s, failure).value)
  {}

  lemma WorkerKeepsWord(s: State, failure: Option<WorkerResult>)
    requires WorkerAgrees(s) && WorkerStep(s, failure).Some?
    ensures WorkerAgrees(WorkerStep(s, failure).value)
  {}

  lemma WorkerKeepsRenames(s: State, failure: Option<WorkerResult>)
    requires WorkerAgrees(s) && RenamesAgree(s) && WorkerStep(s, failure).Some?
    ensures RenamesAgree(WorkerStep(s, failure).value)
  {}

  lemma WorkerKeepsSupervisor(s: State, failure: Option<WorkerResult>)
    requires Invariant(s) && WorkerStep(s, failure).Some?
    ensures SupervisorAgrees(WorkerStep(s, failure).value)
  {
    hide RenamesAgree, WakeUpPending, GuardAgrees, OutcomeAgrees;
  }

  lemma WorkerKeepsReports(s: State, failure: Option<WorkerResult>)
    requires Invariant(s) && WorkerStep(s, failure).Some?
    ensures var t := WorkerStep(s, failure).value; WakeUpPending(t) && GuardAgrees(t) && OutcomeAgrees(t)
  {
    hide RenamesAgree, SupervisorAgrees;
  }

  lemma SupervisorKeepsLock(s: State)
    requires LockAgrees(s) && SupervisorAgrees(s) && SupervisorStep(s).Some?
    ensures LockAgrees(SupervisorStep(s).value)
  {}

  lemma SupervisorKeepsWord(s: State)
    requires LockAgrees(s) && GuardAgrees(s) && WorkerAgrees(s) && SupervisorAgrees(s) && SupervisorStep(s).Some?
    ensures WorkerAgrees(SupervisorStep(s).value)
  {}

  lemma SupervisorKeepsRenames(s: State)
    requires WorkerAgrees(s) && SupervisorAgrees(s) && RenamesAgree(s) && SupervisorStep(s).Some?
    ensures RenamesAgree(SupervisorStep(s).value)
  {}

  lemma SupervisorKeepsSupervisor(s: State)
    requires Invariant(s) && SupervisorStep(s).Some?
    ensures SupervisorAgrees(SupervisorStep(s).value)
  {
    hide RenamesAgree, WakeUpPending;
  }

  lemma SupervisorKeepsReports(s: State)
    requires Invariant(s) && SupervisorStep(s).Some?
    ensures var t := SupervisorStep(s).value; WakeUpPending(t) && GuardAgrees(t) && OutcomeAgrees(t)
  {
    hide RenamesAgree;
  }

  lemma OtherKeepsWord(s: State, a: Action)
    requires Invariant(s) && Apply(s, a).Some? && !a.Worker? && a != Supervise
    ensures var t := Apply(s, a).value; WorkerAgrees(t) && SupervisorAgrees(t)
  {
    hide WorkerStep, SupervisorStep, Joined, OutcomeAgrees, RenamesAgree;
  }

  lemma OtherKeepsInvariant(s: State, a: Action)
    requires Invariant(s) && Apply(s, a).Some? && !a.Worker? && a != Supervise
    ensures Invariant(Apply(s, a).value)
  {
    OtherKeepsWord(s, a);
    hide WorkerStep, SupervisorStep, Joined, WorkerAgrees, SupervisorAgrees;
  }

  lemma StepKeepsInvariant(s: State, a: Action)
    requires Invariant(s) && Apply(s, a).Some?
    ensures Invariant(Apply(s, a).value)
  {
    match a
    case Worker(failure) =>
      hide LockAgrees, GuardAgrees, OutcomeAgrees, WorkerAgrees, SupervisorAgrees, WakeUpPending, RenamesAgree;
      WorkerKeepsLock(s, failure);
      WorkerKeepsWord(s, failure);
      WorkerKeepsRenames(s, failure);
      WorkerKeepsSupervisor(s, failure);
      WorkerKeepsReports(s, failure);
    case Supervise =>
      hide LockAgrees, GuardAgrees, OutcomeAgrees, WorkerAgrees, SupervisorAgrees, WakeUpPending, RenamesAgree;
      SupervisorKeepsLock(s);
      SupervisorKeepsWord(s);
      SupervisorKeepsRenames(s);
      SupervisorKeepsSupervisor(s);
      SupervisorKeepsReports(s);
    case _ =>
      OtherKeepsInvariant(s, a);
  }

  // ----- The methods are the locked steps

  // A method body takes the lock, exchanges the word and releases the lock: three steps of its caller. The bodies do
  // those steps, and whatever others do between them could as well have come before the first or after the last.

  function Thrice(s: State, a: Action): Option<State> {
    match Apply(s, a)
    case None => None
    case Some(t) => match Apply(t, a) case None => None case Some(u) => Apply(u, a)
  }

  lemma AuthSteps(s: State)
    requires s.lock == Free && s.supervisor == AuthLock
    ensures var (word, ok) := Exchange(s.control, Ready, Authorized);
      Thrice(s, Supervise) ==
        Some((if ok then Notify(s) else s).(control := word, supervisor := if ok then SelectAuthorized else AuthFailed))
  {}

  lemma AbortSteps(s: State)
    requires Invariant(s) && s.lock == Free && s.supervisor.AbortLock?
    ensures s.guardActive && (s.supervisor.next == ThenReturn ==> s.worker.Finished?)
    ensures var (word, won) := AbortFrom(s.control);
      var woken := if word != s.control then Notify(s) else s;
      Thrice(s, Supervise) == Some(
        match s.supervisor.next
        case ThenAwait => woken.(control := word, guardActive := false, supervisor := AwaitTask(won))
        case ThenReturn => woken.(control := word, guardActive := false, supervisor := Returned(Joined(s.worker.result, false)))
        case ThenGone => woken.(control := word, supervisor := Gone))
  {
    hide OutcomeAgrees, WorkerAgrees, WakeUpPending, RenamesAgree, Joined;
  }

  /** The supervisor's calls: authorize, the guard's abort, and the guard's drop. */
  method SuperviseLocked(s: State, guard: PublicationGuard) returns (t: State)
    requires Invariant(s) && s.lock == Free && (s.supervisor == AuthLock || s.supervisor.AbortLock?)
    requires guard.control.state == s.control && guard.active == s.guardActive
    modifies guard, guard.control
    ensures Thrice(s, Supervise) == Some(t)
    ensures guard.control.state == t.control && guard.active == t.guardActive
    ensures s.worker == Asleep ==> (t.worker == Waking <==> guard.control.notifications > old(guard.control.notifications))
  {
    hide Thrice, Invariant, Joined;
    var (control, before) := (guard.control, guard.control.notifications);
    var next: SupervisorPc;
    if s.supervisor == AuthLock {
      AuthSteps(s);
      var ok := control.Authorize();
      next := if ok then SelectAuthorized else AuthFailed;
    } else {
      AbortSteps(s);
      match s.supervisor.next
      case ThenGone =>
        guard.Drop();
        next := Gone;
      case ThenAwait =>
        var won := guard.Abort();
        next := AwaitTask(won);
      case ThenReturn =>
        var _ := guard.Abort();
        next := Returned(Joined(s.worker.result, false));
    }
    var woken := if control.notifications > before then Notify(s) else s;
    t := woken.(control := control.state, guardActive := guard.active, supervisor := next);
  }

  /** The worker's calls: the transition to Ready, and the claim. */
  method WorkLocked(s: State, control: PublicationControl) returns (t: State)
    requires s.lock == Free && (s.worker == ReadyLock || s.worker == ClaimLock) && control.state == s.control
    modifies control
    ensures Thrice(s, Worker(None)) == Some(t) && control.state == t.control
  {
    var ok: bool;
    if s.worker == ReadyLock {
      ok := control.Transition(Working, Ready);
    } else {
      ok := control.ClaimPublication();
    }
    var next := if s.worker == ReadyLock then WaitLock else Renaming;
    t := s.(control := control.state, worker := if ok then next else Finished(SelfCancelled));
  }

  /** Nobody but the holder of the lock writes the word or lets go of the lock. */
  lemma HolderAloneWrites(s: State, a: Action)
    requires Invariant(s) && Apply(s, a).Some?
    ensures var t := Apply(s, a).value;
      t.control != s.control || (s.lock != Free && t.lock != s.lock) ==>
        (s.lock == WorkerHolds && a == Worker(None)) || (s.lock == SupervisorHolds && a == Supervise)
  {
    hide GuardAgrees, OutcomeAgrees, WorkerAgrees, WakeUpPending, RenamesAgree;
  }

  /** What others do while the supervisor is in the lock could as well have come before its step. */
  lemma OthersMoveBeforeSupervisor(s: State, b: Action)
    requires Invariant(s) && Apply(s, Supervise).Some? && Apply(s, Supervise).value.lock == SupervisorHolds
    requires b != Supervise && Apply(Apply(s, Supervise).value, b).Some?
    ensures Apply(s, b).Some? && Apply(Apply(s, b).value, Supervise) == Apply(Apply(s, Supervise).value, b)
  {
    SupervisorInside(s);
    hide Invariant;
    match b
    case Worker(failure) => WorkerMovesBefore(s, failure);
    case _ => hide WorkerStep;
  }

  /** Where the supervisor is when a step leaves it in the lock, and that the worker is not there too. */
  lemma SupervisorInside(s: State)
    requires Invariant(s) && Apply(s, Supervise).Some? && Apply(s, Supervise).value.lock == SupervisorHolds
    ensures s.supervisor == AuthLock || s.supervisor == AuthExchange || s.supervisor.AbortLock? || s.supervisor.AbortExchange?
    ensures !WorkerHoldsLock(s.worker)
  {
    hide GuardAgrees, OutcomeAgrees, WorkerAgrees, WakeUpPending, RenamesAgree;
  }

  lemma WorkerMovesBefore(s: State, failure: Option<WorkerResult>)
    requires s.supervisor == AuthLock || s.supervisor == AuthExchange || s.supervisor.AbortLock? || s.supervisor.AbortExchange?
    requires !WorkerHoldsLock(s.worker) && SupervisorStep(s).Some? && SupervisorStep(s).value.lock == SupervisorHolds
    requires WorkerStep(SupervisorStep(s).value, failure).Some?
    ensures WorkerStep(s, failure).Some?
    ensures SupervisorStep(WorkerStep(s, failure).value) == WorkerStep(SupervisorStep(s).value, failure)
  {}

  /** What others do before the worker's exchange could have come before it took the lock ... */
  lemma OthersMoveBeforeWorker(s: State, b: Action)
    requires Invariant(s) && s.lock == Free && Apply(s, Worker(None)).Some? && Apply(s, Worker(None)).value.lock == WorkerHolds
    requires !b.Worker? && Apply(Apply(s, Worker(None)).value, b).Some?
    ensures Apply(s, b).Some? && Apply(Apply(s, b).value, Worker(None)) == Apply(Apply(s, Worker(None)).value, b)
  {
    hide GuardAgrees, OutcomeAgrees, WakeUpPending, RenamesAgree;
  }

  /** ... and what they do after it, once the worker let go of the lock. */
  lemma OthersMoveAfterWorker(s: State, b: Action)
    requires Invariant(s) && s.lock == WorkerHolds && Apply(s, Worker(None)).Some? && Apply(s, Worker(None)).value.lock == Free
    requires !b.Worker? && Apply(s, b).Some?
    ensures var t := Apply(s, Worker(None)).value;
      Apply(t, b).Some? && Apply(t, b) == Apply(Apply(s, b).value, Worker(None))
  {
    hide GuardAgrees, OutcomeAgrees, WakeUpPending, RenamesAgree;
  }

  // ----- Safety over whole runs

  ghost predicate Next(s: State, t: State) {
    exists a :: Apply(s, a) == Some(t)
  }

  ghost predicate Continues(run: seq<State>) {
    forall i | 0 <= i < |run| - 1 :: Next(run[i], run[i + 1])
  }

  ghost predicate IsRun(run: seq<State>) {
    run != [] && run[0] == Init && Continues(run)
  }

  lemma NextKeepsInvariant(s: State, t: State)
    requires Invariant(s) && Next(s, t)
    ensures Invariant(t)
  {
    var a :| Apply(s, a) == Some(t);
    StepKeepsInvariant(s, a);
  }

  lemma {:induction false} RunInvariant(run: seq<State>, i: nat)
    requires IsRun(run) && i < |run|
    ensures Invariant(run[i])
  {
    if i == 0 {
      InitInvariant();
    } else {
      RunInvariant(run, i - 1);
      NextKeepsInvariant(run[i - 1], run[i]);
    }
  }

  /** The caller was told that the publication was cancelled. */
  predicate ReportedCancelled(s: State) {
    s.supervisor.Returned? && (s.supervisor.outcome == Cancelled || s.supervisor.outcome == FromWorker(SelfCancelled))
  }

  /** Nothing can rename any more. */
  predicate NeverRenames(s: State) {
    s.renames == 0 && (s.control == Aborted || (s.worker.Finished? && s.supervisor.Returned?)
                       || (s.worker == NotSpawned && s.supervisor != Start))
  }

  lemma NeverRenamesIsFinal(s: State, t: State)
    requires Invariant(s) && NeverRenames(s) && Next(s, t)
    ensures NeverRenames(t)
  {
    hide GuardAgrees, OutcomeAgrees, WakeUpPending, LockAgrees;
    NextKeepsInvariant(s, t);
    var a :| Apply(s, a) == Some(t);
  }

  lemma CancelledMeansNeverRenames(s: State)
    requires Invariant(s) && ReportedCancelled(s)
    ensures NeverRenames(s)
  {}

  lemma {:induction false} StaysUnrenamed(run: seq<State>, i: nat, j: nat)
    requires IsRun(run) && i <= j < |run| && NeverRenames(run[i])
    ensures NeverRenames(run[j])
    decreases j
  {
    hide NeverRenames, Invariant, Next;
    if i < j {
      StaysUnrenamed(run, i, j - 1);
      RunInvariant(run, j - 1);
      assert Next(run[j - 1], run[j]);
      NeverRenamesIsFinal(run[j - 1], run[j]);
    }
  }

  /** Once the caller was told "cancelled", the rename has not happened and never will. */
  lemma CancelledRunsNeverRename(run: seq<State>, i: nat, j: nat)
    requires IsRun(run) && i < |run| && j < |run| && ReportedCancelled(run[i])
    ensures run[j].renames == 0
  {
    RunInvariant(run, i);
    CancelledMeansNeverRenames(run[i]);
    if i <= j {
      StaysUnrenamed(run, i, j);
    } else {
      RenamesNeverShrink(run, j, i);
    }
  }

  /** A future dropped before the claim publishes nothing: an abort that won is final. */
  lemma AbortedRunsNeverRename(run: seq<State>, i: nat, j: nat)
    requires IsRun(run) && i < |run| && j < |run| && run[i].control == Aborted
    ensures run[j].renames == 0
  {
    RunInvariant(run, i);
    if i <= j {
      StaysUnrenamed(run, i, j);
    } else {
      RenamesNeverShrink(run, j, i);
    }
  }

  lemma {:induction false} RenamesNeverShrink(run: seq<State>, i: nat, j: nat)
    requires IsRun(run) && i <= j < |run|
    ensures run[i].renames <= run[j].renames
    decreases j
  {
    if i < j {
      RenamesNeverShrink(run, i, j - 1);
      assert Next(run[j - 1], run[j]);
      hide Next;
      RenameStep(run[j - 1], run[j]);
    }
  }

  lemma RenameStep(s: State, t: State)
    requires Next(s, t)
    ensures t.renames == s.renames || (t.renames == s.renames + 1 && s.worker == Renaming)
  {
    var a :| Apply(s, a) == Some(t);
  }

  /** The rename happens at most once, and only from a claimed word. */
  lemma RenamesOnceAfterClaim(run: seq<State>, i: nat)
    requires IsRun(run) && i + 1 < |run|
    ensures run[i + 1].renames <= 1
    ensures run[i + 1].renames != run[i].renames ==>
              run[i].renames == 0 && run[i].control == Claimed && run[i].worker == Renaming
  {
    RunInvariant(run, i);
    RunInvariant(run, i + 1);
    assert Next(run[i], run[i + 1]);
    hide Next;
    RenameStep(run[i], run[i + 1]);
  }

  /** The branch for a failed authorization is dead. */
  lemma AuthorizationNeverFails(run: seq<State>, i: nat)
    requires IsRun(run) && i < |run|
    ensures run[i].supervisor != AuthFailed && run[i].supervisor != AuthRelease(false)
  {
    RunInvariant(run, i);
  }

  /** After an abort that lost to the claim: waiting, dropped, or returned with the worker's own result. */
  predicate AfterLostAbort(s: State) {
    || s.supervisor == AwaitTask(false)
    || s.supervisor == Gone
    || (s.supervisor.Returned? && s.worker.Finished? && s.supervisor.outcome == Joined(s.worker.result, false))
  }

  lemma LostAbortStep(s: State, t: State)
    requires AfterLostAbort(s) && Invariant(s) && Next(s, t)
    ensures AfterLostAbort(t)
  {
    hide LockAgrees, WorkerAgrees, WakeUpPending, RenamesAgree, OutcomeAgrees;
    var a :| Apply(s, a) == Some(t);
  }

  lemma {:induction false} LostAbortStays(run: seq<State>, i: nat, j: nat)
    requires IsRun(run) && i <= j < |run| && AfterLostAbort(run[i])
    ensures AfterLostAbort(run[j])
    decreases j
  {
    hide AfterLostAbort, Invariant, Next;
    if i < j {
      LostAbortStays(run, i, j - 1);
      RunInvariant(run, j - 1);
      assert Next(run[j - 1], run[j]);
      LostAbortStep(run[j - 1], run[j]);
    }
  }

  /** An abort that loses to the claim hands back the worker's own result. */
  lemma LostAbortReturnsWorkersResult(run: seq<State>, i: nat, j: nat)
    requires IsRun(run) && i <= j < |run| && run[i].supervisor == AwaitTask(false) && run[j].supervisor.Returned?
    ensures run[j].worker.Finished?
    ensures var result := run[j].worker.result;
      run[j].supervisor.outcome == if result == Panicked then InputError else FromWorker(result)
  {
    LostAbortStays(run, i, j);
  }

  // ----- What the caller is told

  /** Only a cancellation takes the supervisor to an abort whose result it awaits, or to the answer "cancelled". */
  predicate CancelHasReason(s: State) {
    match s.supervisor
    case AbortLock(next) => next == ThenAwait ==> s.cancelled
    case AbortExchange(next) => next == ThenAwait ==> s.cancelled
    case AbortRelease(next, _, _) => next == ThenAwait ==> s.cancelled
    case AwaitTask(_) => s.cancelled
    case Returned(outcome) => outcome == Cancelled ==> s.cancelled
    case _ => true
  }

  lemma WorkerLeavesSupervisor(s: State, failure: Option<WorkerResult>)
    requires WorkerStep(s, failure).Some?
    ensures var t := WorkerStep(s, failure).value; t.supervisor == s.supervisor && t.cancelled == s.cancelled
  {}

  lemma SupervisorKeepsReason(s: State)
    requires SupervisorAgrees(s) && CancelHasReason(s) && SupervisorStep(s).Some?
    ensures CancelHasReason(SupervisorStep(s).value)
  {}

  lemma ReasonStep(s: State, t: State)
    requires Invariant(s) && CancelHasReason(s) && Next(s, t)
    ensures CancelHasReason(t)
  {
    var a :| Apply(s, a) == Some(t);
    match a {
      case Worker(failure) => WorkerLeavesSupervisor(s, failure);
      case Supervise => SupervisorKeepsReason(s);
      case _ =>
    }
    hide Invariant, WorkerStep, SupervisorStep;
  }

  lemma InitHasReason()
    ensures CancelHasReason(Init) && AbortHasReason(Init)
  {}

  lemma {:induction false} RunHasReason(run: seq<State>, i: nat)
    requires IsRun(run) && i < |run|
    ensures CancelHasReason(run[i])
  {
    hide Invariant, Next, CancelHasReason;
    InitHasReason();
    if i > 0 {
      RunHasReason(run, i - 1);
      RunInvariant(run, i - 1);
      assert Next(run[i - 1], run[i]);
      ReasonStep(run[i - 1], run[i]);
    }
  }

  /** The answer is the truth: "cancelled" only when the caller cancelled and nothing was renamed, an input error only
      for a panic, and otherwise the worker's own result, which is success exactly when the rename happened. */
  lemma AnswerIsTrue(run: seq<State>, i: nat)
    requires IsRun(run) && i < |run| && run[i].supervisor.Returned?
    ensures match run[i].supervisor.outcome
      case Cancelled => run[i].cancelled && run[i].renames == 0
      case InputError => run[i].worker == Finished(Panicked)
      case FromWorker(r) => run[i].worker == Finished(r) && r != Panicked && (r == Done ==> run[i].renames == 1)
  {
    RunInvariant(run, i);
    RunHasReason(run, i);
  }

  /** Without a cancellation the caller is told how the worker ended. */
  lemma UncancelledAnswerIsTheWorkers(run: seq<State>, i: nat)
    requires IsRun(run) && i < |run| && run[i].supervisor.Returned? && !run[i].cancelled
    ensures run[i].worker.Finished?
    ensures var result := run[i].worker.result;
      run[i].supervisor.outcome == if result == Panicked then InputError else FromWorker(result)
  {
    AnswerIsTrue(run, i);
  }

  /** Cancelled while the supervisor has not gone on to authorize. */
  predicate CancelledInTime(s: State) {
    s.cancelled && s.renames == 0 && s.control != Authorized && s.control != Claimed
    && s.supervisor != AuthLock && s.supervisor != AuthExchange && !s.supervisor.AuthRelease?
    && s.supervisor != SelectAuthorized && s.supervisor != AuthFailed
  }

  lemma InTimeStep(s: State, t: State)
    requires Invariant(s) && CancelledInTime(s) && Next(s, t)
    ensures CancelledInTime(t)
  {
    hide GuardAgrees, OutcomeAgrees, WakeUpPending, LockAgrees;
    var a :| Apply(s, a) == Some(t);
  }

  lemma InTimeStart(s: State)
    requires Invariant(s) && s.cancelled
    requires s.supervisor == Start || s.supervisor == SelectReady || s.supervisor == ReadySeen
    ensures CancelledInTime(s)
  {
    hide GuardAgrees, OutcomeAgrees, WakeUpPending, LockAgrees, WorkerAgrees;
  }

  lemma {:induction false} StaysInTime(run: seq<State>, i: nat, j: nat)
    requires IsRun(run) && i <= j < |run| && CancelledInTime(run[i])
    ensures CancelledInTime(run[j])
    decreases j
  {
    hide CancelledInTime, Invariant, Next;
    if i < j {
      StaysInTime(run, i, j - 1);
      RunInvariant(run, j - 1);
      assert Next(run[j - 1], run[j]);
      InTimeStep(run[j - 1], run[j]);
    }
  }

  /** A cancellation that the supervisor can see before it authorizes is honoured: nothing is ever authorized or renamed. */
  lemma CancellationInTimeIsHonoured(run: seq<State>, i: nat, j: nat)
    requires IsRun(run) && i <= j < |run| && run[i].cancelled
    requires run[i].supervisor == Start || run[i].supervisor == SelectReady || run[i].supervisor == ReadySeen
    ensures run[j].renames == 0 && run[j].control != Authorized
  {
    hide Invariant;
    RunInvariant(run, i);
    InTimeStart(run[i]);
    StaysInTime(run, i, j);
  }

  /** The future was dropped and its guard has aborted, or found the worker's claim. */
  predicate Dropped(p: SupervisorPc) { p == Gone || (p.AbortRelease? && p.next == ThenGone) }

  /** The word is aborted only because of a cancellation, a drop, or a worker that was through already. */
  predicate AbortHasReason(s: State) {
    s.control == Aborted ==>
      s.cancelled || Dropped(s.supervisor) || (s.worker.Finished? && (s.supervisor.Returned? || s.supervisor.AbortRelease?))
  }

  /** A worker that is past its preparation gives up only because of a cancellation or a drop. */
  predicate GivesUpWithReason(s: State) {
    s.worker != NotSpawned && s.worker != Preparing
    && (s.worker == Finished(SelfCancelled) ==> s.cancelled || Dropped(s.supervisor))
  }

  lemma WorkerKeepsAbortReason(s: State, failure: Option<WorkerResult>)
    requires WorkerAgrees(s) && AbortHasReason(s) && WorkerStep(s, failure).Some?
    ensures var t := WorkerStep(s, failure).value; AbortHasReason(t) && (GivesUpWithReason(s) ==> GivesUpWithReason(t))
  {}

  lemma SupervisorKeepsAbortReason(s: State)
    requires LockAgrees(s) && SupervisorAgrees(s) && CancelHasReason(s) && AbortHasReason(s) && SupervisorStep(s).Some?
    ensures var t := SupervisorStep(s).value; AbortHasReason(t) && (GivesUpWithReason(s) ==> GivesUpWithReason(t))
  {}

  lemma AbortReasonStep(s: State, t: State)
    requires Invariant(s) && CancelHasReason(s) && AbortHasReason(s) && Next(s, t)
    ensures AbortHasReason(t) && (GivesUpWithReason(s) ==> GivesUpWithReason(t))
  {
    var a :| Apply(s, a) == Some(t);
    match a {
      case Worker(failure) => WorkerKeepsAbortReason(s, failure);
      case Supervise => SupervisorKeepsAbortReason(s);
      case _ =>
    }
    hide OutcomeAgrees, WorkerAgrees, WakeUpPending, RenamesAgree, WorkerStep, SupervisorStep;
  }

  lemma {:induction false} RunAbortsWithReason(run: seq<State>, i: nat)
    requires IsRun(run) && i < |run|
    ensures AbortHasReason(run[i])
  {
    hide Invariant, Next, CancelHasReason, AbortHasReason, GivesUpWithReason;
    InitHasReason();
    if i > 0 {
      RunAbortsWithReason(run, i - 1);
      RunInvariant(run, i - 1);
      RunHasReason(run, i - 1);
      assert Next(run[i - 1], run[i]);
      AbortReasonStep(run[i - 1], run[i]);
    }
  }

  lemma {:induction false} StaysWithReason(run: seq<State>, i: nat, j: nat)
    requires IsRun(run) && i <= j < |run| && GivesUpWithReason(run[i])
    ensures GivesUpWithReason(run[j])
    decreases j
  {
    hide Invariant, Next, CancelHasReason, AbortHasReason, GivesUpWithReason;
    if i < j {
      StaysWithReason(run, i, j - 1);
      RunInvariant(run, j - 1);
      RunHasReason(run, j - 1);
      RunAbortsWithReason(run, j - 1);
      assert Next(run[j - 1], run[j]);
      AbortReasonStep(run[j - 1], run[j]);
    }
  }

  /** An undisturbed worker is not turned away: once it is ready, and unless it fails or panics, a caller who neither
      cancels nor drops the future is told that the publication is done, and the rename has happened. */
  lemma UndisturbedRunsPublish(run: seq<State>, i: nat, j: nat)
    requires IsRun(run) && i <= j < |run| && run[i].worker == ReadyLock
    requires run[j].supervisor.Returned? && !run[j].cancelled && run[j].worker.Finished?
    requires run[j].worker.result != Failed && run[j].worker.result != Panicked
    ensures run[j].supervisor.outcome == FromWorker(Done) && run[j].renames == 1
  {
    StaysWithReason(run, i, j);
    hide Invariant;
    UncancelledAnswerIsTheWorkers(run, j);
    AnswerIsTrue(run, j);
  }

  /** No wake-up is lost: a worker asleep although the word has moved on is about to be notified. */
  lemma NoLostWakeUp(run: seq<State>, i: nat)
    requires IsRun(run) && i < |run| && run[i].worker == Asleep && run[i].control != Ready
    ensures SupervisorStep(run[i]).Some? && SupervisorStep(run[i]).value.worker == Waking
  {
    RunInvariant(run, i);
  }

  // ----- Progress

  predicate Final(s: State) {
    && (s.supervisor.Returned? || s.supervisor == Gone)
    && (s.worker.Finished? || s.worker == NotSpawned)
  }

  function SupervisorRank(p: SupervisorPc): nat {
    match p
    case Start => 12
    case SelectReady => 11
    case ReadySeen => 10
    case AuthLock => 9
    case AuthExchange => 8
    case AuthRelease(_) => 7
    case AuthFailed => 6
    case SelectAuthorized => 5
    case AbortLock(_) => 4
    case AbortExchange(_) => 3
    case AbortRelease(_, _, _) => 2
    case AwaitTask(_) => 1
    case Returned(_) => 0
    case Gone => 0
  }

  function WorkerRank(w: WorkerPc): nat {
    match w
    case NotSpawned => 0
    case Preparing => 16
    case ReadyLock => 15
    case ReadyExchange => 14
    case ReadyRelease(_) => 13
    case WaitLock => 12
    case Waking => 12
    case WaitCheck => 11
    case Asleep => 10
    case WaitRelease(_) => 9
    case Binding => 8
    case ClaimLock => 7
    case ClaimExchange => 6
    case ClaimRelease(_) => 5
    case Renaming => 3
    case Syncing => 2
    case Finished(_) => 0
  }

  /** A step that brings the run closer to its end, whatever state it is in. */
  function Schedule(s: State): Action {
    if WorkerHoldsLock(s.worker) then Worker(None)
    else
      match s.supervisor
      case SelectReady => if s.control != Working then TakeReady else if s.worker.Finished? then TakeDone else Worker(None)
      case SelectAuthorized => if s.worker.Finished? then TakeDone else Worker(None)
      case AwaitTask(_) => if s.worker.Finished? then Supervise else Worker(None)
      case Returned(_) => Worker(None)
      case Gone => Worker(None)
      case _ => Supervise
  }

  predicate Lower(t: State, s: State) {
    || SupervisorRank(t.supervisor) < SupervisorRank(s.supervisor)
    || (t.supervisor == s.supervisor && WorkerRank(t.worker) < WorkerRank(s.worker))
  }

  /** Unless it sleeps, waits for the lock or is through, the worker can step. */
  lemma WorkerMakesProgress(s: State)
    requires s.worker != NotSpawned && !s.worker.Finished? && s.worker != Asleep
    requires s.lock == Free || WorkerHoldsLock(s.worker)
    ensures WorkerStep(s, None).Some? && Lower(WorkerStep(s, None).value, s)
  {}

  lemma SupervisorMakesProgress(s: State)
    requires Invariant(s) && Schedule(s) == Supervise
    ensures SupervisorStep(s).Some? && Lower(SupervisorStep(s).value, s)
  {
    hide RenamesAgree, OutcomeAgrees, WakeUpPending, WorkerAgrees;
  }

  /** When it is the worker's turn, it is not asleep and the lock is not in its way. */
  lemma WorkersTurn(s: State)
    requires Invariant(s) && !Final(s) && Schedule(s) == Worker(None)
    ensures s.worker != NotSpawned && !s.worker.Finished? && s.worker != Asleep
    ensures s.lock == Free || WorkerHoldsLock(s.worker)
  {
    hide RenamesAgree, OutcomeAgrees;
  }

  lemma ScheduleMakesProgress(s: State)
    requires Invariant(s) && !Final(s)
    ensures Apply(s, Schedule(s)).Some? && Lower(Apply(s, Schedule(s)).value, s)
  {
    if Schedule(s) == Supervise {
      SupervisorMakesProgress(s);
    } else if Schedule(s) == Worker(None) {
      WorkersTurn(s);
      WorkerMakesProgress(s);
    }
  }

  /** From every reachable state some run finishes: neither side can be stuck. */
  lemma {:induction false} CanAlwaysFinish(s: State) returns (run: seq<State>)
    requires Invariant(s)
    ensures run != [] && run[0] == s && Continues(run) && Final(run[|run| - 1])
    decreases SupervisorRank(s.supervisor), WorkerRank(s.worker)
  {
    if Final(s) {
      run := [s];
    } else {
      ScheduleMakesProgress(s);
      hide Schedule, Invariant;
      var t := Apply(s, Schedule(s)).value;
      StepKeepsInvariant(s, Schedule(s));
      assert Next(s, t);
      var rest := CanAlwaysFinish(t);
      run := [s] + rest;
    }
  }

  /** The supervisor alone wakes a sleeping worker: by authorizing, or by aborting when cancelled. */
  lemma {:induction false} SleeperIsReleased(s: State) returns (run: seq<State>)
    requires Invariant(s) && s.worker == Asleep
    ensures run != [] && run[0] == s
    ensures forall i | 0 <= i < |run| - 1 ::
              Apply(run[i], TakeReady) == Some(run[i + 1]) || Apply(run[i], Supervise) == Some(run[i + 1])
    ensures run[|run| - 1].worker == Waking && run[|run| - 1].control in {Authorized, Aborted}
    decreases SupervisorRank(s.supervisor)
  {
    var a := if s.supervisor == SelectReady then TakeReady else Supervise;
    SleeperStep(s);
    var t := Apply(s, a).value;
    StepKeepsInvariant(s, a);
    if t.worker == Waking {
      run := [s, t];
    } else {
      var rest := SleeperIsReleased(t);
      run := [s] + rest;
    }
  }

  lemma SleeperStep(s: State)
    requires Invariant(s) && s.worker == Asleep
    ensures var r := Apply(s, if s.supervisor == SelectReady then TakeReady else Supervise);
            && r.Some? && SupervisorRank(r.value.supervisor) < SupervisorRank(s.supervisor)
            && (r.value.worker == Asleep || (r.value.worker == Waking && r.value.control in {Authorized, Aborted}))
  {
    hide RenamesAgree, OutcomeAgrees;
  }
}
