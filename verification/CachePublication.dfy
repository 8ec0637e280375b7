/** The cache publication protocol: publishers race to link their own temporary file under one digest
    name; each publisher's supervisor commits or aborts its tentative link. */
module CachePublication {
  import opened Wrappers

  // ----- The decision and its guard

  datatype Decision = Undecided | Commit | Abort

  /** compare_exchange from Undecided: the first decision stays. */
  function Decided(current: Decision, decision: Decision): Decision {
    if current == Undecided then decision else current
  }

  /** One publisher's control object. Bodies that write the decision run under the decision lock. */
  class PublicationControl {
    var tentative: bool
    var decision: Decision
    var notifications: nat  // calls of notify_all on the decision condvar

    constructor ()
      ensures !tentative && decision == Undecided && notifications == 0
    {
      tentative, decision, notifications := false, Undecided, 0;
    }

    method MarkTentative()
      modifies this`tentative
      ensures tentative
    {
      tentative := true;
    }

    method Decide(choice: Decision)
      modifies this`decision, this`notifications
      ensures decision == Decided(old(decision), choice)
      ensures notifications == old(notifications) + if old(decision) == Undecided then 1 else 0
    {
      if decision == Undecided {
        decision := choice;
        notifications := notifications + 1;
      }
    }

    method IsAborted() returns (aborted: bool)
      ensures aborted <==> decision == Abort
    {
      aborted := decision == Abort;
    }
  }

  class PublicationDecisionGuard {
    const control: PublicationControl
    var active: bool

    constructor (control: PublicationControl)
      ensures this.control == control && active
    {
      this.control, active := control, true;
    }

    method AbortDecision()
      modifies this, control
      ensures control.decision == Decided(old(control.decision), Abort) && !active
      ensures control.notifications == old(control.notifications) + if old(control.decision) == Undecided then 1 else 0
      ensures control.tentative == old(control.tentative)
    {
      control.Decide(Abort);
      active := false;
    }

    method CommitDecision()
      modifies this, control
      ensures control.decision == Decided(old(control.decision), Commit) && !active
      ensures control.notifications == old(control.notifications) + if old(control.decision) == Undecided then 1 else 0
      ensures control.tentative == old(control.tentative)
    {
      control.Decide(Commit);
      active := false;
    }

    method DisarmWithoutDecision()
      modifies this
      ensures !active
    {
      active := false;
    }

    method Drop()
      modifies control
      ensures control.decision == if active then Decided(old(control.decision), Abort) else old(control.decision)
      ensures control.notifications == old(control.notifications) + if active && old(control.decision) == Undecided then 1 else 0
      ensures control.tentative == old(control.tentative)
    {
      if active { control.Decide(Abort); }
    }
  }

  // ----- The interleaved system

  datatype WorkerResult = OwnLink | ExistingObject | Failed | SelfCancelled | Panicked

  /** Where a publisher's blocking worker stands. Cleaning up is a stat and then an unlink by name. */
  datatype WorkerPc =
    | NotSpawned
    | Spawned
    | Linking
    | Existing
    | InspectingLink
    | Verifying
    | DecisionLock | DecisionCheck | Asleep | Waking | DecisionRelease(commit: bool)
    | CleanStat(error: WorkerResult) | CleanUnlink(error: WorkerResult) | CleanSync(error: WorkerResult)
    | Finished(result: WorkerResult)

  datatype Interruption = Cancelled | Timeout

  datatype AfterDecision = ThenInterrupted(why: Interruption) | ThenCommit | ThenGone

  datatype Outcome = Interrupted(why: Interruption) | FromWorker(result: WorkerResult)

  datatype SupervisorPc =
    | Start
    | Select
    | TentativeSeen
    | DecideLock(choice: Decision, next: AfterDecision)
    | DecideExchange(choice: Decision, next: AfterDecision)
    | DecideRelease(next: AfterDecision, changed: bool)
    | AwaitInterrupted(why: Interruption)
    | AwaitCommit
    | Returned(outcome: Outcome)
    | Gone

  datatype Holder = Free | WorkerHolds | SupervisorHolds

  datatype Publisher = Publisher(
    decision: Decision,
    tentative: bool,
    lock: Holder,
    worker: WorkerPc,
    supervisor: SupervisorPc,
    cancelled: bool,
    expired: bool,
    leaked: bool)  // an fstat, stat or unlink failed, or the worker panicked, with the link in place

  const NewPublisher := Publisher(Undecided, false, Free, NotSpawned, Start, false, false, false)

  /** The publishers and the inode the digest name is bound to. Publisher p links the inode p; any other
      number is an inode that was there before. */
  datatype State = State(publishers: seq<Publisher>, name: Option<int>)

  ghost predicate IsInit(s: State) {
    && (forall p <- s.publishers :: p == NewPublisher)
    && (s.name.Some? ==> s.name.value < 0)
  }

  datatype Action =
    | Worker       // the worker's next step
    | WorkerFails  // the same step, failing
    | WorkerPanics // a panic anywhere outside the decision lock: no cleanup runs
    | RejectLink   // the fresh link is found to be unfit
    | SpuriousWake
    | TakeInterrupted(why: Interruption) | TakeTentative | TakeDone
    | Supervise
    | DropFuture
    | Interrupt(why: Interruption)

  predicate IsInterrupted(p: Publisher, why: Interruption) {
    if why == Cancelled then p.cancelled else p.expired
  }

  /** The first interruption that current_interruption reports. */
  function CurrentInterruption(p: Publisher): Option<Interruption> {
    if p.cancelled then Some(Cancelled) else if p.expired then Some(Timeout) else None
  }

  function WorkerStep(p: Publisher, me: int, name: Option<int>): Option<(Publisher, Option<int>)> {
    match p.worker
    case Spawned =>
      Some((p.(worker := if p.decision == Abort then Finished(SelfCancelled)
                         else if CurrentInterruption(p).Some? then Finished(Failed) else Linking), name))
    case Linking => if name == None then Some((p.(worker := InspectingLink), Some(me))) else Some((p.(worker := Existing), name))
    case Existing => Some((p.(worker := Finished(ExistingObject)), name))
    case InspectingLink => Some((p.(worker := Verifying), name))
    case Verifying => Some((p.(tentative := true, worker := DecisionLock), name))
    case DecisionLock => if p.lock == Free then Some((p.(lock := WorkerHolds, worker := DecisionCheck), name)) else None
    case Waking => if p.lock == Free then Some((p.(lock := WorkerHolds, worker := DecisionCheck), name)) else None
    case DecisionCheck =>
      Some((if p.decision == Undecided then p.(lock := Free, worker := Asleep)
            else p.(worker := DecisionRelease(p.decision == Commit)), name))
    case DecisionRelease(commit) => Some((p.(lock := Free, worker := if commit then Finished(OwnLink) else CleanStat(SelfCancelled)), name))
    case CleanStat(error) => Some((p.(worker := if name == Some(me) then CleanUnlink(error) else CleanSync(error)), name))
    case CleanUnlink(error) => Some((p.(worker := CleanSync(error)), None))
    case CleanSync(error) => Some((p.(worker := Finished(error)), name))
    case _ => None
  }

  /** The steps that can fail, and what the worker does then. */
  function WorkerFailure(p: Publisher): Option<Publisher> {
    match p.worker
    case Spawned => Some(p.(worker := Finished(Failed)))
    case Linking => Some(p.(worker := Finished(Failed)))
    case Existing => Some(p.(worker := Finished(Failed)))
    case InspectingLink => Some(p.(worker := Finished(Failed), leaked := true))  // fstat fails: no cleanup
    case Verifying => Some(p.(worker := CleanStat(Failed)))
    case CleanStat(error) => Some(p.(worker := CleanSync(error), leaked := true))
    case CleanUnlink(error) => Some(p.(worker := CleanSync(error), leaked := true))
    case _ => None
  }

  /** A panic unwinds past the cleanup. */
  function WorkerPanic(p: Publisher): Option<Publisher> {
    if p.worker == NotSpawned || p.worker.Finished? || Waiting(p.worker) || p.worker.DecisionRelease? then None
    else Some(p.(worker := Finished(Panicked), leaked := p.leaked || Linked(p.worker)))
  }

  /** notify_all: a worker asleep on the condvar starts to wake. */
  function Notify(p: Publisher): Publisher {
    if p.worker == Asleep then p.(worker := Waking) else p
  }

  function SupervisorStep(p: Publisher): Option<Publisher> {
    match p.supervisor
    case Start =>
      Some(match CurrentInterruption(p)
           case Some(why) => p.(supervisor := Returned(Interrupted(why)))
           case None => p.(supervisor := Select, worker := Spawned))
    case TentativeSeen =>
      Some(p.(supervisor := match CurrentInterruption(p)
                            case Some(why) => DecideLock(Abort, ThenInterrupted(why))
                            case None => DecideLock(Commit, ThenCommit)))
    case DecideLock(choice, next) =>
      if p.lock == Free then Some(p.(lock := SupervisorHolds, supervisor := DecideExchange(choice, next))) else None
    case DecideExchange(choice, next) =>
      Some(p.(decision := Decided(p.decision, choice), supervisor := DecideRelease(next, p.decision == Undecided)))
    case DecideRelease(next, changed) =>
      var released := (if changed then Notify(p) else p).(lock := Free);
      Some(released.(supervisor := match next
                                   case ThenInterrupted(why) => AwaitInterrupted(why)
                                   case ThenCommit => AwaitCommit
                                   case ThenGone => Gone))
    case AwaitInterrupted(why) =>
      if p.worker.Finished?
      then Some(p.(supervisor := Returned(if p.worker.result == Panicked then FromWorker(Panicked) else Interrupted(why))))
      else None
    case AwaitCommit =>
      if p.worker.Finished? then Some(p.(supervisor := Returned(FromWorker(p.worker.result)))) else None
    case _ => None
  }

  /** One step of publisher `me`: its new record and the new binding of the name. */
  function Apply(p: Publisher, me: int, name: Option<int>, a: Action): Option<(Publisher, Option<int>)> {
    match a
    case Worker => WorkerStep(p, me, name)
    case RejectLink => if p.worker == InspectingLink then Some((p.(worker := CleanStat(Failed)), name)) else None
    case WorkerFails => (match WorkerFailure(p) case None => None case Some(q) => Some((q, name)))
    case WorkerPanics => (match WorkerPanic(p) case None => None case Some(q) => Some((q, name)))
    case SpuriousWake => if p.worker == Asleep then Some((p.(worker := Waking), name)) else None
    case TakeInterrupted(why) =>
      if p.supervisor == Select && IsInterrupted(p, why)
      then Some((p.(supervisor := DecideLock(Abort, ThenInterrupted(why))), name)) else None
    case TakeTentative =>
      if p.supervisor == Select && p.tentative then Some((p.(supervisor := TentativeSeen), name)) else None
    case TakeDone =>
      if p.supervisor == Select && p.worker.Finished?
      then
        var ok := p.worker.result == OwnLink || p.worker.result == ExistingObject;
        Some((p.(supervisor := Returned(if ok && CurrentInterruption(p).Some?
                                        then Interrupted(CurrentInterruption(p).value)
                                        else FromWorker(p.worker.result))), name))
      else None
    case Supervise => (match SupervisorStep(p) case None => None case Some(q) => Some((q, name)))
    case DropFuture =>
      (match p.supervisor
       case Start => Some((p.(supervisor := Gone), name))
       case Select => Some((p.(supervisor := DecideLock(Abort, ThenGone)), name))
       case AwaitInterrupted(_) => Some((p.(supervisor := Gone), name))
       case AwaitCommit => Some((p.(supervisor := Gone), name))
       case _ => None)
    case Interrupt(why) => Some((if why == Cancelled then p.(cancelled := true) else p.(expired := true), name))
  }

  ghost predicate Moves(s: State, t: State, me: nat, a: Action) {
    && me < |s.publishers|
    && var r := Apply(s.publishers[me], me, s.name, a);
       r.Some? && t == State(s.publishers[me := r.value.0], r.value.1)
  }

  ghost predicate Next(s: State, t: State) {
    exists me: nat, a :: Moves(s, t, me, a)
  }

  // ----- The inductive invariant of one publisher

  predicate WorkerHoldsLock(w: WorkerPc) { w == DecisionCheck || w.DecisionRelease? }

  predicate SupervisorHoldsLock(p: SupervisorPc) { p.DecideExchange? || p.DecideRelease? }

  predicate LockAgrees(p: Publisher) {
    && (p.lock == WorkerHolds <==> WorkerHoldsLock(p.worker))
    && (p.lock == SupervisorHolds <==> SupervisorHoldsLock(p.supervisor))
  }

  /** Places between a successful linkat and its unlink. */
  predicate Linked(w: WorkerPc) {
    || w == InspectingLink || w == Verifying || Waiting(w) || w.DecisionRelease?
    || w.CleanStat? || w.CleanUnlink? || w == Finished(OwnLink)
  }

  predicate Waiting(w: WorkerPc) { w == DecisionLock || w == DecisionCheck || w == Asleep || w == Waking }

  /** The name is bound to a publisher's inode exactly while that publisher's link stands. */
  predicate NameAgrees(p: Publisher, me: int, name: Option<int>) {
    && (name == Some(me) <==> Linked(p.worker) || p.leaked)
    && (p.leaked ==> p.worker.CleanSync? || p.worker.Finished?)
    && (p.worker == Finished(OwnLink) ==> !p.leaked)
  }

  /** What the decision and the tentative mark can be at each place of the worker. */
  predicate WorkerAgrees(p: Publisher) {
    && (p.decision == Commit ==> Waiting(p.worker) || p.worker == DecisionRelease(true) || p.worker == Finished(OwnLink))
    && (p.tentative && p.decision == Undecided ==> Waiting(p.worker))
    && (Waiting(p.worker) ==> p.tentative)
    && match p.worker
       case DecisionRelease(commit) => p.decision == if commit then Commit else Abort
       case Finished(OwnLink) => p.decision == Commit
       case CleanStat(error) => error == Failed || error == SelfCancelled
       case CleanUnlink(error) => error == Failed || error == SelfCancelled
       case CleanSync(error) => error == Failed || error == SelfCancelled
       case NotSpawned => p.decision == Undecided && !p.tentative
       case _ => true
  }

  predicate SupervisorAgrees(p: Publisher) {
    match p.supervisor
    case Start => p.decision == Undecided && p.worker == NotSpawned
    case Select => p.decision == Undecided && p.worker != NotSpawned
    case TentativeSeen => p.decision == Undecided && p.tentative
    case DecideLock(choice, next) => ChoiceAgrees(p, choice, next)
    case DecideExchange(choice, next) => ChoiceAgrees(p, choice, next)
    case DecideRelease(next, changed) => changed && p.decision == (if next == ThenCommit then Commit else Abort)
    case AwaitInterrupted(_) => p.decision == Abort
    case AwaitCommit => p.decision == Commit
    case Returned(Interrupted(_)) => p.worker == NotSpawned || (p.worker.Finished? && p.decision != Commit)
    case Returned(FromWorker(r)) => p.worker == Finished(r)
    case Gone => p.worker == NotSpawned || p.decision != Undecided
  }

  predicate ChoiceAgrees(p: Publisher, choice: Decision, next: AfterDecision) {
    && p.decision == Undecided && p.worker != NotSpawned
    && choice == (if next == ThenCommit then Commit else Abort)
    && (next == ThenCommit ==> p.tentative)
  }

  /** A wake-up is never lost. */
  predicate WakeUpPending(p: Publisher) {
    p.worker == Asleep && p.decision != Undecided ==> p.supervisor.DecideRelease? && p.supervisor.changed
  }

  predicate PublisherInvariant(p: Publisher, me: int, name: Option<int>) {
    LockAgrees(p) && NameAgrees(p, me, name) && WorkerAgrees(p) && SupervisorAgrees(p) && WakeUpPending(p)
  }

  lemma WorkerKeepsLock(p: Publisher, me: int, name: Option<int>)
    requires LockAgrees(p) && WorkerStep(p, me, name).Some?
    ensures LockAgrees(WorkerStep(p, me, name).value.0)
  {}

  lemma WorkerKeepsName(p: Publisher, me: int, name: Option<int>)
    requires NameAgrees(p, me, name) && WorkerAgrees(p) && WorkerStep(p, me, name).Some?
    ensures var (q, name') := WorkerStep(p, me, name).value; NameAgrees(q, me, name')
  {}

  lemma WorkerKeepsDecision(p: Publisher, me: int, name: Option<int>)
    requires WorkerAgrees(p) && SupervisorAgrees(p) && WorkerStep(p, me, name).Some?
    requires p.worker == Verifying ==> !p.leaked
    ensures WorkerAgrees(WorkerStep(p, me, name).value.0)
  {}

  lemma WorkerLeavesSupervisor(p: Publisher, me: int, name: Option<int>)
    requires WorkerStep(p, me, name).Some?
    ensures var q := WorkerStep(p, me, name).value.0;
            && q.supervisor == p.supervisor && q.decision == p.decision && (p.tentative ==> q.tentative)
            && p.worker != NotSpawned && q.worker != NotSpawned && !p.worker.Finished?
  {}

  lemma WorkerKeepsSupervisor(p: Publisher, me: int, name: Option<int>)
    requires SupervisorAgrees(p) && WorkerStep(p, me, name).Some?
    ensures SupervisorAgrees(WorkerStep(p, me, name).value.0)
  {
    hide WorkerStep;
    WorkerLeavesSupervisor(p, me, name);
  }

  lemma WorkerKeepsWakeUp(p: Publisher, me: int, name: Option<int>)
    requires LockAgrees(p) && WakeUpPending(p) && WorkerStep(p, me, name).Some?
    ensures WakeUpPending(WorkerStep(p, me, name).value.0)
  {}

  lemma SupervisorKeepsName(p: Publisher, me: int, name: Option<int>)
    requires LockAgrees(p) && NameAgrees(p, me, name) && SupervisorAgrees(p) && SupervisorStep(p).Some?
    ensures var q := SupervisorStep(p).value; LockAgrees(q) && NameAgrees(q, me, name)
  {}

  lemma SupervisorKeepsDecision(p: Publisher)
    requires LockAgrees(p) && WorkerAgrees(p) && SupervisorAgrees(p) && SupervisorStep(p).Some?
    ensures WorkerAgrees(SupervisorStep(p).value)
  {}

  lemma SupervisorKeepsSupervisor(p: Publisher)
    requires WorkerAgrees(p) && SupervisorAgrees(p) && WakeUpPending(p) && SupervisorStep(p).Some?
    ensures var q := SupervisorStep(p).value; SupervisorAgrees(q) && WakeUpPending(q)
  {}

  lemma OtherKeepsName(p: Publisher, me: int, name: Option<int>, a: Action)
    requires LockAgrees(p) && NameAgrees(p, me, name) && Apply(p, me, name, a).Some? && a != Worker && a != Supervise
    ensures var (q, name') := Apply(p, me, name, a).value; LockAgrees(q) && NameAgrees(q, me, name')
  {}

  lemma OtherKeepsSupervisor(p: Publisher, me: int, name: Option<int>, a: Action)
    requires WorkerAgrees(p) && SupervisorAgrees(p) && Apply(p, me, name, a).Some? && a != Worker && a != Supervise
    ensures SupervisorAgrees(Apply(p, me, name, a).value.0)
  {}

  lemma OtherKeepsWakeUp(p: Publisher, me: int, name: Option<int>, a: Action)
    requires SupervisorAgrees(p) && WakeUpPending(p) && Apply(p, me, name, a).Some? && a != Worker && a != Supervise
    ensures WakeUpPending(Apply(p, me, name, a).value.0)
  {}

  lemma FailureKeepsDecision(p: Publisher)
    requires WorkerAgrees(p)
    ensures WorkerFailure(p).Some? ==> WorkerAgrees(WorkerFailure(p).value)
    ensures WorkerPanic(p).Some? ==> WorkerAgrees(WorkerPanic(p).value)
  {}

  lemma OtherKeepsDecision(p: Publisher, me: int, name: Option<int>, a: Action)
    requires WorkerAgrees(p) && Apply(p, me, name, a).Some? && a != Worker && a != Supervise
    ensures WorkerAgrees(Apply(p, me, name, a).value.0)
  {
    FailureKeepsDecision(p);
    hide WorkerStep, SupervisorStep, WorkerFailure, WorkerPanic;
  }

  lemma StepKeepsInvariant(p: Publisher, me: int, name: Option<int>, a: Action)
    requires PublisherInvariant(p, me, name) && Apply(p, me, name, a).Some?
    ensures var (q, name') := Apply(p, me, name, a).value; PublisherInvariant(q, me, name')
  {
    assert p.worker == Verifying ==> !p.leaked;
    hide LockAgrees, NameAgrees, WorkerAgrees, SupervisorAgrees, WakeUpPending;
    match a
    case Worker =>
      WorkerKeepsLock(p, me, name);
      WorkerKeepsName(p, me, name);
      WorkerKeepsDecision(p, me, name);
      WorkerKeepsSupervisor(p, me, name);
      WorkerKeepsWakeUp(p, me, name);
    case Supervise =>
      SupervisorKeepsName(p, me, name);
      SupervisorKeepsDecision(p);
      SupervisorKeepsSupervisor(p);
    case _ =>
      OtherKeepsName(p, me, name, a);
      OtherKeepsSupervisor(p, me, name, a);
      OtherKeepsWakeUp(p, me, name, a);
      OtherKeepsDecision(p, me, name, a);
  }

  // ----- The methods are the steps

  function Thrice(p: Publisher): Option<Publisher> {
    match SupervisorStep(p)
    case None => None
    case Some(q) => match SupervisorStep(q) case None => None case Some(x) => SupervisorStep(x)
  }

  predicate ControlAgrees(control: PublicationControl, p: Publisher)
    reads control
  {
    control.decision == p.decision && control.tentative == p.tentative
  }

  lemma DecideSteps(p: Publisher)
    requires p.lock == Free && p.supervisor.DecideLock?
    ensures var woken := if p.decision == Undecided then Notify(p) else p;
      Thrice(p) == Some(woken.(decision := Decided(p.decision, p.supervisor.choice), supervisor :=
        match p.supervisor.next
        case ThenInterrupted(why) => AwaitInterrupted(why)
        case ThenCommit => AwaitCommit
        case ThenGone => Gone))
  {}

  /** The guard's abort, commit and drop: taking the lock, the exchange with its wake-up, and the release. */
  method DecideLocked(p: Publisher, guard: PublicationDecisionGuard) returns (q: Publisher)
    requires p.lock == Free && p.supervisor.DecideLock? && SupervisorAgrees(p)
    requires ControlAgrees(guard.control, p) && guard.active
    modifies guard, guard.control
    ensures Thrice(p) == Some(q) && ControlAgrees(guard.control, q)
    ensures guard.active <==> q.supervisor == Gone
    ensures p.worker == Asleep ==> (q.worker == Waking <==> guard.control.notifications > old(guard.control.notifications))
  {
    hide Thrice, SupervisorStep;
    DecideSteps(p);
    var (control, before) := (guard.control, guard.control.notifications);
    var next: SupervisorPc;
    match p.supervisor.next {
      case ThenInterrupted(why) =>
        guard.AbortDecision();
        next := AwaitInterrupted(why);
      case ThenCommit =>
        guard.CommitDecision();
        next := AwaitCommit;
      case ThenGone =>
        guard.Drop();
        next := Gone;
    }
    var woken := if control.notifications > before then Notify(p) else p;
    q := woken.(decision := control.decision, supervisor := next);
  }

  /** The worker's first look at the decision, and its mark that the link is verified. */
  method WorkOnControl(p: Publisher, me: int, name: Option<int>, control: PublicationControl) returns (q: Publisher)
    requires (p.worker == Spawned || p.worker == Verifying) && ControlAgrees(control, p)
    modifies control
    ensures WorkerStep(p, me, name) == Some((q, name)) && ControlAgrees(control, q)
  {
    if p.worker == Spawned {
      var aborted := control.IsAborted();
      var next := if CurrentInterruption(p).Some? then Finished(Failed) else Linking;
      q := p.(worker := if aborted then Finished(SelfCancelled) else next);
    } else {
      control.MarkTentative();
      q := p.(tentative := control.tentative, worker := DecisionLock);
    }
  }

  /** The worker is through before any decision: the guard is disarmed, and its drop decides nothing. */
  method TakeResult(p: Publisher, me: int, name: Option<int>, guard: PublicationDecisionGuard) returns (q: Publisher)
    requires p.supervisor == Select && p.worker.Finished? && ControlAgrees(guard.control, p)
    modifies guard, guard.control
    ensures Apply(p, me, name, TakeDone) == Some((q, name)) && ControlAgrees(guard.control, q)
  {
    guard.DisarmWithoutDecision();
    var result := p.worker.result;
    var interruption := CurrentInterruption(p);
    if (result == OwnLink || result == ExistingObject) && interruption.Some? {
      q := p.(supervisor := Returned(Interrupted(interruption.value)));
    } else {
      q := p.(supervisor := Returned(FromWorker(result)));
    }
    guard.Drop();
  }

  /** Only a supervisor in the lock decides. */
  lemma HolderAloneDecides(p: Publisher, me: int, name: Option<int>, a: Action)
    requires PublisherInvariant(p, me, name) && Apply(p, me, name, a).Some?
    ensures Apply(p, me, name, a).value.0.decision != p.decision ==> p.lock == SupervisorHolds && a == Supervise
  {
    hide NameAgrees, WorkerAgrees, WakeUpPending;
  }

  predicate InDecision(p: Publisher) {
    && (p.supervisor.DecideLock? || p.supervisor.DecideExchange?) && !WorkerHoldsLock(p.worker)
    && SupervisorStep(p).Some? && SupervisorStep(p).value.lock == SupervisorHolds
  }

  lemma SupervisorInside(p: Publisher, me: int, name: Option<int>)
    requires PublisherInvariant(p, me, name) && SupervisorStep(p).Some? && SupervisorStep(p).value.lock == SupervisorHolds
    ensures InDecision(p)
  {
    hide NameAgrees, WorkerAgrees, WakeUpPending;
  }

  lemma WorkerMovesBefore(p: Publisher, me: int, name: Option<int>)
    requires InDecision(p) && (p.worker == Spawned ==> p.lock == Free)
    requires WorkerStep(SupervisorStep(p).value, me, name).Some?
    ensures var (q, name') := WorkerStep(SupervisorStep(p).value, me, name).value;
      && WorkerStep(p, me, name).Some? && WorkerStep(p, me, name).value.1 == name'
      && SupervisorStep(WorkerStep(p, me, name).value.0) == Some(q)
  {}

  lemma FailureMovesBefore(p: Publisher)
    requires InDecision(p)
    ensures var q := SupervisorStep(p).value;
      && (WorkerFailure(q).Some? ==> WorkerFailure(p).Some? && SupervisorStep(WorkerFailure(p).value) == WorkerFailure(q))
      && (WorkerPanic(q).Some? ==> WorkerPanic(p).Some? && SupervisorStep(WorkerPanic(p).value) == WorkerPanic(q))
  {}

  /** What others do while a supervisor is in the lock could as well have come before its step, but for a worker that
      looks at the decision for the first time, which does so without the lock ... */
  lemma OthersMoveBeforeSupervisor(p: Publisher, me: int, name: Option<int>, b: Action)
    requires PublisherInvariant(p, me, name) && SupervisorStep(p).Some? && SupervisorStep(p).value.lock == SupervisorHolds
    requires b != Supervise && (p.worker == Spawned && b == Worker ==> p.lock == Free)
    requires Apply(SupervisorStep(p).value, me, name, b).Some?
    ensures var (q, name') := Apply(SupervisorStep(p).value, me, name, b).value;
      && Apply(p, me, name, b).Some? && Apply(p, me, name, b).value.1 == name'
      && SupervisorStep(Apply(p, me, name, b).value.0) == Some(q)
  {
    SupervisorInside(p, me, name);
    hide PublisherInvariant, WorkerStep, WorkerFailure, WorkerPanic, SupervisorStep;
    match b
    case Worker => WorkerMovesBefore(p, me, name);
    case WorkerFails => FailureMovesBefore(p);
    case WorkerPanics => FailureMovesBefore(p);
    case _ => OtherMovesBefore(p, me, name, b);
  }

  lemma OtherMovesBefore(p: Publisher, me: int, name: Option<int>, b: Action)
    requires InDecision(p) && b !in {Worker, WorkerFails, WorkerPanics, Supervise}
    requires Apply(SupervisorStep(p).value, me, name, b).Some?
    ensures var (q, name') := Apply(SupervisorStep(p).value, me, name, b).value;
      && Apply(p, me, name, b).Some? && Apply(p, me, name, b).value.1 == name'
      && SupervisorStep(Apply(p, me, name, b).value.0) == Some(q)
  {
    hide WorkerStep, WorkerFailure, WorkerPanic;
  }

  /** ... and whose look could as well have come after the release. */
  lemma FirstLookMovesAfterSupervisor(p: Publisher, me: int, name: Option<int>)
    requires p.supervisor.DecideRelease? && p.worker == Spawned
    ensures WorkerStep(p, me, name).Some? && SupervisorStep(p).Some?
    ensures var q := WorkerStep(p, me, name).value.0;
      SupervisorStep(q).Some? && WorkerStep(SupervisorStep(p).value, me, name) == Some((SupervisorStep(q).value, name))
  {}

  // ----- All publishers together

  ghost predicate Invariant(s: State) {
    forall i | 0 <= i < |s.publishers| :: PublisherInvariant(s.publishers[i], i, s.name)
  }

  /** A step changes the binding only from nothing to the mover's inode, or from that to nothing. */
  lemma StepMovesOwnLink(p: Publisher, me: int, name: Option<int>, a: Action)
    requires PublisherInvariant(p, me, name) && Apply(p, me, name, a).Some?
    ensures var name' := Apply(p, me, name, a).value.1;
            name' == name || (name == None && name' == Some(me)) || (name == Some(me) && name' == None)
  {
    hide LockAgrees, WorkerAgrees, SupervisorAgrees, WakeUpPending;
  }

  /** The other publishers do not notice. */
  lemma OthersKeepInvariant(q: Publisher, other: int, me: int, name: Option<int>, name': Option<int>)
    requires PublisherInvariant(q, other, name) && other != me
    requires name' == name || (name == None && name' == Some(me)) || (name == Some(me) && name' == None)
    ensures PublisherInvariant(q, other, name')
  {
    hide LockAgrees, WorkerAgrees, SupervisorAgrees, WakeUpPending;
  }

  lemma MoveKeepsInvariant(s: State, t: State, me: nat, a: Action)
    requires Invariant(s) && Moves(s, t, me, a)
    ensures Invariant(t)
  {
    hide PublisherInvariant, Apply;
    StepKeepsInvariant(s.publishers[me], me, s.name, a);
    StepMovesOwnLink(s.publishers[me], me, s.name, a);
    forall i | 0 <= i < |t.publishers| ensures PublisherInvariant(t.publishers[i], i, t.name) {
      if i != me {
        OthersKeepInvariant(s.publishers[i], i, me, s.name, t.name);
      }
    }
  }

  lemma InitInvariant(s: State)
    requires IsInit(s)
    ensures Invariant(s)
  {
    forall i | 0 <= i < |s.publishers| ensures PublisherInvariant(s.publishers[i], i, s.name) {
      assert s.publishers[i] in s.publishers;
    }
  }

  // ----- Safety over whole runs

  ghost predicate Continues(run: seq<State>) {
    forall i | 0 <= i < |run| - 1 :: Next(run[i], run[i + 1])
  }

  ghost predicate IsRun(run: seq<State>) {
    run != [] && IsInit(run[0]) && Continues(run)
  }

  lemma {:induction false} RunInvariant(run: seq<State>, i: nat)
    requires IsRun(run) && i < |run|
    ensures Invariant(run[i]) && |run[i].publishers| == |run[0].publishers|
  {
    hide Invariant, Apply, IsInit;
    if i == 0 {
      InitInvariant(run[0]);
    } else {
      RunInvariant(run, i - 1);
      assert Next(run[i - 1], run[i]);
      var me: nat, a :| Moves(run[i - 1], run[i], me, a);
      MoveKeepsInvariant(run[i - 1], run[i], me, a);
    }
  }

  /** However many publishers race, at most one of them has its inode bound, and one that is about to
      unlink finds its own inode there; so does one that is about to stat. */
  lemma UnlinkSeesOwnLink(run: seq<State>, i: nat, me: nat, other: nat)
    requires IsRun(run) && i < |run| && me < |run[i].publishers| && other < |run[i].publishers| && me != other
    ensures var s := run[i]; var (p, q) := (s.publishers[me], s.publishers[other]);
            && (p.worker.CleanUnlink? || p.worker.CleanStat? ==> s.name == Some(me as int))
            && !((Linked(p.worker) || p.leaked) && (Linked(q.worker) || q.leaked))
  {
    RunInvariant(run, i);
    var s := run[i];
    assert PublisherInvariant(s.publishers[me], me, s.name) && PublisherInvariant(s.publishers[other], other, s.name);
    hide LockAgrees, WorkerAgrees, SupervisorAgrees, WakeUpPending;
  }

  /** When a worker is done and nothing leaked, its link stands if and only if the decision is to commit. */
  lemma LinkSurvivesIffCommitted(run: seq<State>, i: nat, me: nat)
    requires IsRun(run) && i < |run| && me < |run[i].publishers|
    requires run[i].publishers[me].worker.Finished? && !run[i].publishers[me].leaked
    ensures run[i].name == Some(me as int) <==> run[i].publishers[me].decision == Commit
  {
    RunInvariant(run, i);
    assert PublisherInvariant(run[i].publishers[me], me, run[i].name);
  }

  // What one step can do to one publisher's final facts.

  lemma FailureLeavesDecision(p: Publisher)
    ensures WorkerFailure(p).Some? ==> WorkerFailure(p).value.decision == p.decision && !p.worker.Finished?
    ensures WorkerPanic(p).Some? ==> WorkerPanic(p).value.decision == p.decision && !p.worker.Finished?
  {}

  lemma DecisionIsWriteOnce(p: Publisher, me: int, name: Option<int>, a: Action)
    requires PublisherInvariant(p, me, name) && Apply(p, me, name, a).Some?
    ensures p.decision != Undecided ==> Apply(p, me, name, a).value.0.decision == p.decision
    ensures p.worker.Finished? ==> Apply(p, me, name, a).value.0.worker == p.worker
    ensures p.worker.Finished? ==> Apply(p, me, name, a).value.0.leaked == p.leaked
  {
    hide LockAgrees, WorkerAgrees, NameAgrees, WakeUpPending;
    if a == Worker { WorkerLeavesSupervisor(p, me, name); }
    FailureLeavesDecision(p);
    hide WorkerStep, WorkerFailure, WorkerPanic;
  }

  predicate IsCommitted(s: State, me: nat) {
    me < |s.publishers| && s.publishers[me].decision == Commit
  }

  lemma CommitStays(s: State, t: State, me: nat)
    requires Invariant(s) && Next(s, t) && IsCommitted(s, me)
    ensures IsCommitted(t, me)
  {
    hide PublisherInvariant, Apply;
    var mover: nat, a :| Moves(s, t, mover, a);
    DecisionIsWriteOnce(s.publishers[mover], mover, s.name, a);
  }

  /** A committed link is never removed, by anyone, for the rest of the run. */
  lemma {:induction false} CommittedLinkStays(run: seq<State>, i: nat, j: nat, me: nat)
    requires IsRun(run) && i <= j < |run| && IsCommitted(run[i], me)
    ensures IsCommitted(run[j], me) && run[j].name == Some(me as int)
    decreases j
  {
    if i < j {
      CommittedLinkStays(run, i, j - 1, me);
      RunInvariant(run, j - 1);
      assert Next(run[j - 1], run[j]);
      hide Invariant, Next;
      CommitStays(run[j - 1], run[j], me);
    }
    RunInvariant(run, j);
    CommittedIsLinked(run[j], me);
  }

  lemma CommittedIsLinked(s: State, me: nat)
    requires Invariant(s) && IsCommitted(s, me)
    ensures s.name == Some(me as int)
  {
    assert PublisherInvariant(s.publishers[me], me, s.name);
    hide LockAgrees, SupervisorAgrees, WakeUpPending;
  }

  /** An inode that no publisher made is never unlinked. */
  lemma {:induction false} ForeignLinkStays(run: seq<State>, i: nat, j: nat)
    requires IsRun(run) && i <= j < |run| && run[i].name.Some? && run[i].name.value < 0
    ensures run[j].name == run[i].name
    decreases j
  {
    hide PublisherInvariant, Apply;
    if i < j {
      ForeignLinkStays(run, i, j - 1);
      RunInvariant(run, j - 1);
      assert Next(run[j - 1], run[j]);
      var mover: nat, a :| Moves(run[j - 1], run[j], mover, a);
      StepMovesOwnLink(run[j - 1].publishers[mover], mover, run[j - 1].name, a);
    }
  }

  /** Told "cancelled" or "timeout", or dropped and aborted, with the worker through. */
  predicate GaveUp(s: State, me: nat) {
    && me < |s.publishers|
    && var p := s.publishers[me];
       && !p.leaked
       && (p.worker == NotSpawned || p.worker.Finished?)
       && ((p.supervisor.Returned? && p.supervisor.outcome.Interrupted?) || (p.supervisor == Gone && p.decision != Commit))
  }

  /** A supervisor that reported an interruption has waited for its worker. */
  lemma InterruptionMeansGaveUp(run: seq<State>, i: nat, me: nat)
    requires IsRun(run) && i < |run| && me < |run[i].publishers| && !run[i].publishers[me].leaked
    requires run[i].publishers[me].supervisor.Returned? && run[i].publishers[me].supervisor.outcome.Interrupted?
    ensures GaveUp(run[i], me)
  {
    RunInvariant(run, i);
    assert PublisherInvariant(run[i].publishers[me], me, run[i].name);
  }

  lemma GaveUpStep(p: Publisher, me: int, name: Option<int>, a: Action)
    requires PublisherInvariant(p, me, name) && Apply(p, me, name, a).Some?
    requires !p.leaked && (p.worker == NotSpawned || p.worker.Finished?)
    requires (p.supervisor.Returned? && p.supervisor.outcome.Interrupted?) || (p.supervisor == Gone && p.decision != Commit)
    ensures var q := Apply(p, me, name, a).value.0;
            && q.worker == p.worker && q.leaked == p.leaked && q.supervisor == p.supervisor && q.decision == p.decision
  {
    hide LockAgrees, WorkerAgrees, NameAgrees, WakeUpPending;
  }

  /** Whoever gave up has no link of its own, then and for the rest of the run. */
  lemma {:induction false} GivingUpLeavesNoLink(run: seq<State>, i: nat, j: nat, me: nat)
    requires IsRun(run) && i <= j < |run| && GaveUp(run[i], me)
    ensures GaveUp(run[j], me) && run[j].name != Some(me as int)
    decreases j
  {
    hide Invariant, Next, GaveUp;
    RunInvariant(run, j);
    if i < j {
      GivingUpLeavesNoLink(run, i, j - 1, me);
      RunInvariant(run, j - 1);
      assert Next(run[j - 1], run[j]);
      GaveUpStays(run[j - 1], run[j], me);
    }
    GaveUpHasNoLink(run[j], me);
  }

  lemma GaveUpStays(s: State, t: State, me: nat)
    requires Invariant(s) && Next(s, t) && GaveUp(s, me)
    ensures GaveUp(t, me)
  {
    hide PublisherInvariant, Apply;
    var mover: nat, a :| Moves(s, t, mover, a);
    if mover == me {
      GaveUpStep(s.publishers[me], me, s.name, a);
    }
  }

  lemma GaveUpHasNoLink(s: State, me: nat)
    requires Invariant(s) && GaveUp(s, me)
    ensures s.name != Some(me as int)
  {
    assert PublisherInvariant(s.publishers[me], me, s.name);
    hide LockAgrees, WakeUpPending;
  }

  // ----- What a publisher reports, and why it aborts

  predicate Happened(p: Publisher, why: Interruption) {
    match why
    case Cancelled => p.cancelled
    case Timeout => p.expired
  }

  /** An interruption that is acted on has happened. */
  predicate InterruptionHasReason(p: Publisher) {
    match p.supervisor
    case DecideLock(_, ThenInterrupted(why)) => Happened(p, why)
    case DecideExchange(_, ThenInterrupted(why)) => Happened(p, why)
    case DecideRelease(ThenInterrupted(why), _) => Happened(p, why)
    case AwaitInterrupted(why) => Happened(p, why)
    case Returned(Interrupted(why)) => Happened(p, why) && p.worker != Finished(Panicked)
    case _ => true
  }

  predicate Dropped(p: SupervisorPc) { p == Gone || (p.DecideRelease? && p.next == ThenGone) }

  predicate AbortHasReason(p: Publisher) {
    p.decision == Abort ==> p.cancelled || p.expired || Dropped(p.supervisor)
  }

  /** A worker that cancels itself saw an abort. */
  predicate SelfCancelHasReason(p: Publisher) {
    p.worker in {Finished(SelfCancelled), CleanStat(SelfCancelled), CleanUnlink(SelfCancelled), CleanSync(SelfCancelled)} ==>
      p.decision == Abort
  }

  predicate Reasons(p: Publisher) { InterruptionHasReason(p) && AbortHasReason(p) && SelfCancelHasReason(p) }

  lemma WorkerKeepsReasons(p: Publisher, me: int, name: Option<int>)
    requires WorkerAgrees(p) && SupervisorAgrees(p) && Reasons(p) && WorkerStep(p, me, name).Some?
    ensures Reasons(WorkerStep(p, me, name).value.0)
  {
    WorkerLeavesSupervisor(p, me, name);
    WorkerLeavesInterruptions(p, me, name);
    WorkerSelfCancels(p, me, name);
    hide WorkerStep, WorkerAgrees, SelfCancelHasReason;
  }

  lemma WorkerSelfCancels(p: Publisher, me: int, name: Option<int>)
    requires WorkerAgrees(p) && SelfCancelHasReason(p) && WorkerStep(p, me, name).Some?
    ensures SelfCancelHasReason(WorkerStep(p, me, name).value.0)
  {}

  lemma SupervisorKeepsReasons(p: Publisher)
    requires SupervisorAgrees(p) && WorkerAgrees(p) && Reasons(p) && SupervisorStep(p).Some?
    ensures Reasons(SupervisorStep(p).value)
  {}

  lemma StepKeepsReasons(p: Publisher, me: int, name: Option<int>, a: Action)
    requires PublisherInvariant(p, me, name) && Reasons(p) && Apply(p, me, name, a).Some?
    ensures Reasons(Apply(p, me, name, a).value.0)
  {
    hide LockAgrees, NameAgrees, WakeUpPending;
    match a {
      case Worker => WorkerKeepsReasons(p, me, name);
      case Supervise => SupervisorKeepsReasons(p);
      case _ =>
    }
    hide WorkerStep, SupervisorStep;
  }

  lemma {:induction false} RunHasReasons(run: seq<State>, i: nat, me: nat)
    requires IsRun(run) && i < |run| && me < |run[i].publishers|
    ensures Reasons(run[i].publishers[me])
  {
    hide PublisherInvariant, Apply, Reasons;
    RunInvariant(run, i);
    NewHasReasons();
    if i == 0 {
      assert run[0].publishers[me] in run[0].publishers;
    } else {
      RunInvariant(run, i - 1);
      RunHasReasons(run, i - 1, me);
      assert Next(run[i - 1], run[i]);
      var mover: nat, a :| Moves(run[i - 1], run[i], mover, a);
      if mover == me { StepKeepsReasons(run[i - 1].publishers[me], me, run[i - 1].name, a); }
    }
  }

  lemma NewHasReasons()
    ensures Reasons(NewPublisher)
  {}

  /** The report is the truth: an interruption that is reported is the one that happened and hides no panic; otherwise
      the report is the worker's own result, and a link reported as the publisher's own is committed and stands. */
  lemma ReportIsTrue(run: seq<State>, i: nat, me: nat)
    requires IsRun(run) && i < |run| && me < |run[i].publishers| && run[i].publishers[me].supervisor.Returned?
    ensures var p := run[i].publishers[me];
      match p.supervisor.outcome
      case Interrupted(Cancelled) => p.cancelled && p.worker != Finished(Panicked)
      case Interrupted(Timeout) => p.expired && p.worker != Finished(Panicked)
      case FromWorker(r) =>
        && p.worker == Finished(r)
        && (r == OwnLink ==> p.decision == Commit && run[i].name == Some(me as int))
        && (r == SelfCancelled ==> p.decision == Abort)
  {
    RunInvariant(run, i);
    RunHasReasons(run, i, me);
    assert PublisherInvariant(run[i].publishers[me], me, run[i].name);
  }

  /** A link is given up only for a reason: a publisher aborts only if it was cancelled, ran out of time or was dropped. */
  lemma AbortsOnlyWithReason(run: seq<State>, i: nat, me: nat)
    requires IsRun(run) && i < |run| && me < |run[i].publishers| && run[i].publishers[me].decision == Abort
    ensures var p := run[i].publishers[me];
      p.cancelled || p.expired || p.supervisor == Gone || (p.supervisor.DecideRelease? && p.supervisor.next == ThenGone)
  {
    RunHasReasons(run, i, me);
  }

  /** Where the supervisor looks for an interruption, cancellation goes before the deadline, and without either the
      publisher goes on: it starts the worker, commits the verified link, and hands out the worker's result. A worker's
      failure is handed out whatever else happened. */
  lemma InterruptionsAreOrdered(p: Publisher, me: int, name: Option<int>)
    ensures p.supervisor == Start ==> SupervisorStep(p) == Some(
      if p.cancelled then p.(supervisor := Returned(Interrupted(Cancelled)))
      else if p.expired then p.(supervisor := Returned(Interrupted(Timeout)))
      else p.(supervisor := Select, worker := Spawned))
    ensures p.supervisor == TentativeSeen ==> SupervisorStep(p) == Some(p.(supervisor :=
      if p.cancelled then DecideLock(Abort, ThenInterrupted(Cancelled))
      else if p.expired then DecideLock(Abort, ThenInterrupted(Timeout))
      else DecideLock(Commit, ThenCommit)))
    ensures p.supervisor == Select && p.worker.Finished? ==>
      Apply(p, me, name, TakeDone) == Some((p.(supervisor := Returned(
        if p.worker.result != OwnLink && p.worker.result != ExistingObject then FromWorker(p.worker.result)
        else if p.cancelled then Interrupted(Cancelled)
        else if p.expired then Interrupted(Timeout)
        else FromWorker(p.worker.result))), name))
    ensures Apply(p, me, name, Interrupt(Cancelled)) == Some((p.(cancelled := true), name))
    ensures Apply(p, me, name, Interrupt(Timeout)) == Some((p.(expired := true), name))
  {}

  /** Interrupted before the supervisor has chosen to commit. */
  predicate InterruptedInTime(p: Publisher) {
    && (p.cancelled || p.expired) && p.decision != Commit && p.supervisor != AwaitCommit
    && (p.supervisor.DecideLock? || p.supervisor.DecideExchange? ==> p.supervisor.choice != Commit)
  }

  lemma InTimeStep(p: Publisher, me: int, name: Option<int>, a: Action)
    requires PublisherInvariant(p, me, name) && InterruptedInTime(p) && Apply(p, me, name, a).Some?
    ensures InterruptedInTime(Apply(p, me, name, a).value.0)
  {
    hide LockAgrees, NameAgrees, WakeUpPending, WorkerAgrees;
    if a == Worker { WorkerLeavesSupervisor(p, me, name); }
    if a == Worker { WorkerLeavesInterruptions(p, me, name); }
    hide WorkerStep;
  }

  lemma WorkerLeavesInterruptions(p: Publisher, me: int, name: Option<int>)
    requires WorkerStep(p, me, name).Some?
    ensures var q := WorkerStep(p, me, name).value.0; q.cancelled == p.cancelled && q.expired == p.expired
  {}

  lemma {:induction false} StaysInTime(run: seq<State>, i: nat, j: nat, me: nat)
    requires IsRun(run) && i <= j < |run| && me < |run[i].publishers| && InterruptedInTime(run[i].publishers[me])
    ensures me < |run[j].publishers| && InterruptedInTime(run[j].publishers[me])
    decreases j
  {
    hide PublisherInvariant, Apply, InterruptedInTime;
    if i < j {
      StaysInTime(run, i, j - 1, me);
      RunInvariant(run, j - 1);
      assert Next(run[j - 1], run[j]);
      var mover: nat, a :| Moves(run[j - 1], run[j], mover, a);
      if mover == me { InTimeStep(run[j - 1].publishers[me], me, run[j - 1].name, a); }
    }
  }

  /** An interruption that the supervisor can see before it chooses is honoured: the publisher never commits. */
  lemma InterruptionInTimeIsHonoured(run: seq<State>, i: nat, j: nat, me: nat)
    requires IsRun(run) && i <= j < |run| && me < |run[i].publishers|
    requires run[i].publishers[me].cancelled || run[i].publishers[me].expired
    requires run[i].publishers[me].supervisor in {Start, Select, TentativeSeen}
    ensures me < |run[j].publishers| && run[j].publishers[me].decision != Commit
  {
    RunInvariant(run, i);
    assert PublisherInvariant(run[i].publishers[me], me, run[i].name);
    hide LockAgrees, NameAgrees, WakeUpPending, WorkerAgrees, Invariant;
    StaysInTime(run, i, j, me);
  }

  /** A worker that has not begun when the abort or the interruption comes, or is through without a link. */
  predicate TurnedAway(p: Publisher) {
    || (p.worker == Spawned && (p.decision == Abort || p.cancelled || p.expired))
    || p.worker == Finished(SelfCancelled) || p.worker == Finished(Failed) || p.worker == Finished(Panicked)
  }

  lemma WorkerStaysTurnedAway(p: Publisher, me: int, name: Option<int>)
    requires TurnedAway(p) && WorkerStep(p, me, name).Some?
    ensures var q := WorkerStep(p, me, name).value.0; TurnedAway(q) && q.leaked == p.leaked
  {}

  lemma FailureStaysTurnedAway(p: Publisher)
    requires TurnedAway(p) && !p.leaked
    ensures WorkerFailure(p).Some? ==> TurnedAway(WorkerFailure(p).value) && !WorkerFailure(p).value.leaked
    ensures WorkerPanic(p).Some? ==> TurnedAway(WorkerPanic(p).value) && !WorkerPanic(p).value.leaked
  {}

  lemma TurnedAwayStep(p: Publisher, me: int, name: Option<int>, a: Action)
    requires PublisherInvariant(p, me, name) && TurnedAway(p) && !p.leaked && Apply(p, me, name, a).Some?
    ensures TurnedAway(Apply(p, me, name, a).value.0) && !Apply(p, me, name, a).value.0.leaked
  {
    hide LockAgrees, WakeUpPending, WorkerAgrees, NameAgrees;
    FailureStaysTurnedAway(p);
    if a == Worker { WorkerStaysTurnedAway(p, me, name); }
    hide WorkerStep, WorkerFailure, WorkerPanic;
  }

  lemma {:induction false} StaysTurnedAway(run: seq<State>, i: nat, j: nat, me: nat)
    requires IsRun(run) && i <= j < |run| && me < |run[i].publishers|
    requires TurnedAway(run[i].publishers[me]) && !run[i].publishers[me].leaked
    ensures me < |run[j].publishers| && TurnedAway(run[j].publishers[me]) && !run[j].publishers[me].leaked
    decreases j
  {
    hide PublisherInvariant, Apply, TurnedAway;
    if i < j {
      StaysTurnedAway(run, i, j - 1, me);
      RunInvariant(run, j - 1);
      assert Next(run[j - 1], run[j]);
      var mover: nat, a :| Moves(run[j - 1], run[j], mover, a);
      if mover == me { TurnedAwayStep(run[j - 1].publishers[me], me, run[j - 1].name, a); }
    }
  }

  /** A worker that has not begun when the abort or the interruption comes never links anything. */
  lemma LateWorkerNeverLinks(run: seq<State>, i: nat, j: nat, me: nat)
    requires IsRun(run) && i <= j < |run| && me < |run[i].publishers| && run[i].publishers[me].worker == Spawned
    requires var p := run[i].publishers[me]; p.decision == Abort || p.cancelled || p.expired
    ensures run[j].name != Some(me as int)
  {
    RunInvariant(run, i);
    assert PublisherInvariant(run[i].publishers[me], me, run[i].name);
    StaysTurnedAway(run, i, j, me);
    RunInvariant(run, j);
    assert PublisherInvariant(run[j].publishers[me], me, run[j].name);
    hide LockAgrees, WakeUpPending, WorkerAgrees, SupervisorAgrees;
  }

  /** No wake-up is lost: a worker asleep although its fate is decided is about to be notified. */
  lemma NoLostWakeUp(run: seq<State>, i: nat, me: nat)
    requires IsRun(run) && i < |run| && me < |run[i].publishers|
    requires run[i].publishers[me].worker == Asleep && run[i].publishers[me].decision != Undecided
    ensures var r := SupervisorStep(run[i].publishers[me]); r.Some? && r.value.worker == Waking
  {
    RunInvariant(run, i);
    assert PublisherInvariant(run[i].publishers[me], me, run[i].name);
  }

  // ----- Progress of one publisher, whatever the others do

  predicate Final(p: Publisher) {
    && (p.supervisor.Returned? || p.supervisor == Gone)
    && (p.worker.Finished? || p.worker == NotSpawned)
  }

  function SupervisorRank(p: SupervisorPc): nat {
    match p
    case Start => 7
    case Select => 6
    case TentativeSeen => 5
    case DecideLock(_, _) => 4
    case DecideExchange(_, _) => 3
    case DecideRelease(_, _) => 2
    case AwaitInterrupted(_) => 1
    case AwaitCommit => 1
    case Returned(_) => 0
    case Gone => 0
  }

  function WorkerRank(w: WorkerPc): nat {
    match w
    case NotSpawned => 0
    case Spawned => 13
    case Linking => 12
    case Existing => 11
    case InspectingLink => 11
    case Verifying => 10
    case DecisionLock => 9
    case Waking => 9
    case DecisionCheck => 8
    case Asleep => 7
    case DecisionRelease(_) => 6
    case CleanStat(_) => 5
    case CleanUnlink(_) => 4
    case CleanSync(_) => 3
    case Finished(_) => 0
  }

  predicate Lower(q: Publisher, p: Publisher) {
    || SupervisorRank(q.supervisor) < SupervisorRank(p.supervisor)
    || (q.supervisor == p.supervisor && WorkerRank(q.worker) < WorkerRank(p.worker))
  }

  function Schedule(p: Publisher): Action {
    if WorkerHoldsLock(p.worker) then Worker
    else
      match p.supervisor
      case Select => if p.tentative then TakeTentative else if p.worker.Finished? then TakeDone else Worker
      case AwaitInterrupted(_) => if p.worker.Finished? then Supervise else Worker
      case AwaitCommit => if p.worker.Finished? then Supervise else Worker
      case Returned(_) => Worker
      case Gone => Worker
      case _ => Supervise
  }

  lemma WorkerMakesProgress(p: Publisher, me: int, name: Option<int>)
    requires p.worker != NotSpawned && !p.worker.Finished? && p.worker != Asleep
    requires p.lock == Free || WorkerHoldsLock(p.worker)
    ensures WorkerStep(p, me, name).Some? && Lower(WorkerStep(p, me, name).value.0, p)
  {}

  lemma WorkersTurn(p: Publisher, me: int, name: Option<int>)
    requires PublisherInvariant(p, me, name) && !Final(p) && Schedule(p) == Worker
    ensures p.worker != NotSpawned && !p.worker.Finished? && p.worker != Asleep
    ensures p.lock == Free || WorkerHoldsLock(p.worker)
  {
    hide NameAgrees;
  }

  lemma SupervisorMakesProgress(p: Publisher, me: int, name: Option<int>)
    requires PublisherInvariant(p, me, name) && Schedule(p) == Supervise
    ensures SupervisorStep(p).Some? && Lower(SupervisorStep(p).value, p)
  {
    hide NameAgrees, WakeUpPending, WorkerAgrees;
  }

  ghost predicate OwnStep(x: (Publisher, Option<int>), y: (Publisher, Option<int>), me: int) {
    exists a :: Apply(x.0, me, x.1, a) == Some(y)
  }

  /** From every reachable state of a publisher, its own steps alone finish it. */
  lemma {:induction false} CanAlwaysFinish(p: Publisher, me: int, name: Option<int>)
    returns (steps: seq<(Publisher, Option<int>)>)
    requires PublisherInvariant(p, me, name)
    ensures steps != [] && steps[0] == (p, name) && Final(steps[|steps| - 1].0)
    ensures forall i | 0 <= i < |steps| - 1 ::
              OwnStep(steps[i], steps[i + 1], me)
    decreases SupervisorRank(p.supervisor), WorkerRank(p.worker)
  {
    steps := [(p, name)];
    if !Final(p) {
      var a := Schedule(p);
      if a == Supervise {
        SupervisorMakesProgress(p, me, name);
      } else if a == Worker {
        WorkersTurn(p, me, name);
        WorkerMakesProgress(p, me, name);
      }
      StepKeepsInvariant(p, me, name, a);
      var next := Apply(p, me, name, a).value;
      assert OwnStep((p, name), next, me);
      var rest := CanAlwaysFinish(next.0, me, next.1);
      hide OwnStep, Apply;
      assert next == (next.0, next.1);
      steps := steps + rest;
    }
  }

  lemma SleeperStep(p: Publisher, me: int, name: Option<int>)
    requires PublisherInvariant(p, me, name) && p.worker == Asleep
    ensures var r := Apply(p, me, name, if p.supervisor == Select then TakeTentative else Supervise);
            && r.Some? && SupervisorRank(r.value.0.supervisor) < SupervisorRank(p.supervisor)
            && (r.value.0.worker == Asleep || (r.value.0.worker == Waking && r.value.0.decision != Undecided))
  {
    hide NameAgrees;
  }

  /** The supervisor alone wakes a sleeping worker, with the decision made. */
  lemma {:induction false} SleeperIsReleased(p: Publisher, me: int, name: Option<int>)
    returns (steps: seq<(Publisher, Option<int>)>)
    requires PublisherInvariant(p, me, name) && p.worker == Asleep
    ensures steps != [] && steps[0] == (p, name)
    ensures forall i | 0 <= i < |steps| - 1 ::
              || Apply(steps[i].0, me, steps[i].1, TakeTentative) == Some(steps[i + 1])
              || Apply(steps[i].0, me, steps[i].1, Supervise) == Some(steps[i + 1])
    ensures steps[|steps| - 1].0.worker == Waking && steps[|steps| - 1].0.decision != Undecided
    decreases SupervisorRank(p.supervisor)
  {
    var a := if p.supervisor == Select then TakeTentative else Supervise;
    SleeperStep(p, me, name);
    StepKeepsInvariant(p, me, name, a);
    var next := Apply(p, me, name, a).value;
    hide PublisherInvariant, Apply;
    if next.0.worker == Waking {
      steps := [(p, name), next];
    } else {
      var rest := SleeperIsReleased(next.0, me, next.1);
      steps := [(p, name)] + rest;
    }
  }
}
