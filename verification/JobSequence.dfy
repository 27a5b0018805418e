/** jobs/sequence.hpp as a system of atomic steps: one attaching thread, one worker that runs queued
    jobs one after the other, and a stop signal that any thread may raise at any time. */
module JobSequence {

  import opened Outcomes

  type JobId = nat

  /** last_future_: not yet valid, that of an attached job, or that of a refused one. */
  datatype Future = Invalid | Of(job: JobId) | Refused

  /** Where the worker thread is: about to test the condition of its wait, asleep in that wait until it
      is notified, between two rounds of the queue loop, before, inside or after attempt `index` of a
      job's do-while loop, or finished for good. */
  datatype Worker =
    | Waiting
    | Asleep
    | Looping
    | Ready(job: JobId, index: nat)
    | InAttempt(job: JobId, index: nat)
    | Checking(job: JobId, index: nat)
    | Exited

  /** What a call of a job's function comes back with. */
  datatype Outcome = Success | Retry | Threw

  datatype Reason = ReturnedTrue | RaisedException | SawStop

  datatype Ending = Ending(job: JobId, reason: Reason)

  /** An entry of the history of job calls. */
  datatype Event =
    | Began(job: JobId, index: nat, afterStop: bool)
    | Returned(job: JobId, index: nat, outcome: Outcome)

  /** The state of a sequence, with the history of what happened so far.  `stopped` is set by the
      destructor, `cleared` once its call of stop() has emptied the queue. */
  datatype State = State(
    tasks: seq<JobId>,
    stopSignal: bool,
    stopped: bool,
    cleared: bool,
    exitSignal: bool,
    lastFuture: Future,
    worker: Worker,
    attached: nat,
    started: seq<JobId>,
    finished: seq<Ending>,
    dropped: seq<JobId>,
    log: seq<Event>)

  datatype Step =
    | Attach
    | Take
    | WakeEmpty
    | Sleep
    | Spurious
    | BeginAttempt
    | EndAttempt(outcome: Outcome)
    | CheckStop
    | NextRound
    | Stop
    | Destroy
    | SignalExit

  const INITIAL := State([], false, false, false, false, Invalid, Waiting, 0, [], [], [], [])

  predicate Enabled(s: State, step: Step) {
    match step
    case Attach => true
    case Take => s.worker.Waiting? && s.tasks != []
    case WakeEmpty => s.worker.Waiting? && s.exitSignal && s.tasks == []
    case Sleep => s.worker.Waiting? && !s.exitSignal && s.tasks == []
    case Spurious => s.worker.Asleep?
    case BeginAttempt => s.worker.Ready?
    case EndAttempt(_) => s.worker.InAttempt?
    case CheckStop => s.worker.Checking?
    case NextRound => s.worker.Looping?
    case Stop => true
    case Destroy => !s.stopped
    case SignalExit => s.cleared
  }

  /** notify_one: a worker that sleeps tests its condition again. */
  function Notified(worker: Worker): Worker {
    if worker.Asleep? then Waiting else worker
  }

  function Next(s: State, step: Step): State
    requires Enabled(s, step)
  {
    match step
    case Attach =>
      if s.stopped then s.(lastFuture := Refused)
      else
        s.(tasks := s.tasks + [s.attached], lastFuture := Of(s.attached), attached := s.attached + 1,
           worker := Notified(s.worker))
    case Take =>
      s.(tasks := s.tasks[1..], worker := Ready(s.tasks[0], 0), started := s.started + [s.tasks[0]])
    case WakeEmpty => s.(worker := Looping)
    case Sleep => s.(worker := Asleep)
    case Spurious => s.(worker := Waiting)
    case BeginAttempt =>
      s.(worker := InAttempt(s.worker.job, s.worker.index),
         log := s.log + [Began(s.worker.job, s.worker.index, s.stopSignal)])
    case EndAttempt(outcome) =>
      var log := s.log + [Returned(s.worker.job, s.worker.index, outcome)];
      (match outcome
       case Success =>
         s.(worker := Looping, finished := s.finished + [Ending(s.worker.job, ReturnedTrue)], log := log)
       case Threw =>
         s.(worker := Looping, finished := s.finished + [Ending(s.worker.job, RaisedException)], log := log)
       case Retry => s.(worker := Checking(s.worker.job, s.worker.index + 1), log := log))
    case CheckStop =>
      if s.stopSignal then
        s.(worker := Looping, finished := s.finished + [Ending(s.worker.job, SawStop)])
      else s.(worker := Ready(s.worker.job, s.worker.index))
    case NextRound => s.(worker := if s.exitSignal then Exited else Waiting)
    case Stop =>
      s.(tasks := [], dropped := s.dropped + s.tasks, stopSignal := true, cleared := s.stopped,
         worker := Notified(s.worker))
    case Destroy => s.(stopped := true)
    case SignalExit => s.(exitSignal := true)
  }

  /** The steps can be taken one after the other; they are in any order the threads produce. */
  predicate Possible(s: State, steps: seq<Step>)
    decreases |steps|
  {
    steps == [] || (Enabled(s, steps[0]) && Possible(Next(s, steps[0]), steps[1..]))
  }

  function Run(s: State, steps: seq<Step>): State
    requires Possible(s, steps)
    decreases |steps|
  {
    if steps == [] then s else Run(Next(s, steps[0]), steps[1..])
  }

  // ---------------------------------------------------------------- invariants

  function Running(s: State): seq<JobId> {
    if s.worker.Ready? || s.worker.InAttempt? || s.worker.Checking? then [s.worker.job] else []
  }

  function Jobs(endings: seq<Ending>): seq<JobId> {
    if endings == [] then [] else Jobs(endings[..|endings| - 1]) + [endings[|endings| - 1].job]
  }

  function Finished(s: State): seq<JobId> {
    Jobs(s.finished)
  }

  function Ids(n: nat): seq<JobId> {
    seq(n, i => i)
  }

  ghost predicate Increasing(ids: seq<JobId>) {
    forall i, j | 0 <= i < j < |ids| :: ids[i] < ids[j]
  }

  /** Started jobs are the finished ones and the one that is running; they were started in the order
      in which they were attached, ahead of everything still queued. */
  ghost predicate InOrder(s: State) {
    && s.started == Finished(s) + Running(s)
    && Increasing(s.started + s.tasks)
    && (forall i | 0 <= i < |s.tasks| :: s.tasks[i] < s.attached)
    && (forall i | 0 <= i < |s.started| :: s.started[i] < s.attached)
  }

  /** Every attached job is queued, running, finished or dropped, and only one of these, once. */
  ghost predicate Conserved(s: State) {
    multiset(s.tasks) + multiset(Running(s)) + multiset(Finished(s)) + multiset(s.dropped)
    == multiset(Ids(s.attached))
  }

  ghost predicate NoneSawStop(endings: seq<Ending>) {
    forall e | e in endings :: e.reason != SawStop
  }

  ghost predicate StopRecorded(s: State) {
    && (s.dropped != [] ==> s.stopSignal)
    && (!s.stopSignal ==> NoneSawStop(s.finished))
    && match s.lastFuture
       case Invalid => s.attached == 0
       case Of(job) => job + 1 == s.attached
       case Refused => s.stopped
  }

  /** What was dropped had been attached before everything that is queued now. */
  ghost predicate DroppedBehind(s: State) {
    && (forall d | d in s.dropped :: d < s.attached)
    && (forall d, t | d in s.dropped && t in s.tasks :: d < t)
  }

  /** The destructor's order: refuse jobs, clear the queue, signal the worker, see it exit.  And the
      worker does not sleep while there is something to do. */
  ghost predicate Destruction(s: State) {
    && (s.cleared ==> s.stopped && s.stopSignal && s.tasks == [])
    && (s.exitSignal ==> s.cleared)
    && (s.worker.Exited? ==> s.exitSignal)
    && (s.worker.Asleep? ==> s.tasks == [])
  }

  /** The attempt numbers job j was called with, in order. */
  ghost function Attempts(log: seq<Event>, j: JobId): seq<nat> {
    if log == [] then []
    else
      var e := log[|log| - 1];
      Attempts(log[..|log| - 1], j) + if e.Began? && e.job == j then [e.index] else []
  }

  /** How many attempts of job j began after the stop signal. */
  ghost function LateAttempts(log: seq<Event>, j: JobId): nat {
    if log == [] then 0
    else
      var e := log[|log| - 1];
      LateAttempts(log[..|log| - 1], j) + if e.Began? && e.job == j && e.afterStop then 1 else 0
  }

  ghost predicate CallOpen(log: seq<Event>) {
    log != [] && log[|log| - 1].Began?
  }

  /** A call begins only when no other is open, and a return answers the call that is open.  A job is
      called again only when it has just returned false, and with the next number. */
  ghost predicate OneAtATime(log: seq<Event>) {
    log == [] ||
    var rest := log[..|log| - 1];
    && OneAtATime(rest)
    && match log[|log| - 1]
       case Began(job, index, _) =>
         !CallOpen(rest) && (0 < index ==> rest != [] && rest[|rest| - 1] == Returned(job, index - 1, Retry))
       case Returned(job, index, _) =>
         CallOpen(rest) && rest[|rest| - 1].job == job && rest[|rest| - 1].index == index
  }

  /** The attempts of job j so far are 0, 1, 2, ... without gaps; none if it was never started. */
  ghost predicate AttemptsOfJob(s: State, j: JobId) {
    var tried := |Attempts(s.log, j)|;
    && Attempts(s.log, j) == Ids(tried)
    && (j !in s.started ==> tried == 0)
    && (j in Finished(s) ==> 0 < tried)
    && (s.worker.Ready? && s.worker.job == j ==> tried == s.worker.index)
    && (s.worker.InAttempt? && s.worker.job == j ==> tried == s.worker.index + 1)
    && (s.worker.Checking? && s.worker.job == j ==> tried == s.worker.index && 0 < tried)
  }

  /** At most one attempt of job j began after the stop signal, and none if the job is about to be
      called. */
  ghost predicate LateAttemptsOfJob(s: State, j: JobId) {
    var late := LateAttempts(s.log, j);
    && late <= 1
    && (0 < late ==> s.stopSignal)
    && (j !in s.started ==> late == 0)
    && (s.worker.Ready? && s.worker.job == j ==> late == 0)
  }

  ghost predicate Calls(s: State) {
    && OneAtATime(s.log)
    && (CallOpen(s.log) <==> s.worker.InAttempt?)
    && (s.worker.InAttempt? ==>
          s.log[|s.log| - 1].job == s.worker.job && s.log[|s.log| - 1].index == s.worker.index)
    && (s.worker.Checking? || (s.worker.Ready? && 0 < s.worker.index) ==>
          s.log != [] && 0 < s.worker.index &&
          s.log[|s.log| - 1] == Returned(s.worker.job, s.worker.index - 1, Retry))
  }

  /** What the latest call of job j that has come back came back with. */
  ghost function LastOutcome(log: seq<Event>, j: JobId): Option<Outcome> {
    if log == [] then None
    else
      var e := log[|log| - 1];
      if e.Returned? && e.job == j then Some(e.outcome) else LastOutcome(log[..|log| - 1], j)
  }

  /** The reason recorded for a finished job is the one its last call gave: true, an exception, or
      false, in which case only the stop signal can have ended it. */
  ghost predicate EndingTrue(log: seq<Event>, e: Ending) {
    match e.reason
    case ReturnedTrue => LastOutcome(log, e.job) == Some(Success)
    case RaisedException => LastOutcome(log, e.job) == Some(Threw)
    case SawStop => LastOutcome(log, e.job) == Some(Retry)
  }

  ghost predicate EndingsTrue(s: State) {
    && (forall e | e in s.finished :: EndingTrue(s.log, e))
    && (s.worker.Checking? ==> LastOutcome(s.log, s.worker.job) == Some(Retry))
  }

  ghost predicate Inv(s: State) {
    && InOrder(s)
    && Conserved(s)
    && StopRecorded(s)
    && DroppedBehind(s)
    && Destruction(s)
    && Calls(s)
    && EndingsTrue(s)
    && (forall j :: AttemptsOfJob(s, j))
    && (forall j :: LateAttemptsOfJob(s, j))
  }

  lemma JobsGrow(endings: seq<Ending>, e: Ending)
    ensures Jobs(endings + [e]) == Jobs(endings) + [e.job]
  {
    assert (endings + [e])[..|endings|] == endings;
  }

  /** How a step changes the finished jobs and the running one. */
  lemma FinishingStep(s: State, step: Step)
    requires Enabled(s, step)
    ensures
      var s' := Next(s, step);
      match step
      case EndAttempt(Success) => Finished(s') == Finished(s) + Running(s) && Running(s') == []
      case EndAttempt(Threw) => Finished(s') == Finished(s) + Running(s) && Running(s') == []
      case CheckStop =>
        if s.stopSignal then Finished(s') == Finished(s) + Running(s) && Running(s') == []
        else Finished(s') == Finished(s) && Running(s') == Running(s)
      case Take => Finished(s') == Finished(s) && Running(s) == [] && Running(s') == [s.tasks[0]]
      case _ => Finished(s') == Finished(s) && Running(s') == Running(s)
  {
    hide Jobs;
    var s' := Next(s, step);
    if |s'.finished| > |s.finished| {
      JobsGrow(s.finished, s'.finished[|s.finished|]);
    }
  }

  lemma IncreasingGrows(ids: seq<JobId>, id: JobId)
    requires Increasing(ids) && forall i | 0 <= i < |ids| :: ids[i] < id
    ensures Increasing(ids + [id])
  {
  }

  lemma IncreasingPrefix(ids: seq<JobId>, rest: seq<JobId>)
    requires Increasing(ids + rest)
    ensures Increasing(ids)
    ensures forall i, j | 0 <= i < |ids| && 0 <= j < |rest| :: ids[i] < rest[j]
  {
    var all := ids + rest;
    forall i, j | 0 <= i < j < |ids| ensures ids[i] < ids[j] {
      assert all[i] < all[j];
    }
    forall i, j | 0 <= i < |ids| && 0 <= j < |rest| ensures ids[i] < rest[j] {
      assert all[i] < all[|ids| + j];
    }
  }

  lemma OrderKept(s: State, step: Step)
    requires InOrder(s) && Enabled(s, step)
    ensures InOrder(Next(s, step))
  {
    hide Finished, Running, Increasing;
    var s' := Next(s, step);
    FinishingStep(s, step);
    match step
    case Attach =>
      if !s.stopped {
        IncreasingGrows(s.started + s.tasks, s.attached);
        assert s'.started + s'.tasks == (s.started + s.tasks) + [s.attached];
      }
    case Take =>
      assert s'.started + s'.tasks == s.started + s.tasks;
      assert s'.started == Finished(s) + [] + [s.tasks[0]];
    case Stop =>
      IncreasingPrefix(s.started, s.tasks);
      assert s'.started + s'.tasks == s.started;
    case EndAttempt(_) =>
    case CheckStop =>
    case _ =>
  }

  lemma AttachConserves(s: State)
    requires Conserved(s)
    ensures Conserved(Next(s, Attach))
  {
    IdsGrow(s.attached);
    hide Finished, Running, Ids, Notified;
    FinishingStep(s, Attach);
    assert !s.stopped ==> multiset(Next(s, Attach).tasks) == multiset(s.tasks) + multiset{s.attached};
  }

  lemma TakeConserves(s: State)
    requires Conserved(s) && Enabled(s, Take)
    ensures Conserved(Next(s, Take))
  {
    hide Finished, Running;
    FinishingStep(s, Take);
    assert s.tasks == [s.tasks[0]] + s.tasks[1..];
    assert multiset(s.tasks) == multiset(Running(Next(s, Take))) + multiset(Next(s, Take).tasks);
  }

  lemma StopConserves(s: State)
    requires Conserved(s)
    ensures Conserved(Next(s, Stop))
  {
    hide Finished, Running;
    FinishingStep(s, Stop);
    assert multiset(Next(s, Stop).dropped) == multiset(s.dropped) + multiset(s.tasks);
  }

  lemma EndConserves(s: State, step: Step)
    requires Conserved(s) && Enabled(s, step) && (step.EndAttempt? || step.CheckStop?)
    ensures Conserved(Next(s, step))
  {
    hide Finished, Running;
    FinishingStep(s, step);
  }

  lemma ConservationKept(s: State, step: Step)
    requires Conserved(s) && Enabled(s, step)
    ensures Conserved(Next(s, step))
  {
    match step
    case Attach => AttachConserves(s);
    case Take => TakeConserves(s);
    case Stop => StopConserves(s);
    case EndAttempt(_) => EndConserves(s, step);
    case CheckStop => EndConserves(s, step);
    case _ =>
      hide Finished, Running;
      FinishingStep(s, step);
  }

  lemma EndKeepsStopRecord(s: State, outcome: Outcome)
    requires StopRecorded(s) && s.worker.InAttempt?
    ensures StopRecorded(Next(s, EndAttempt(outcome)))
  {
    if outcome != Retry {
      EndingRecorded(s.finished, Next(s, EndAttempt(outcome)).finished[|s.finished|]);
    }
    hide NoneSawStop;
  }

  lemma StopRecordKept(s: State, step: Step)
    requires StopRecorded(s) && Enabled(s, step)
    ensures StopRecorded(Next(s, step))
  {
    hide NoneSawStop;
    if step.EndAttempt? {
      EndKeepsStopRecord(s, step.outcome);
    }
  }

  lemma EndingRecorded(endings: seq<Ending>, e: Ending)
    requires e.reason != SawStop
    ensures NoneSawStop(endings) ==> NoneSawStop(endings + [e])
  {
  }

  lemma QueuedBelow(s: State)
    requires InOrder(s)
    ensures forall t | t in s.tasks :: t < s.attached
  {
  }

  lemma AttachKeepsDropped(s: State)
    requires DroppedBehind(s)
    ensures DroppedBehind(Next(s, Attach))
  {
    var s' := Next(s, Attach);
    assert forall t | t in s'.tasks :: t in s.tasks || (t == s.attached && s'.attached == t + 1);
  }

  lemma TakeKeepsDropped(s: State)
    requires DroppedBehind(s) && Enabled(s, Take)
    ensures DroppedBehind(Next(s, Take))
  {
    assert forall t | t in s.tasks[1..] :: t in s.tasks;
  }

  lemma StopKeepsDropped(s: State)
    requires DroppedBehind(s) && forall t | t in s.tasks :: t < s.attached
    ensures DroppedBehind(Next(s, Stop))
  {
    assert forall d | d in Next(s, Stop).dropped :: d in s.dropped || d in s.tasks;
  }

  lemma DroppedKept(s: State, step: Step)
    requires DroppedBehind(s) && InOrder(s) && Enabled(s, step)
    ensures DroppedBehind(Next(s, step))
  {
    QueuedBelow(s);
    hide InOrder;
    match step
    case Attach => AttachKeepsDropped(s);
    case Stop => StopKeepsDropped(s);
    case Take => TakeKeepsDropped(s);
    case _ =>
  }

  lemma DestructionKept(s: State, step: Step)
    requires Destruction(s) && Enabled(s, step)
    ensures Destruction(Next(s, step))
  {
  }

  lemma CallLogged(log: seq<Event>, e: Event)
    requires OneAtATime(log)
    requires match e
             case Began(job, index, _) =>
               !CallOpen(log) && (0 < index ==> log != [] && log[|log| - 1] == Returned(job, index - 1, Retry))
             case Returned(job, index, _) =>
               CallOpen(log) && log[|log| - 1].job == job && log[|log| - 1].index == index
    ensures OneAtATime(log + [e])
  {
    assert (log + [e])[..|log|] == log;
  }

  lemma LastLogged(log: seq<Event>, e: Event)
    ensures (log + [e])[|log|] == e && (CallOpen(log + [e]) <==> e.Began?)
  {
  }

  lemma BeginKeepsCalls(s: State)
    requires Calls(s) && s.worker.Ready?
    ensures Calls(Next(s, BeginAttempt))
  {
    var e := Began(s.worker.job, s.worker.index, s.stopSignal);
    CallLogged(s.log, e);
    LastLogged(s.log, e);
    hide OneAtATime, CallOpen;
  }

  lemma EndKeepsCalls(s: State, outcome: Outcome)
    requires Calls(s) && s.worker.InAttempt?
    ensures Calls(Next(s, EndAttempt(outcome)))
  {
    var e := Returned(s.worker.job, s.worker.index, outcome);
    CallLogged(s.log, e);
    LastLogged(s.log, e);
    hide OneAtATime, CallOpen;
  }

  lemma CallsKept(s: State, step: Step)
    requires Calls(s) && Enabled(s, step)
    ensures Calls(Next(s, step))
  {
    match step
    case BeginAttempt => BeginKeepsCalls(s);
    case EndAttempt(outcome) => EndKeepsCalls(s, outcome);
    case _ => hide OneAtATime, CallOpen;
  }

  lemma LogGrows(log: seq<Event>, e: Event, j: JobId)
    ensures Attempts(log + [e], j) == Attempts(log, j) + if e.Began? && e.job == j then [e.index] else []
    ensures LateAttempts(log + [e], j)
         == LateAttempts(log, j) + if e.Began? && e.job == j && e.afterStop then 1 else 0
  {
    assert (log + [e])[..|log|] == log;
  }

  /** The job that is taken has not been started, and the running job has. */
  lemma TakenIsNew(s: State)
    requires InOrder(s)
    ensures s.tasks != [] ==> s.tasks[0] !in s.started
    ensures forall j | j in Running(s) :: j in s.started && j !in Finished(s)
    ensures forall j | j in Finished(s) :: j in s.started
  {
    IncreasingPrefix(s.started, s.tasks);
    if Running(s) != [] {
      IncreasingPrefix(Finished(s), Running(s));
    }
  }

  lemma IdsGrow(n: nat)
    ensures |Ids(n)| == n && Ids(n + 1) == Ids(n) + [n]
  {
  }

  lemma BeginKeepsAttempts(s: State, j: JobId)
    requires InOrder(s) && s.worker.Ready? && AttemptsOfJob(s, j) && LateAttemptsOfJob(s, j)
    ensures AttemptsOfJob(Next(s, BeginAttempt), j) && LateAttemptsOfJob(Next(s, BeginAttempt), j)
  {
    TakenIsNew(s);
    LogGrows(s.log, Began(s.worker.job, s.worker.index, s.stopSignal), j);
    IdsGrow(s.worker.index);
    hide Attempts, LateAttempts, Finished, InOrder, Ids;
  }

  /** What the end of an attempt leaves as it is, and where it leads. */
  lemma EndedAttempt(s: State, outcome: Outcome)
    requires s.worker.InAttempt?
    ensures
      var s' := Next(s, EndAttempt(outcome));
      && s'.stopSignal == s.stopSignal && s'.started == s.started
      && s'.log == s.log + [Returned(s.worker.job, s.worker.index, outcome)]
      && s'.worker == if outcome == Retry then Checking(s.worker.job, s.worker.index + 1) else Looping
  {
  }

  lemma EndKeepsAttempts(s: State, outcome: Outcome, j: JobId)
    requires InOrder(s) && s.worker.InAttempt? && AttemptsOfJob(s, j)
    ensures AttemptsOfJob(Next(s, EndAttempt(outcome)), j)
  {
    TakenIsNew(s);
    LogGrows(s.log, Returned(s.worker.job, s.worker.index, outcome), j);
    FinishingStep(s, EndAttempt(outcome));
    EndedAttempt(s, outcome);
    hide Attempts, LateAttempts, Finished, InOrder, Ids, Next;
  }

  lemma EndKeepsLateAttempts(s: State, outcome: Outcome, j: JobId)
    requires s.worker.InAttempt? && LateAttemptsOfJob(s, j)
    ensures LateAttemptsOfJob(Next(s, EndAttempt(outcome)), j)
  {
    LogGrows(s.log, Returned(s.worker.job, s.worker.index, outcome), j);
    EndedAttempt(s, outcome);
    hide Attempts, LateAttempts, Next;
  }

  lemma CheckKeepsAttempts(s: State, j: JobId)
    requires InOrder(s) && s.worker.Checking? && AttemptsOfJob(s, j) && LateAttemptsOfJob(s, j)
    ensures AttemptsOfJob(Next(s, CheckStop), j) && LateAttemptsOfJob(Next(s, CheckStop), j)
  {
    FinishingStep(s, CheckStop);
    hide Attempts, LateAttempts, Finished, InOrder;
  }

  lemma TakeKeepsAttempts(s: State, j: JobId)
    requires InOrder(s) && Enabled(s, Take) && AttemptsOfJob(s, j) && LateAttemptsOfJob(s, j)
    ensures AttemptsOfJob(Next(s, Take), j) && LateAttemptsOfJob(Next(s, Take), j)
  {
    TakenIsNew(s);
    FinishingStep(s, Take);
    hide Attempts, LateAttempts, Finished, InOrder;
  }

  lemma AttemptsKept(s: State, step: Step, j: JobId)
    requires InOrder(s) && Enabled(s, step) && AttemptsOfJob(s, j) && LateAttemptsOfJob(s, j)
    ensures AttemptsOfJob(Next(s, step), j) && LateAttemptsOfJob(Next(s, step), j)
  {
    match step
    case BeginAttempt => BeginKeepsAttempts(s, j);
    case EndAttempt(outcome) =>
      EndKeepsAttempts(s, outcome, j);
      EndKeepsLateAttempts(s, outcome, j);
      hide Attempts, LateAttempts, Jobs, InOrder, Next;
    case CheckStop => CheckKeepsAttempts(s, j);
    case Take => TakeKeepsAttempts(s, j);
    case _ => hide Attempts, LateAttempts, Jobs, InOrder;
  }

  lemma LogGrowsOutcome(log: seq<Event>, e: Event, j: JobId)
    ensures LastOutcome(log + [e], j) == if e.Returned? && e.job == j then Some(e.outcome) else LastOutcome(log, j)
  {
    assert (log + [e])[..|log|] == log;
  }

  lemma JobsContain(endings: seq<Ending>, e: Ending)
    requires e in endings
    ensures e.job in Jobs(endings)
  {
    var last := |endings| - 1;
    if e != endings[last] {
      assert endings == endings[..last] + [endings[last]];
      JobsContain(endings[..last], e);
    }
  }

  /** A call of a job that has not finished yet does not touch what is recorded of the finished ones. */
  lemma OthersEndingsKept(s: State, e: Event)
    requires InOrder(s) && EndingsTrue(s) && Running(s) == [e.job]
    ensures forall ending | ending in s.finished :: EndingTrue(s.log + [e], ending)
  {
    TakenIsNew(s);
    assert e.job in Running(s);
    forall ending | ending in s.finished ensures EndingTrue(s.log + [e], ending) {
      JobsContain(s.finished, ending);
      LogGrowsOutcome(s.log, e, ending.job);
    }
  }

  lemma BeginKeepsEndings(s: State)
    requires InOrder(s) && EndingsTrue(s) && s.worker.Ready?
    ensures EndingsTrue(Next(s, BeginAttempt))
  {
    OthersEndingsKept(s, Began(s.worker.job, s.worker.index, s.stopSignal));
  }

  lemma EndKeepsEndings(s: State, outcome: Outcome)
    requires InOrder(s) && EndingsTrue(s) && s.worker.InAttempt?
    ensures EndingsTrue(Next(s, EndAttempt(outcome)))
  {
    var e := Returned(s.worker.job, s.worker.index, outcome);
    OthersEndingsKept(s, e);
    LogGrowsOutcome(s.log, e, e.job);
    hide LastOutcome, InOrder;
  }

  /** What is recorded of a job's end is what its last call came back with. */
  lemma EndingsKept(s: State, step: Step)
    requires InOrder(s) && EndingsTrue(s) && Enabled(s, step)
    ensures EndingsTrue(Next(s, step))
  {
    match step
    case BeginAttempt => BeginKeepsEndings(s);
    case EndAttempt(outcome) => EndKeepsEndings(s, outcome);
    case _ => hide LastOutcome, InOrder;
  }

  lemma InvKept(s: State, step: Step)
    requires Inv(s) && Enabled(s, step)
    ensures Inv(Next(s, step))
  {
    hide Next, InOrder, Conserved, StopRecorded, DroppedBehind, Destruction, Calls, EndingsTrue, AttemptsOfJob,
      LateAttemptsOfJob;
    OrderKept(s, step);
    ConservationKept(s, step);
    StopRecordKept(s, step);
    DroppedKept(s, step);
    DestructionKept(s, step);
    CallsKept(s, step);
    EndingsKept(s, step);
    forall j: JobId ensures AttemptsOfJob(Next(s, step), j) && LateAttemptsOfJob(Next(s, step), j) {
      AttemptsKept(s, step, j);
    }
  }

  /** Every interleaving of attaching, working and stopping keeps order, conservation, the numbering
      of attempts and the bound on attempts after the stop signal. */
  lemma {:induction false} EveryRunIsSafe(s: State, steps: seq<Step>)
    requires Inv(s) && Possible(s, steps)
    ensures Inv(Run(s, steps))
    decreases |steps|
  {
    if steps != [] {
      InvKept(s, steps[0]);
      EveryRunIsSafe(Next(s, steps[0]), steps[1..]);
    }
  }

  lemma InitiallySafe()
    ensures Inv(INITIAL)
  {
  }

  /** What every run from the beginning has called: each job 0, 1, 2, ... in turn without a gap, at least
      once if it has finished, and at most once after the stop signal. */
  lemma CallsOfEveryRun(steps: seq<Step>, j: JobId)
    requires Possible(INITIAL, steps)
    ensures
      var s := Run(INITIAL, steps);
      && Attempts(s.log, j) == seq(|Attempts(s.log, j)|, i => i)
      && LateAttempts(s.log, j) <= 1
      && (j in Finished(s) ==> Attempts(s.log, j) != [])
  {
    InitiallySafe();
    EveryRunIsSafe(INITIAL, steps);
    var s := Run(INITIAL, steps);
    assert AttemptsOfJob(s, j) && LateAttemptsOfJob(s, j);
    hide Inv, Run, Possible, Attempts, LateAttempts, Jobs;
  }

  // ---------------------------------------------------------------- what a run adds up to

  /** How many of the steps attach a job before the destructor begins to refuse them. */
  ghost function Accepted(steps: seq<Step>, stopped: bool): nat {
    if steps == [] then 0
    else
      (if steps[0] == Attach && !stopped then 1 else 0)
      + Accepted(steps[1..], stopped || steps[0] == Destroy)
  }

  lemma StepAttaches(s: State, step: Step)
    requires Enabled(s, step)
    ensures Next(s, step).attached == s.attached + if step == Attach && !s.stopped then 1 else 0
    ensures Next(s, step).stopped <==> s.stopped || step == Destroy
  {
  }

  lemma StepSignals(s: State, step: Step)
    requires Enabled(s, step)
    ensures Next(s, step).stopSignal <==> s.stopSignal || step == Stop
    ensures Next(s, step).stopped <==> s.stopped || step == Destroy
    ensures Next(s, step).exitSignal <==> s.exitSignal || step == SignalExit
  {
  }

  /** No accepted job is lost: a run records one job more for each time one was attached before the
      destruction began, whatever the worker was doing then, and for nothing else. */
  lemma {:induction false} AttachedCounts(s: State, steps: seq<Step>)
    requires Possible(s, steps)
    ensures Run(s, steps).attached == s.attached + Accepted(steps, s.stopped)
    decreases |steps|
  {
    if steps != [] {
      StepAttaches(s, steps[0]);
      hide Next;
      AttachedCounts(Next(s, steps[0]), steps[1..]);
    }
  }

  /** The signals are up exactly when somebody raised them, and stay up. */
  lemma {:induction false} SignalsRaised(s: State, steps: seq<Step>)
    requires Possible(s, steps)
    ensures Run(s, steps).stopSignal <==> s.stopSignal || Stop in steps
    ensures Run(s, steps).stopped <==> s.stopped || Destroy in steps
    ensures Run(s, steps).exitSignal <==> s.exitSignal || SignalExit in steps
    decreases |steps|
  {
    if steps != [] {
      StepSignals(s, steps[0]);
      hide Next;
      SignalsRaised(Next(s, steps[0]), steps[1..]);
      assert steps == [steps[0]] + steps[1..];
    }
  }

  /** How many calls of jobs the history holds. */
  ghost function CallsMade(log: seq<Event>): nat {
    if log == [] then 0
    else CallsMade(log[..|log| - 1]) + if log[|log| - 1].Began? then 1 else 0
  }

  lemma CallsMadeGrows(log: seq<Event>, e: Event)
    ensures CallsMade(log + [e]) == CallsMade(log) + if e.Began? then 1 else 0
  {
    assert (log + [e])[..|log|] == log;
  }

  lemma StepCallsMade(s: State, step: Step)
    requires Enabled(s, step)
    ensures CallsMade(Next(s, step).log) == CallsMade(s.log) + if step == BeginAttempt then 1 else 0
  {
    hide CallsMade;
    match step
    case BeginAttempt => CallsMadeGrows(s.log, Began(s.worker.job, s.worker.index, s.stopSignal));
    case EndAttempt(outcome) => CallsMadeGrows(s.log, Returned(s.worker.job, s.worker.index, outcome));
    case _ => assert Next(s, step).log == s.log;
  }

  lemma StepTakes(s: State, step: Step)
    requires Enabled(s, step)
    ensures |Next(s, step).started| == |s.started| + if step == Take then 1 else 0
  {
  }

  lemma StepDrops(s: State, step: Step)
    requires Enabled(s, step)
    ensures step != Stop ==> Next(s, step).dropped == s.dropped
  {
  }

  /** Each job taken from the queue is one started job, each call is in the history, and jobs are
      dropped by nothing but a stop. */
  lemma {:induction false} WorkCounts(s: State, steps: seq<Step>)
    requires Possible(s, steps)
    ensures |Run(s, steps).started| == |s.started| + multiset(steps)[Take]
    ensures CallsMade(Run(s, steps).log) == CallsMade(s.log) + multiset(steps)[BeginAttempt]
    ensures Stop !in steps ==> Run(s, steps).dropped == s.dropped
    decreases |steps|
  {
    if steps != [] {
      StepTakes(s, steps[0]);
      StepDrops(s, steps[0]);
      StepCallsMade(s, steps[0]);
      hide Next, CallsMade;
      WorkCounts(Next(s, steps[0]), steps[1..]);
      assert steps == [steps[0]] + steps[1..];
    }
  }

  /** The steps the worker takes by itself; what wakes it from its sleep is not one of them. */
  predicate WorkerStep(step: Step) {
    || step.Take? || step.WakeEmpty? || step.Sleep? || step.BeginAttempt? || step.EndAttempt?
    || step.CheckStop? || step.NextRound?
  }

  /** No queued job is forgotten: as long as there is one, the worker is awake and can go on. */
  lemma QueuedJobIsServed(s: State)
    requires Inv(s) && s.tasks != []
    ensures exists step :: WorkerStep(step) && !step.Sleep? && Enabled(s, step)
  {
    var step := NextOf(s);
    assert WorkerStep(step) && Enabled(s, step);
  }

  /** What a worker that is awake does next. */
  ghost function NextOf(s: State): Step {
    match s.worker
    case Waiting => if s.tasks != [] then Take else if s.exitSignal then WakeEmpty else Sleep
    case Ready(_, _) => BeginAttempt
    case InAttempt(_, _) => EndAttempt(Success)
    case Checking(_, _) => CheckStop
    case _ => NextRound
  }

  /** How many steps the worker has left at most once it has been told to exit. */
  ghost function StepsLeft(worker: Worker): nat {
    match worker
    case Ready(_, _) => 5
    case InAttempt(_, _) => 4
    case Checking(_, _) => 3
    case Waiting => 2
    case Asleep => 2
    case Looping => 1
    case Exited => 0
  }

  ghost function WorkerSteps(steps: seq<Step>): nat {
    if steps == [] then 0 else (if WorkerStep(steps[0]) then 1 else 0) + WorkerSteps(steps[1..])
  }

  lemma ExitStep(s: State, step: Step)
    requires Inv(s) && s.exitSignal && Enabled(s, step)
    ensures Next(s, step).exitSignal
    ensures WorkerStep(step) ==> StepsLeft(Next(s, step).worker) < StepsLeft(s.worker)
    ensures !WorkerStep(step) ==> StepsLeft(Next(s, step).worker) == StepsLeft(s.worker)
    ensures !s.worker.Asleep? ==> !Next(s, step).worker.Asleep?
    ensures s.worker.Asleep? && step != Stop && step != Spurious ==> Next(s, step).worker.Asleep?
  {
    hide InOrder, Conserved, StopRecorded, DroppedBehind, Calls, EndingsTrue, AttemptsOfJob, LateAttemptsOfJob;
  }

  lemma AwakeCanGoOn(s: State)
    requires !s.worker.Asleep?
    ensures s.worker.Exited? || (WorkerStep(NextOf(s)) && Enabled(s, NextOf(s)))
    ensures StepsLeft(s.worker) <= 5
  {
  }

  /** The destructor waits for a worker that has been told to exit.  A worker that is awake by then
      takes at most five more steps, whatever the other threads do, and until it has exited it can
      always take one. */
  lemma {:induction false} AwakeWorkerExits(s: State, steps: seq<Step>)
    requires Inv(s) && s.exitSignal && !s.worker.Asleep? && Possible(s, steps)
    ensures WorkerSteps(steps) + StepsLeft(Run(s, steps).worker) <= StepsLeft(s.worker) <= 5
    ensures Run(s, steps).worker.Exited?
            || exists step :: WorkerStep(step) && Enabled(Run(s, steps), step)
    decreases |steps|
  {
    hide Inv, Next, NextOf, Enabled, WorkerStep, StepsLeft;
    AwakeCanGoOn(s);
    if steps != [] {
      InvKept(s, steps[0]);
      ExitStep(s, steps[0]);
      AwakeWorkerExits(Next(s, steps[0]), steps[1..]);
    }
  }

  /** A worker that is asleep by then has missed its notification, which stop() gives before the exit
      signal is raised: unless it is woken by accident or by another stop it never exits. */
  lemma {:induction false} SleepingWorkerStays(s: State, steps: seq<Step>)
    requires Inv(s) && s.exitSignal && s.worker.Asleep? && Possible(s, steps)
    requires Stop !in steps && Spurious !in steps
    ensures Run(s, steps).worker.Asleep?
    decreases |steps|
  {
    if steps != [] {
      assert steps == [steps[0]] + steps[1..];
      InvKept(s, steps[0]);
      ExitStep(s, steps[0]);
      hide Inv, Next;
      SleepingWorkerStays(Next(s, steps[0]), steps[1..]);
    }
  }

  /** When the destructor of a sequence can come to its end without the help of an accident or of
      another stop: if and only if the worker is not asleep when the exit signal is raised. */
  lemma DestructorEndsIff(s: State)
    requires Inv(s) && s.exitSignal
    ensures (exists steps ::
               Stop !in steps && Spurious !in steps && Possible(s, steps) && Run(s, steps).worker.Exited?)
       <==> !s.worker.Asleep?
  {
    if s.worker.Asleep? {
      forall steps | Stop !in steps && Spurious !in steps && Possible(s, steps)
        ensures !Run(s, steps).worker.Exited?
      {
        SleepingWorkerStays(s, steps);
      }
    } else {
      var steps := ToExit(s);
      assert Possible(s, steps);
    }
  }

  lemma NotNoticed(step: Step)
    requires WorkerStep(step)
    ensures step != Stop && step != Spurious
  {
  }

  lemma ToExit(s: State) returns (steps: seq<Step>)
    requires Inv(s) && s.exitSignal && !s.worker.Asleep?
    ensures Stop !in steps && Spurious !in steps && Possible(s, steps) && Run(s, steps).worker.Exited?
    decreases StepsLeft(s.worker)
  {
    if s.worker.Exited? {
      steps := [];
    } else {
      var step := NextOf(s);
      AwakeCanGoOn(s);
      InvKept(s, step);
      ExitStep(s, step);
      NotNoticed(step);
      hide Inv, Next, NextOf, Enabled, WorkerStep;
      var rest := ToExit(Next(s, step));
      RunOne(s, step, rest);
      steps := [step] + rest;
    }
  }

  /** The order of events in which that happens: the worker tests its condition after it was notified
      and before the signal is up. */
  lemma DestructorMayHang()
    ensures
      var steps := [Destroy, Stop, Sleep, SignalExit];
      && Possible(INITIAL, steps)
      && Inv(Run(INITIAL, steps)) && Run(INITIAL, steps).exitSignal
      && Run(INITIAL, steps).worker.Asleep?
  {
    hide Inv;
    var s1 := Next(INITIAL, Destroy);
    var s2 := Next(s1, Stop);
    var s3 := Next(s2, Sleep);
    RunOne(s3, SignalExit, []);
    RunOne(s2, Sleep, [SignalExit]);
    RunOne(s1, Stop, [Sleep, SignalExit]);
    RunOne(INITIAL, Destroy, [Stop, Sleep, SignalExit]);
    InitiallySafe();
    EveryRunIsSafe(INITIAL, [Destroy, Stop, Sleep, SignalExit]);
  }

  // ---------------------------------------------------------------- what the invariant means

  lemma {:induction false} IdsMultiset(n: nat, id: JobId)
    ensures multiset(Ids(n))[id] == if id < n then 1 else 0
  {
    if n != 0 {
      IdsMultiset(n - 1, id);
      assert Ids(n) == Ids(n - 1) + [n - 1];
    }
  }

  /** Each attached job is in exactly one place, and nothing else is anywhere. */
  lemma EachJobInOnePlace(s: State, id: JobId)
    requires Inv(s)
    ensures multiset(s.tasks)[id] + multiset(Running(s))[id] + multiset(Finished(s))[id] + multiset(s.dropped)[id]
         == if id < s.attached then 1 else 0
  {
    hide InOrder, Calls, EndingsTrue, StopRecorded, AttemptsOfJob, LateAttemptsOfJob, Finished, Running;
    IdsMultiset(s.attached, id);
    assert (multiset(s.tasks) + multiset(Running(s)) + multiset(Finished(s)) + multiset(s.dropped))[id]
        == multiset(Ids(s.attached))[id];
  }

  lemma {:induction false} IncreasingFills(ids: seq<JobId>, n: nat)
    requires Increasing(ids) && |ids| == n && forall i | 0 <= i < n :: ids[i] < n
    ensures ids == Ids(n)
    decreases n
  {
    if n != 0 {
      assert ids[n - 1] >= n - 1 by {
        IncreasingAtLeast(ids, n - 1);
      }
      IncreasingFills(ids[..n - 1], n - 1);
      assert ids == ids[..n - 1] + [n - 1];
    }
  }

  lemma {:induction false} IncreasingAtLeast(ids: seq<JobId>, i: nat)
    requires Increasing(ids) && i < |ids|
    ensures i <= ids[i]
  {
    if i != 0 {
      IncreasingAtLeast(ids, i - 1);
    }
  }

  /** Until something is dropped, the started jobs followed by the queued ones are all the jobs
      attached, in the order of attachment: none is skipped or overtaken. */
  lemma StartedInAttachmentOrder(s: State)
    requires Inv(s) && s.dropped == []
    ensures s.started + s.tasks == Ids(s.attached)
  {
    hide Calls, EndingsTrue, StopRecorded, AttemptsOfJob, LateAttemptsOfJob, Finished, Running;
    var all := s.started + s.tasks;
    assert multiset(all) == multiset(Ids(s.attached));
    assert |multiset(all)| == |all| && |multiset(Ids(s.attached))| == s.attached;
    forall i | 0 <= i < |all| ensures all[i] < s.attached {
      if i >= |s.started| {
        assert all[i] == s.tasks[i - |s.started|];
      }
    }
    IncreasingFills(all, s.attached);
  }

  /** When the worker has exited, as the destructor waits for, every job ever attached has finished or
      been dropped, and no step starts another. */
  lemma NothingLeftAfterExit(s: State, step: Step)
    requires Inv(s) && s.worker.Exited? && Enabled(s, step)
    ensures multiset(Finished(s)) + multiset(s.dropped) == multiset(Ids(s.attached))
    ensures Next(s, step).worker.Exited? && Next(s, step).started == s.started && Next(s, step).attached == s.attached
  {
    hide Calls, EndingsTrue, AttemptsOfJob, LateAttemptsOfJob, Finished, InOrder;
  }

  /** join() does not block: there is no future, or its job has ended, or was destroyed unrun. */
  predicate JoinReturns(s: State) {
    match s.lastFuture
    case Invalid => true
    case Of(job) => job in Finished(s) || job in s.dropped
    case Refused => true
  }

  /** join() blocks exactly while the job attached last is queued or running.  It never blocks before
      anything was attached, or after an attachment was refused. */
  lemma JoinBlocksIff(s: State)
    requires Inv(s)
    ensures !JoinReturns(s) <==>
              s.lastFuture.Of? && (s.lastFuture.job in s.tasks || s.lastFuture.job in Running(s))
  {
    if s.lastFuture.Of? {
      EachJobInOnePlace(s, s.lastFuture.job);
      assert s.lastFuture.job < s.attached;
    }
    hide Inv, Finished, Running;
  }

  /** As long as no stop has found a queued job, join() returns exactly when every job attached so far
      has finished, in order. */
  lemma JoinMeansAllFinished(s: State)
    requires Inv(s) && s.dropped == [] && !s.lastFuture.Refused?
    ensures JoinReturns(s) <==> Finished(s) == Ids(s.attached)
    ensures JoinReturns(s) ==> s.tasks == [] && Running(s) == []
  {
    hide Calls, EndingsTrue, AttemptsOfJob, LateAttemptsOfJob, Finished, Running, Conserved;
    StartedInAttachmentOrder(s);
    if s.attached != 0 && Finished(s) == Ids(s.attached) {
      assert Finished(s)[s.attached - 1] == s.attached - 1;
    }
    if s.attached == 0 {
      assert |s.started + s.tasks| == 0;
    } else if JoinReturns(s) {
      var last := s.attached - 1;
      TakenIsNew(s);
      var i :| 0 <= i < |s.started| && s.started[i] == last;
      assert (s.started + s.tasks)[i] == i;
      assert |s.started + s.tasks| == s.attached;
      if Running(s) != [] {
        LastStartedRuns(s);
      }
    }
  }

  lemma LastStartedRuns(s: State)
    requires InOrder(s) && Running(s) != []
    ensures s.started != [] && s.started[|s.started| - 1] !in Finished(s)
  {
    TakenIsNew(s);
    assert Running(s) == [s.worker.job];
  }

  /** Whatever was stopped or dropped before: when join() returns, nothing is queued, and if a job is
      still running then the last attached job was dropped by a stop. */
  lemma JoinLeavesAtMostTheRunningJob(s: State)
    requires Inv(s) && s.lastFuture.Of? && JoinReturns(s)
    ensures s.tasks == []
    ensures Running(s) != [] ==> s.lastFuture.job in s.dropped
  {
    hide Calls, EndingsTrue, AttemptsOfJob, LateAttemptsOfJob, Finished, Running, Conserved;
    var last := s.lastFuture.job;
    assert s.tasks != [] ==> s.tasks[0] in s.tasks;
    if last in Finished(s) {
      TakenIsNew(s);
      IncreasingPrefix(s.started, s.tasks);
      var i :| 0 <= i < |s.started| && s.started[i] == last;
      if Running(s) != [] {
        LastStartedRuns(s);
      }
    }
  }

  /** When join() keeps its promise to join all jobs: on its return every job attached so far has
      finished if and only if no stop has found a job in the queue. */
  lemma JoinCompletesIff(s: State)
    requires Inv(s) && !s.lastFuture.Refused? && JoinReturns(s)
    ensures Finished(s) == Ids(s.attached) <==> s.dropped == []
  {
    if s.dropped == [] {
      JoinMeansAllFinished(s);
    } else {
      var d := s.dropped[0];
      EachJobInOnePlace(s, d);
      IdsMultiset(s.attached, d);
      assert d in s.dropped;
    }
  }

  /** With a stop in between, join() may return while a job is still in the middle of an attempt:
      the job whose future it waits for has been cleared from the queue. */
  lemma JoinAfterStopIsEarly()
    ensures
      var steps := [Attach, Attach, Take, BeginAttempt, Stop];
      && Possible(INITIAL, steps)
      && JoinReturns(Run(INITIAL, steps))
      && Run(INITIAL, steps).worker == InAttempt(0, 0)
  {
    var s1 := Next(INITIAL, Attach);
    var s2 := Next(s1, Attach);
    var s3 := Next(s2, Take);
    var s4 := Next(s3, BeginAttempt);
    var s5 := Next(s4, Stop);
    assert s2.tasks == [0, 1];
    assert s5.dropped == [1];
    RunOne(s4, Stop, []);
    RunOne(s3, BeginAttempt, [Stop]);
    RunOne(s2, Take, [BeginAttempt, Stop]);
    RunOne(s1, Attach, [Take, BeginAttempt, Stop]);
    RunOne(INITIAL, Attach, [Attach, Take, BeginAttempt, Stop]);
  }

  lemma RunOne(s: State, step: Step, rest: seq<Step>)
    requires Enabled(s, step)
    ensures Possible(Next(s, step), rest) <==> Possible(s, [step] + rest)
    ensures Possible(s, [step] + rest) ==> Run(s, [step] + rest) == Run(Next(s, step), rest)
  {
    assert ([step] + rest)[1..] == rest;
  }

  // ---------------------------------------------------------------- the object

  lemma ClearedIsEmpty(s: State)
    requires Inv(s) && s.cleared
    ensures s.tasks == []
  {
  }

  /** The source's object, one method per atomic region of its threads.  The ghost fields record the
      history. */
  class Sequence {
    var tasks: seq<JobId>
    var stopSignal: bool
    var stopped: bool
    ghost var cleared: bool
    var exitSignal: bool
    var lastFuture: Future
    var worker: Worker
    var attached: nat
    ghost var started: seq<JobId>
    ghost var finished: seq<Ending>
    ghost var dropped: seq<JobId>
    ghost var log: seq<Event>

    ghost function Model(): State
      reads this
    {
      State(tasks, stopSignal, stopped, cleared, exitSignal, lastFuture, worker, attached, started, finished,
            dropped, log)
    }

    /** Everything proved of all runs holds of the object between its steps. */
    ghost predicate Valid()
      reads this
    {
      Inv(Model())
    }

    constructor ()
      ensures Valid() && Model() == INITIAL
    {
      tasks, stopSignal, stopped, exitSignal := [], false, false, false;
      lastFuture, worker, attached := Invalid, Waiting, 0;
      cleared, started, finished, dropped, log := false, [], [], [], [];
      new;
      hide Inv;
      InitiallySafe();
    }

    /** attach_job: the future is stored first, then the job is queued unless the sequence is being
        destroyed, which is a fatal error. */
    method AttachJob() returns (accepted: bool)
      requires Enabled(Model(), Attach) && Valid()
      modifies this
      ensures Valid() && Model() == Next(old(Model()), Attach)
      ensures accepted == !old(stopped)
      ensures worker == if accepted then Notified(old(worker)) else old(worker)
      ensures accepted ==> tasks == old(tasks) + [old(attached)] && lastFuture == Of(old(attached))
      ensures accepted ==> attached == old(attached) + 1
      ensures !accepted ==> tasks == old(tasks) && lastFuture == Refused && attached == old(attached)
    {
      hide Inv;
      InvKept(Model(), Attach);
      lastFuture := Of(attached);
      if stopped {
        lastFuture := Refused;
        return false;
      }
      tasks := tasks + [attached];
      attached := attached + 1;
      worker := Notified(worker);
      return true;
    }

    /** The worker comes out of its wait, which it does on a queued job or on the exit signal. */
    method Wake()
      requires Enabled(Model(), if tasks == [] then WakeEmpty else Take) && Valid()
      modifies this
      ensures Valid() && Model() == Next(old(Model()), if old(tasks) == [] then WakeEmpty else Take)
      ensures old(tasks) == [] ==> worker == Looping && tasks == []
      ensures old(tasks) != [] ==> [worker.job] + tasks == old(tasks) && worker == Ready(worker.job, 0)
    {
      hide Inv;
      InvKept(Model(), if tasks == [] then WakeEmpty else Take);
      if tasks == [] {
        worker := Looping;
        return;
      }
      var tsk := tasks[0];
      tasks := tasks[1..];
      worker := Ready(tsk, 0);
      started := started + [tsk];
    }

    /** The condition of the wait does not hold: the worker sleeps until it is notified. */
    method Rest()
      requires Enabled(Model(), Sleep) && Valid()
      modifies this
      ensures Valid() && Model() == Next(old(Model()), Sleep)
      ensures worker.Asleep?
    {
      hide Inv;
      InvKept(Model(), Sleep);
      worker := Asleep;
    }

    /** The queued closure calls its job. */
    method Call()
      requires worker.Ready? && Valid()
      modifies this
      ensures Valid() && Model() == Next(old(Model()), BeginAttempt)
      ensures worker == InAttempt(old(worker).job, old(worker).index)
      ensures log == old(log) + [Began(worker.job, worker.index, stopSignal)]
    {
      hide Inv;
      InvKept(Model(), BeginAttempt);
      log := log + [Began(worker.job, worker.index, stopSignal)];
      worker := InAttempt(worker.job, worker.index);
    }

    /** The job comes back. */
    method Return(outcome: Outcome)
      requires worker.InAttempt? && Valid()
      modifies this
      ensures Valid() && Model() == Next(old(Model()), EndAttempt(outcome))
      ensures outcome == Retry ==> worker == Checking(old(worker).job, old(worker).index + 1)
      ensures outcome != Retry ==> worker == Looping
      ensures finished == old(finished) +
                (match outcome
                 case Success => [Ending(old(worker).job, ReturnedTrue)]
                 case Threw => [Ending(old(worker).job, RaisedException)]
                 case Retry => [])
    {
      hide Inv;
      InvKept(Model(), EndAttempt(outcome));
      log := log + [Returned(worker.job, worker.index, outcome)];
      match outcome
      case Success =>
        finished := finished + [Ending(worker.job, ReturnedTrue)];
        worker := Looping;
      case Threw =>
        finished := finished + [Ending(worker.job, RaisedException)];
        worker := Looping;
      case Retry =>
        worker := Checking(worker.job, worker.index + 1);
    }

    /** The condition of the do-while loop: try again unless the stop signal is up. */
    method TestStop()
      requires worker.Checking? && Valid()
      modifies this
      ensures Valid() && Model() == Next(old(Model()), CheckStop)
      ensures worker == if stopSignal then Looping else Ready(old(worker).job, old(worker).index)
    {
      hide Inv;
      InvKept(Model(), CheckStop);
      if stopSignal {
        finished := finished + [Ending(worker.job, SawStop)];
        worker := Looping;
      } else {
        worker := Ready(worker.job, worker.index);
      }
    }

    /** ManagedJob's loop: another round unless the exit signal is up. */
    method Loop()
      requires Enabled(Model(), NextRound) && Valid()
      modifies this
      ensures Valid() && Model() == Next(old(Model()), NextRound)
      ensures worker.Exited? <==> exitSignal
    {
      hide Inv;
      InvKept(Model(), NextRound);
      worker := if exitSignal then Exited else Waiting;
    }

    /** stop(): clear the queue and raise the signal; raising it a second time changes nothing. */
    method StopJobs()
      requires Enabled(Model(), Stop) && Valid()
      modifies this
      ensures Valid() && Model() == Next(old(Model()), Stop)
      ensures tasks == [] && stopSignal && dropped == old(dropped) + old(tasks)
      ensures worker == Notified(old(worker))
    {
      hide Inv;
      InvKept(Model(), Stop);
      dropped := dropped + tasks;
      tasks := [];
      stopSignal := true;
      cleared := stopped;
      worker := Notified(worker);
    }

    /** ~Sequence refuses new jobs, calls stop(), and then tells the worker to exit; other threads may
        take steps in between. */
    method BeginDestruction()
      requires Enabled(Model(), Destroy) && Valid()
      modifies this
      ensures Valid() && Model() == Next(old(Model()), Destroy)
      ensures stopped && tasks == old(tasks) && worker == old(worker)
    {
      hide Inv;
      InvKept(Model(), Destroy);
      stopped := true;
    }

    method RaiseExit()
      requires Enabled(Model(), SignalExit) && Valid()
      modifies this
      ensures Valid() && Model() == Next(old(Model()), SignalExit)
      ensures exitSignal && tasks == [] && worker == old(worker)
    {
      ClearedIsEmpty(Model());
      hide Inv;
      InvKept(Model(), SignalExit);
      exitSignal := true;
    }
  }
}
