/**
 Cancelling an ingestion job while it may be delivered to workers several times: persistence.py,
 jobs.py and ingestion_worker.py as processes that interleave between their awaits.
 */
module JobProtocol {
  import opened Basics

  datatype JobStatus = Queued | Running | Completed | Failed | Cancelled

  predicate Terminal(s: JobStatus)
  {
    s.Completed? || s.Failed? || s.Cancelled?
  }

  /** A job record; `finished` says whether it has a finish time. */
  datatype JobRow = JobRow(status: JobStatus, cancelRequested: bool, finished: bool)

  datatype DocStatus = Pending | Processing | Ready | Withdrawn | Broken

  /* ---- the store ---- */

  /** `request_cancel` sets the flag of a job that is not terminal. */
  function Requested(job: JobRow): JobRow
  {
    if Terminal(job.status) then job else job.(cancelRequested := true)
  }

  /** `update_job` with a status; terminal statuses are written with a finish time. */
  function Written(job: JobRow, status: JobStatus): JobRow
  {
    job.(status := status, finished := job.finished || Terminal(status))
  }

  /** The job store; its methods assign the fields of the record in place. */
  class JobStore {
    var job: JobRow

    constructor ()
      ensures job == JobRow(Queued, false, false)
    {
      job := JobRow(Queued, false, false);
    }

    method RequestCancel() returns (accepted: bool)
      modifies this
      ensures job == Requested(old(job)) && accepted == !Terminal(old(job).status)
    {
      if Terminal(job.status) {
        return false;
      }
      job := job.(cancelRequested := true);
      return true;
    }

    method UpdateJob(status: JobStatus)
      modifies this
      ensures job == Written(old(job), status)
    {
      job := job.(status := status);
      if Terminal(status) {
        job := job.(finished := true);
      }
    }
  }

  /** What a call into a store does. */
  datatype Write = NoWrite | AskCancel | SetJob(job: JobStatus) | SetDocument(document: DocStatus)

  function JobAfter(w: Write, job: JobRow): JobRow
  {
    match w
    case AskCancel => Requested(job)
    case SetJob(status) => Written(job, status)
    case _ => job
  }

  function DocumentAfter(w: Write, document: DocStatus): DocStatus
  {
    if w.SetDocument? then w.document else document
  }

  /* ---- the processes ---- */

  /**
   Where a delivery stands: before each of its reads, writes and waits.  `told` remembers that a
   read of it has seen the request to cancel.
   */
  datatype Point =
    | FirstRead
    | SayRunning | SayProcessing | Spawn
    | Check | Wait | Poll | SayProgress | SayDocProgress
    | Parse | SayCompleted | SayReady
    | Terminate | SayCancelled | SayWithdrawn
    | SayFailed | SayBroken
    | Over

  /** `guarded`: inside the block whose handlers write a final state; `exited`: the subprocess has ended. */
  datatype Delivery = Delivery(point: Point, told: bool, exited: bool, guarded: bool)

  /** Where a call of `cancel` stands. */
  datatype CancelPoint = Ask | Abort | CloseJob | CloseDocument | Finished(accepted: bool)

  /** A write whose caller no longer waits for it, and the delivery that left it, if it was one. */
  datatype Left = Left(owner: Option<nat>, write: Write)

  datatype State =
    State(job: JobRow, document: DocStatus, deliveries: seq<Delivery>, cancels: seq<CancelPoint>, left: seq<Left>)

  /**
   What happens next: a delivery goes on, is aborted, or fails; its subprocess exits; a call of
   `cancel` goes on or fails; the job is delivered once more, or not at all; `cancel` is called.
   A store is called in a thread of its own, so whoever is aborted or fails in such a call may
   leave it running: `leaves`.  Such a call lands at any time, or never.
   */
  datatype Event =
    | Go(d: nat)
    | Interrupt(d: nat, leaves: bool)
    | Fail(d: nat, leaves: bool)
    | Exit(d: nat)
    | CancelGoes(c: nat)
    | CancelFails(c: nat, leaves: bool)
    | Land(k: nat)
    | Deliver
    | Undelivered
    | CallCancel

  function At(d: Delivery, point: Point): Delivery
  {
    d.(point := point)
  }

  /** The next point of a delivery whose step succeeds; reads look at the job. */
  function Next(d: Delivery, job: JobRow): Delivery
  {
    match d.point
    case FirstRead => if job.cancelRequested then d.(point := SayCancelled, told := true) else At(d, SayRunning)
    case SayRunning => At(d, SayProcessing)
    case SayProcessing => d.(point := Spawn, guarded := true)
    case Spawn => At(d, Check)
    case Check => At(d, if d.exited then Parse else Wait)
    case Wait => At(d, Poll)
    case Poll => if job.cancelRequested then d.(point := Terminate, told := true) else At(d, SayProgress)
    case SayProgress => At(d, SayDocProgress)
    case SayDocProgress => At(d, Check)
    case Parse => At(d, SayCompleted)
    case SayCompleted => At(d, SayReady)
    case SayReady => At(d, Over)
    case Terminate => At(d, SayCancelled)
    case SayCancelled => At(d, SayWithdrawn)
    case SayWithdrawn => At(d, Over)
    case SayFailed => At(d, SayBroken)
    case SayBroken => At(d, Over)
    case Over => d
  }

  /** The write a delivery is about to make. */
  function WriteAt(point: Point): Write
  {
    match point
    case SayRunning => SetJob(Running)
    case SayProcessing => SetDocument(Processing)
    case SayCompleted => SetJob(Completed)
    case SayReady => SetDocument(Ready)
    case SayCancelled => SetJob(Cancelled)
    case SayWithdrawn => SetDocument(Withdrawn)
    case SayFailed => SetJob(Failed)
    case SayBroken => SetDocument(Broken)
    case _ => NoWrite
  }

  /** The write a call of `cancel` is about to make. */
  function CancelWriteAt(point: CancelPoint): Write
  {
    match point
    case Ask => AskCancel
    case CloseJob => SetJob(Cancelled)
    case CloseDocument => SetDocument(Withdrawn)
    case _ => NoWrite
  }

  /** The next point of a call of `cancel` whose step succeeds. */
  function CancelNext(point: CancelPoint, job: JobRow): CancelPoint
  {
    match point
    case Ask => if Terminal(job.status) then Finished(false) else Abort
    case Abort => CloseJob
    case CloseJob => CloseDocument
    case CloseDocument => Finished(true)
    case Finished(_) => point
  }

  /** An error or an abort leads to a handler inside the guarded block, and ends the delivery elsewhere. */
  function Diverted(d: Delivery, handler: Point): Delivery
  {
    if d.guarded && !d.point.Over? then d.(point := handler, guarded := false) else At(d, Over)
  }

  /** The abandoned writes, with one more if it is left running. */
  function Leave(left: seq<Left>, owner: Option<nat>, w: Write, leaves: bool): seq<Left>
  {
    if leaves && !w.NoWrite? then left + [Left(owner, w)] else left
  }

  function Divert(s: State, d: nat, handler: Point, leaves: bool): State
    requires d < |s.deliveries|
  {
    var v := s.deliveries[d];
    s.(deliveries := s.deliveries[d := Diverted(v, handler)], left := Leave(s.left, Some(d), WriteAt(v.point), leaves))
  }

  /** One event; an event of a process that is not there changes nothing. */
  function Step(s: State, e: Event): State
  {
    match e
    case Go(d) =>
      if d >= |s.deliveries| then s else
      var v := s.deliveries[d];
      var w := WriteAt(v.point);
      s.(job := JobAfter(w, s.job), document := DocumentAfter(w, s.document), deliveries := s.deliveries[d := Next(v, s.job)])
    case Interrupt(d, leaves) => if d >= |s.deliveries| then s else Divert(s, d, SayCancelled, leaves)
    case Fail(d, leaves) => if d >= |s.deliveries| then s else Divert(s, d, SayFailed, leaves)
    case Exit(d) =>
      if d >= |s.deliveries| then s else s.(deliveries := s.deliveries[d := s.deliveries[d].(exited := true)])
    case CancelGoes(c) =>
      if c >= |s.cancels| then s else
      var w := CancelWriteAt(s.cancels[c]);
      s.(job := JobAfter(w, s.job), document := DocumentAfter(w, s.document),
         cancels := s.cancels[c := CancelNext(s.cancels[c], s.job)])
    case CancelFails(c, leaves) =>
      if c >= |s.cancels| || s.cancels[c].Finished? then s
      else s.(cancels := s.cancels[c := Finished(!s.cancels[c].Ask?)],
              left := Leave(s.left, None, CancelWriteAt(s.cancels[c]), leaves))
    case Land(k) =>
      if k >= |s.left| then s else
      var w := s.left[k].write;
      s.(job := JobAfter(w, s.job), document := DocumentAfter(w, s.document), left := s.left[..k] + s.left[k + 1..])
    case Deliver => s.(deliveries := s.deliveries + [Delivery(FirstRead, false, false, false)])
    case Undelivered => s.(job := Written(s.job, Failed))
    case CallCancel => s.(cancels := s.cancels + [Ask])
  }

  const INITIAL := State(JobRow(Queued, false, false), Pending, [], [], [])

  function Run(s: State, events: seq<Event>): State
    decreases |events|
  {
    if events == [] then s else Run(Step(s, events[0]), events[1..])
  }

  lemma {:induction false} RunJoins(s: State, a: seq<Event>, b: seq<Event>)
    ensures Run(s, a + b) == Run(Run(s, a), b)
    decreases |a|
  {
    hide Step;
    if a == [] {
      assert a + b == b;
    } else {
      RunJoins(Step(s, a[0]), a[1..], b);
      assert (a + b)[1..] == a[1..] + b;
    }
  }

  /* ---- what every run keeps ---- */

  /** The points from which a delivery can no longer complete. */
  predicate Closing(point: Point)
  {
    point.Terminate? || point.SayCancelled? || point.SayWithdrawn? || point.SayFailed? || point.SayBroken? || point.Over?
  }

  /** The write completes the job or makes the document ready. */
  predicate Completing(w: Write)
  {
    w == SetJob(Completed) || w == SetDocument(Ready)
  }

  /** The call of `cancel` has been accepted and is not over. */
  predicate UnderWay(c: CancelPoint)
  {
    c.Abort? || c.CloseJob? || c.CloseDocument?
  }

  ghost predicate RightlyLeft(s: State, x: Left)
  {
    x.owner.Some? ==>
      && x.owner.value < |s.deliveries| && Closing(s.deliveries[x.owner.value].point)
      && (Completing(x.write) ==> !s.deliveries[x.owner.value].told)
  }

  /**
   A terminal job has a finish time; who has been told to cancel only closes; a call that is
   accepted has set the flag; who has left a write behind only closes, and had not been told if the
   write completes.
   */
  ghost predicate Sound(s: State)
  {
    && (Terminal(s.job.status) ==> s.job.finished)
    && (forall d | 0 <= d < |s.deliveries| && s.deliveries[d].told :: s.job.cancelRequested && Closing(s.deliveries[d].point))
    && (forall c | 0 <= c < |s.cancels| ::
          UnderWay(s.cancels[c]) ==> s.job.cancelRequested)
    && (forall x | x in s.left :: RightlyLeft(s, x))
  }

  lemma StepIsSound(s: State, e: Event)
    requires Sound(s)
    ensures Sound(Step(s, e))
    ensures s.job.cancelRequested ==> Step(s, e).job.cancelRequested
    ensures s.job.finished ==> Step(s, e).job.finished
    ensures |s.deliveries| <= |Step(s, e).deliveries|
    ensures forall d | 0 <= d < |s.deliveries| && s.deliveries[d].told :: Step(s, e).deliveries[d].told
  {
    StepKeeps(s, e);
    StepIsTimely(s, e);
    forall d | 0 <= d < |Step(s, e).deliveries| && Step(s, e).deliveries[d].told
      ensures Step(s, e).job.cancelRequested && Closing(Step(s, e).deliveries[d].point)
    {
      ToldClose(s, e, d);
    }
    forall c | 0 <= c < |Step(s, e).cancels| && UnderWay(Step(s, e).cancels[c])
      ensures Step(s, e).job.cancelRequested
    {
      UnderWayIsRequested(s, e, c);
    }
    forall x | x in Step(s, e).left ensures RightlyLeft(Step(s, e), x) {
      LeftRightly(s, e, x);
    }
    hide Step, RightlyLeft, Closing;
  }

  lemma StepIsTimely(s: State, e: Event)
    requires Terminal(s.job.status) ==> s.job.finished
    ensures Terminal(Step(s, e).job.status) ==> Step(s, e).job.finished
  {
    hide Leave, Next, Diverted;
  }

  lemma ToldClose(s: State, e: Event, d: nat)
    requires Sound(s) && d < |Step(s, e).deliveries| && Step(s, e).deliveries[d].told
    ensures Step(s, e).job.cancelRequested && Closing(Step(s, e).deliveries[d].point)
  {
    StepKeeps(s, e);
    if d < |s.deliveries| {
      ToldNext(s.deliveries[d], s.job);
      DivertedCannotComplete(s.deliveries[d], SayCancelled);
      DivertedCannotComplete(s.deliveries[d], SayFailed);
    }
    hide Leave, JobAfter, DocumentAfter, WriteAt, CancelWriteAt, CancelNext, RightlyLeft, Next, Diverted, Closing, UnderWay;
  }

  lemma ToldNext(d: Delivery, job: JobRow)
    requires d.told ==> job.cancelRequested && Closing(d.point)
    ensures Next(d, job).told ==> job.cancelRequested && Closing(Next(d, job).point)
  {
  }

  lemma UnderWayIsRequested(s: State, e: Event, c: nat)
    requires Sound(s) && c < |Step(s, e).cancels| && UnderWay(Step(s, e).cancels[c])
    ensures Step(s, e).job.cancelRequested
  {
    StepKeeps(s, e);
    hide Leave, Next, Diverted, WriteAt, RightlyLeft, Closing;
  }

  lemma StepKeeps(s: State, e: Event)
    ensures s.job.cancelRequested ==> Step(s, e).job.cancelRequested
    ensures s.job.finished ==> Step(s, e).job.finished
    ensures |s.deliveries| <= |Step(s, e).deliveries|
    ensures forall d | 0 <= d < |s.deliveries| && s.deliveries[d].told :: Step(s, e).deliveries[d].told
  {
    hide Leave;
  }

  lemma LeftRightly(s: State, e: Event, x: Left)
    requires Sound(s) && x in Step(s, e).left
    ensures RightlyLeft(Step(s, e), x)
  {
    if x in s.left {
      assert RightlyLeft(s, x);
    }
    if x.owner.Some? && x.owner.value < |s.deliveries| {
      if Closing(s.deliveries[x.owner.value].point) {
        ClosingStays(s.deliveries[x.owner.value], s.job);
      }
      DivertedCannotComplete(s.deliveries[x.owner.value], SayCancelled);
      DivertedCannotComplete(s.deliveries[x.owner.value], SayFailed);
    }
    hide JobAfter, DocumentAfter, CancelNext, WriteAt, CancelWriteAt, Next, Diverted, Closing, Completing, UnderWay, Terminal;
  }

  lemma ClosingStays(d: Delivery, job: JobRow)
    requires Closing(d.point)
    ensures Closing(Next(d, job).point) && Next(d, job).told == d.told && !Completing(WriteAt(d.point))
  {
  }

  /** In every run the flag and the finish time stay, and who has been told stays told. */
  lemma {:induction false} RunIsSound(s: State, events: seq<Event>)
    requires Sound(s)
    ensures Sound(Run(s, events))
    ensures s.job.cancelRequested ==> Run(s, events).job.cancelRequested
    ensures s.job.finished ==> Run(s, events).job.finished
    ensures |s.deliveries| <= |Run(s, events).deliveries|
    ensures forall d | 0 <= d < |s.deliveries| && s.deliveries[d].told :: Run(s, events).deliveries[d].told
    decreases |events|
  {
    hide Step, Sound;
    if events != [] {
      StepIsSound(s, events[0]);
      RunIsSound(Step(s, events[0]), events[1..]);
    }
  }

  /** Every run from the beginning keeps a terminal job finished. */
  lemma TerminalIsFinished(events: seq<Event>)
    ensures Sound(Run(INITIAL, events))
    ensures Terminal(Run(INITIAL, events).job.status) ==> Run(INITIAL, events).job.finished
  {
    RunIsSound(INITIAL, events);
  }

  /** The delivery is about to read the job. */
  predicate Reading(d: Delivery)
  {
    d.point.FirstRead? || d.point.Poll?
  }

  /**
   A delivery one of whose reads follows an accepted request never again stands where it would
   write a completed job or a ready document, and has left no such write behind.
   */
  lemma ToldNeverCompletes(before: seq<Event>, d: nat, after: seq<Event>)
    requires var s := Run(INITIAL, before);
             d < |s.deliveries| && Reading(s.deliveries[d]) && s.job.cancelRequested
    ensures var s := Run(INITIAL, before + [Go(d)] + after);
            && d < |s.deliveries| && s.deliveries[d].told && !Completing(WriteAt(s.deliveries[d].point))
            && (forall x | x in s.left && Completing(x.write) :: x.owner != Some(d))
  {
    var s := Run(INITIAL, before);
    RunIsSound(INITIAL, before);
    RunJoins(INITIAL, before, [Go(d)] + after);
    assert before + [Go(d)] + after == before + ([Go(d)] + after);
    assert ([Go(d)] + after)[1..] == after;
    StepIsSound(s, Go(d));
    assert Step(s, Go(d)).deliveries[d].told;
    hide Step;
    RunIsSound(Step(s, Go(d)), after);
  }

  /* ---- exactly when a cancelled job can still complete ---- */

  /** Past the first read and not in a wait that is followed by a poll. */
  predicate Committed(point: Point)
  {
    !Closing(point) && !point.FirstRead? && !point.Wait? && !point.Poll?
  }

  /** The job is completed, a delivery is committed to complete it, or such a write is running unattended. */
  ghost predicate MayComplete(s: State)
  {
    || s.job.status == Completed
    || (exists d | 0 <= d < |s.deliveries| :: Committed(s.deliveries[d].point) && !s.deliveries[d].point.SayReady?)
    || (exists k | 0 <= k < |s.left| :: s.left[k].write == SetJob(Completed))
  }

  /** The same for the document. */
  ghost predicate MayBeReady(s: State)
  {
    || s.document == Ready
    || (exists d | 0 <= d < |s.deliveries| :: Committed(s.deliveries[d].point))
    || (exists k | 0 <= k < |s.left| :: s.left[k].write == SetDocument(Ready))
  }

  /** The delivery can still write a completed job. */
  predicate Completes(d: Delivery)
  {
    Committed(d.point) && !d.point.SayReady?
  }

  lemma NextCannotComplete(d: Delivery, job: JobRow)
    requires job.cancelRequested
    ensures !Completes(d) ==> !Completes(Next(d, job)) && WriteAt(d.point) != SetJob(Completed)
    ensures !Committed(d.point) ==> !Committed(Next(d, job).point) && !Completing(WriteAt(d.point))
  {
  }

  lemma DivertedCannotComplete(d: Delivery, handler: Point)
    requires Closing(handler)
    ensures !Completes(Diverted(d, handler)) && !Committed(Diverted(d, handler).point)
    ensures Closing(Diverted(d, handler).point) && Diverted(d, handler).told == d.told
  {
  }

  lemma CancelCannotComplete(c: CancelPoint)
    ensures !Completing(CancelWriteAt(c))
  {
  }

  lemma StepCannotComplete(s: State, e: Event)
    requires s.job.cancelRequested && !MayComplete(s)
    ensures Step(s, e).job.cancelRequested && !MayComplete(Step(s, e))
  {
    Concerned(s, e);
    hide Next, Diverted, WriteAt, CancelWriteAt, CancelNext, JobAfter, DocumentAfter, Committed, Leave;
    LeaveAddsOne(s, e);
  }

  lemma StepCannotReady(s: State, e: Event)
    requires s.job.cancelRequested && !MayBeReady(s)
    ensures Step(s, e).job.cancelRequested && !MayBeReady(Step(s, e))
  {
    Concerned(s, e);
    hide Next, Diverted, WriteAt, CancelWriteAt, CancelNext, JobAfter, DocumentAfter, Committed, Leave;
    LeaveAddsOne(s, e);
  }

  /** The write the event makes or leaves behind. */
  function WriteOf(s: State, e: Event): Write
  {
    match e
    case Go(d) => if d < |s.deliveries| then WriteAt(s.deliveries[d].point) else NoWrite
    case Interrupt(d, _) => if d < |s.deliveries| then WriteAt(s.deliveries[d].point) else NoWrite
    case Fail(d, _) => if d < |s.deliveries| then WriteAt(s.deliveries[d].point) else NoWrite
    case CancelGoes(c) => if c < |s.cancels| then CancelWriteAt(s.cancels[c]) else NoWrite
    case CancelFails(c, _) => if c < |s.cancels| then CancelWriteAt(s.cancels[c]) else NoWrite
    case Land(k) => if k < |s.left| then s.left[k].write else NoWrite
    case Undelivered => SetJob(Failed)
    case _ => NoWrite
  }

  /** What the event does to the delivery it concerns, and what it writes. */
  lemma Concerned(s: State, e: Event)
    requires s.job.cancelRequested
    ensures !Committed(FirstRead)
    ensures e.Go? && e.d < |s.deliveries| ==>
              var v := s.deliveries[e.d];
              && (!Completes(v) ==> !Completes(Next(v, s.job)) && WriteAt(v.point) != SetJob(Completed))
              && (!Committed(v.point) ==> !Committed(Next(v, s.job).point) && !Completing(WriteAt(v.point)))
    ensures (e.Interrupt? || e.Fail?) && e.d < |s.deliveries| ==>
              var v := s.deliveries[e.d];
              && (!Completes(v) ==> WriteAt(v.point) != SetJob(Completed))
              && (!Committed(v.point) ==> !Completing(WriteAt(v.point)))
              && !Committed(Diverted(v, SayCancelled).point) && !Committed(Diverted(v, SayFailed).point)
    ensures e.CancelGoes? && e.c < |s.cancels| ==> !Completing(CancelWriteAt(s.cancels[e.c]))
    ensures e.CancelFails? && e.c < |s.cancels| ==> !Completing(CancelWriteAt(s.cancels[e.c]))
    ensures JobAfter(WriteOf(s, e), s.job).cancelRequested && Written(s.job, Failed).cancelRequested
    ensures JobAfter(WriteOf(s, e), s.job).status == Completed ==> s.job.status == Completed || WriteOf(s, e) == SetJob(Completed)
    ensures DocumentAfter(WriteOf(s, e), s.document) == Ready ==> s.document == Ready || WriteOf(s, e) == SetDocument(Ready)
  {
    hide Step, Next, Diverted, WriteAt, CancelWriteAt;
    if (e.Go? || e.Interrupt? || e.Fail?) && e.d < |s.deliveries| {
      NextCannotComplete(s.deliveries[e.d], s.job);
      DivertedCannotComplete(s.deliveries[e.d], SayCancelled);
      DivertedCannotComplete(s.deliveries[e.d], SayFailed);
    }
    if (e.CancelGoes? || e.CancelFails?) && e.c < |s.cancels| {
      CancelCannotComplete(s.cancels[e.c]);
    }
  }

  /** What is left afterwards was left before, or is the write of the event. */
  lemma LeaveAddsOne(s: State, e: Event)
    ensures forall k | 0 <= k < |Step(s, e).left| ::
              (exists j | 0 <= j < |s.left| :: s.left[j].write == Step(s, e).left[k].write) || Step(s, e).left[k].write == WriteOf(s, e)
  {
    hide Next, Diverted, WriteAt, CancelWriteAt, JobAfter, DocumentAfter;
  }

  lemma {:induction false} RunCannotComplete(s: State, events: seq<Event>)
    requires s.job.cancelRequested && !MayComplete(s)
    ensures Run(s, events).job.status != Completed
    decreases |events|
  {
    if events != [] {
      StepCannotComplete(s, events[0]);
      hide Step, MayComplete;
      RunCannotComplete(Step(s, events[0]), events[1..]);
    }
  }

  lemma {:induction false} RunCannotReady(s: State, events: seq<Event>)
    requires s.job.cancelRequested && !MayBeReady(s)
    ensures Run(s, events).document != Ready
    decreases |events|
  {
    if events != [] {
      StepCannotReady(s, events[0]);
      hide Step, MayBeReady;
      RunCannotReady(Step(s, events[0]), events[1..]);
    }
  }

  /** How far a committed delivery is from having completed, once its subprocess has exited. */
  function Distance(point: Point): nat
  {
    match point
    case SayRunning => 7 case SayProcessing => 6 case Spawn => 5
    case SayProgress => 5 case SayDocProgress => 4 case Check => 3
    case Parse => 2 case SayCompleted => 1 case _ => 0
  }

  lemma CommittedStep(s: State, d: nat)
    requires d < |s.deliveries| && Committed(s.deliveries[d].point) && !s.deliveries[d].point.SayReady?
    ensures var next := Step(Step(s, Exit(d)), Go(d));
            && d < |next.deliveries| && Committed(next.deliveries[d].point)
            && Distance(next.deliveries[d].point) < Distance(s.deliveries[d].point)
            && (next.deliveries[d].point.SayReady? ==> next.job.status == Completed)
  {
  }

  lemma RunTwo(s: State, a: Event, b: Event, rest: seq<Event>)
    ensures Run(s, [a, b] + rest) == Run(Step(Step(s, a), b), rest)
  {
    hide Step;
    assert ([a, b] + rest)[1..] == [b] + rest && ([b] + rest)[1..] == rest;
  }

  lemma RunOne(s: State, e: Event)
    ensures Run(s, [e]) == Step(s, e)
  {
    hide Step;
    assert [e][1..] == [];
  }

  lemma {:induction false} CommittedCompletes(s: State, d: nat) returns (events: seq<Event>)
    requires d < |s.deliveries| && Committed(s.deliveries[d].point)
    ensures d < |Run(s, events).deliveries| && Run(s, events).deliveries[d].point.SayReady?
    ensures if s.deliveries[d].point.SayReady? then events == [] else Run(s, events).job.status == Completed
    decreases Distance(s.deliveries[d].point)
  {
    hide Step, Committed, Distance;
    if s.deliveries[d].point.SayReady? {
      events := [];
    } else {
      var next := Step(Step(s, Exit(d)), Go(d));
      CommittedStep(s, d);
      var rest := CommittedCompletes(next, d);
      events := [Exit(d), Go(d)] + rest;
      RunTwo(s, Exit(d), Go(d), rest);
    }
  }

  lemma CompletingRun(s: State) returns (events: seq<Event>)
    requires MayComplete(s)
    ensures Run(s, events).job.status == Completed
  {
    hide Step, Run, Committed;
    if s.job.status == Completed {
      events := [];
      RunNone(s);
    } else if k: nat :| k < |s.left| && s.left[k].write == SetJob(Completed) {
      events := [Land(k)];
      RunOne(s, Land(k));
      LandsIt(s, k);
    } else {
      var d :| 0 <= d < |s.deliveries| && Committed(s.deliveries[d].point) && !s.deliveries[d].point.SayReady?;
      events := CommittedCompletes(s, d);
    }
  }

  lemma ReadyRun(s: State) returns (events: seq<Event>)
    requires MayBeReady(s)
    ensures Run(s, events).document == Ready
  {
    hide Step, Run, Committed;
    if s.document == Ready {
      events := [];
      RunNone(s);
    } else if k: nat :| k < |s.left| && s.left[k].write == SetDocument(Ready) {
      events := [Land(k)];
      RunOne(s, Land(k));
      LandsIt(s, k);
    } else {
      var d :| 0 <= d < |s.deliveries| && Committed(s.deliveries[d].point);
      var most := CommittedCompletes(s, d);
      var last := Run(s, most);
      events := most + [Go(d)];
      RunJoins(s, most, [Go(d)]);
      RunOne(last, Go(d));
      SaysReady(last, d);
    }
  }

  lemma RunNone(s: State)
    ensures Run(s, []) == s
  {
  }

  lemma LandsIt(s: State, k: nat)
    requires k < |s.left|
    ensures Step(s, Land(k)).job == JobAfter(s.left[k].write, s.job)
    ensures Step(s, Land(k)).document == DocumentAfter(s.left[k].write, s.document)
  {
  }

  lemma SaysReady(s: State, d: nat)
    requires d < |s.deliveries| && s.deliveries[d].point.SayReady?
    ensures Step(s, Go(d)).document == Ready
  {
  }

  /**
   After an accepted request the job can still be completed exactly if it is completed already, a
   delivery is committed, or a completing write has been left running; the document likewise.
   */
  lemma CompletesIffCommitted(s: State)
    requires s.job.cancelRequested
    ensures MayComplete(s) <==> exists events :: Run(s, events).job.status == Completed
    ensures MayBeReady(s) <==> exists events :: Run(s, events).document == Ready
  {
    hide Step, Run, MayComplete, MayBeReady;
    if MayComplete(s) {
      var events := CompletingRun(s);
    } else {
      forall events ensures Run(s, events).job.status != Completed {
        RunCannotComplete(s, events);
      }
    }
    if MayBeReady(s) {
      var events := ReadyRun(s);
    } else {
      forall events ensures Run(s, events).document != Ready {
        RunCannotReady(s, events);
      }
    }
  }

  /** Nothing that is going on, attended or not, can complete the job or make the document ready. */
  ghost predicate Closed(s: State)
  {
    && s.job.status != Completed && s.document != Ready
    && (forall d | 0 <= d < |s.deliveries| :: !Committed(s.deliveries[d].point))
    && (forall x | x in s.left :: !Completing(x.write))
  }

  /** After an accepted request neither ever happens exactly if nothing of the kind is going on. */
  lemma ClosedForGood(s: State)
    requires s.job.cancelRequested
    ensures Closed(s) <==> forall events :: Run(s, events).job.status != Completed && Run(s, events).document != Ready
  {
    ClosedMayNot(s);
    hide Step, Run, MayComplete, MayBeReady, Closed;
    CompletesIffCommitted(s);
  }

  lemma ClosedMayNot(s: State)
    ensures Closed(s) <==> !MayComplete(s) && !MayBeReady(s)
  {
    hide Committed;
    if Closed(s) {
      assert forall k | 0 <= k < |s.left| :: s.left[k] in s.left;
    } else if x :| x in s.left && Completing(x.write) {
      var k :| 0 <= k < |s.left| && s.left[k] == x;
    }
  }

  /** A delivery that has just started its subprocess. */
  const STARTED := State(JobRow(Running, false, false), Processing, [Delivery(Check, false, false, true)], [], [])

  /** The same after a whole call of `cancel`. */
  const CANCELLED := State(JobRow(Cancelled, true, true), Withdrawn, [Delivery(Check, false, false, true)], [Finished(true)], [])

  lemma StartRun()
    ensures Run(INITIAL, [Deliver, Go(0), Go(0), Go(0), Go(0)]) == STARTED
  {
    RunTwo(INITIAL, Deliver, Go(0), [Go(0), Go(0), Go(0)]);
    assert [Deliver, Go(0), Go(0), Go(0), Go(0)] == [Deliver, Go(0)] + [Go(0), Go(0), Go(0)];
  }

  const WHOLE_CANCEL := [CallCancel, CancelGoes(0), CancelGoes(0), CancelGoes(0), CancelGoes(0)]

  lemma CancelRun(s: State)
    requires !Terminal(s.job.status) && s.cancels == []
    ensures Run(s, WHOLE_CANCEL) == s.(job := JobRow(Cancelled, true, true), document := Withdrawn, cancels := [Finished(true)])
  {
    RunTwo(s, CallCancel, CancelGoes(0), [CancelGoes(0), CancelGoes(0), CancelGoes(0)]);
    assert WHOLE_CANCEL == [CallCancel, CancelGoes(0)] + [CancelGoes(0), CancelGoes(0), CancelGoes(0)];
  }

  lemma CancelStarted()
    ensures Run(STARTED, WHOLE_CANCEL) == CANCELLED
  {
    CancelRun(STARTED);
  }

  lemma StandsCommitted()
    ensures |CANCELLED.deliveries| == 1 && Committed(CANCELLED.deliveries[0].point) && !CANCELLED.deliveries[0].point.SayReady?
  {
  }

  /** A run in which the job is closed as cancelled and completes afterwards. */
  lemma CancelledCanComplete()
    ensures exists before, after ::
              Run(INITIAL, before) == CANCELLED && Run(INITIAL, before + after).job.status == Completed
  {
    hide *;
    var start := [Deliver, Go(0), Go(0), Go(0), Go(0)];
    StartRun();
    CancelStarted();
    StandsCommitted();
    RunJoins(INITIAL, start, WHOLE_CANCEL);
    var after := CommittedCompletes(CANCELLED, 0);
    RunJoins(INITIAL, start + WHOLE_CANCEL, after);
  }

  /** The start of that delivery carried on to the write of a completed job and aborted there. */
  const ABANDONED := State(JobRow(Running, false, false), Processing, [Delivery(SayCancelled, false, true, false)], [],
                           [Left(Some(0), SetJob(Completed))])

  /** The same when the aborted delivery and a whole call of `cancel` are over. */
  const QUIET := State(JobRow(Cancelled, true, true), Withdrawn, [Delivery(Over, false, true, false)], [Finished(true)],
                       [Left(Some(0), SetJob(Completed))])

  lemma AbandonRun()
    ensures Run(STARTED, [Exit(0), Go(0), Go(0), Interrupt(0, true)]) == ABANDONED
  {
    RunTwo(STARTED, Exit(0), Go(0), [Go(0), Interrupt(0, true)]);
    assert [Exit(0), Go(0), Go(0), Interrupt(0, true)] == [Exit(0), Go(0)] + [Go(0), Interrupt(0, true)];
  }

  lemma QuietRun()
    ensures Run(ABANDONED, WHOLE_CANCEL + [Go(0), Go(0)]) == QUIET
  {
    CancelRun(ABANDONED);
    RunJoins(ABANDONED, WHOLE_CANCEL, [Go(0), Go(0)]);
    RunTwo(Run(ABANDONED, WHOLE_CANCEL), Go(0), Go(0), []);
    assert [Go(0), Go(0)] + [] == [Go(0), Go(0)];
  }

  /** A run in which every delivery and every call of `cancel` is over, and the job completes afterwards. */
  lemma QuietCanComplete()
    ensures exists before :: Run(INITIAL, before) == QUIET && Step(QUIET, Land(0)).job.status == Completed
  {
    hide *;
    var start := [Deliver, Go(0), Go(0), Go(0), Go(0)];
    var abandon := [Exit(0), Go(0), Go(0), Interrupt(0, true)];
    var cancel := WHOLE_CANCEL + [Go(0), Go(0)];
    StartRun();
    AbandonRun();
    QuietRun();
    QuietLands();
    RunJoins(INITIAL, start, abandon);
    RunJoins(INITIAL, start + abandon, cancel);
  }

  lemma QuietLands()
    ensures Step(QUIET, Land(0)).job.status == Completed
  {
  }

  /* ---- the protocol run in place ---- */

  /** The stores and the processes around them. */
  class Service {
    const jobs: JobStore
    var document: DocStatus
    var deliveries: seq<Delivery>
    var cancels: seq<CancelPoint>
    var left: seq<Left>

    ghost function Now(): State
      reads this, jobs
    {
      State(jobs.job, document, deliveries, cancels, left)
    }

    constructor ()
      ensures fresh(jobs) && Now() == INITIAL
    {
      jobs := new JobStore();
      document := Pending;
      deliveries := [];
      cancels := [];
      left := [];
    }

    method Perform(w: Write)
      modifies this`document, jobs
      ensures jobs.job == JobAfter(w, old(jobs.job)) && document == DocumentAfter(w, old(document))
    {
      match w {
        case NoWrite =>
        case AskCancel => var accepted := jobs.RequestCancel();
        case SetJob(status) => jobs.UpdateJob(status);
        case SetDocument(status) => document := status;
      }
    }

    method Take(e: Event)
      modifies this, jobs
      ensures Now() == Step(old(Now()), e)
    {
      match e {
        case Go(d) =>
          if d < |deliveries| {
            var v := deliveries[d];
            deliveries := deliveries[d := Next(v, jobs.job)];
            Perform(WriteAt(v.point));
          }
        case Interrupt(d, leaves) =>
          if d < |deliveries| {
            left := Leave(left, Some(d), WriteAt(deliveries[d].point), leaves);
            deliveries := deliveries[d := Diverted(deliveries[d], SayCancelled)];
          }
        case Fail(d, leaves) =>
          if d < |deliveries| {
            left := Leave(left, Some(d), WriteAt(deliveries[d].point), leaves);
            deliveries := deliveries[d := Diverted(deliveries[d], SayFailed)];
          }
        case Exit(d) =>
          if d < |deliveries| {
            deliveries := deliveries[d := deliveries[d].(exited := true)];
          }
        case CancelGoes(c) =>
          if c < |cancels| {
            var point := cancels[c];
            cancels := cancels[c := CancelNext(point, jobs.job)];
            Perform(CancelWriteAt(point));
          }
        case CancelFails(c, leaves) =>
          if c < |cancels| && !cancels[c].Finished? {
            left := Leave(left, None, CancelWriteAt(cancels[c]), leaves);
            cancels := cancels[c := Finished(!cancels[c].Ask?)];
          }
        case Land(k) =>
          if k < |left| {
            var w := left[k].write;
            left := left[..k] + left[k + 1..];
            Perform(w);
          }
        case Deliver => deliveries := deliveries + [Delivery(FirstRead, false, false, false)];
        case Undelivered => jobs.UpdateJob(Failed);
        case CallCancel => cancels := cancels + [Ask];
      }
    }

    /**
     Performs any events in place: the state runs as specified, a request to cancel stays, and a
     terminal job has a finish time.
     */
    method Replay(events: seq<Event>)
      requires Sound(Now())
      modifies this, jobs
      ensures Now() == Run(old(Now()), events) && Sound(Now())
      ensures old(jobs.job).cancelRequested ==> jobs.job.cancelRequested
      ensures Terminal(jobs.job.status) ==> jobs.job.finished
    {
      ghost var start := Now();
      RunIsSound(start, events);
      assert events[0..] == events;
      for k := 0 to |events|
        invariant Run(start, events) == Run(Now(), events[k..])
      {
        assert events[k..][1..] == events[k + 1..];
        Take(events[k]);
      }
    }
  }
}
