/**
 How deliveries and cancellations end: what is recorded when a delivery succeeds, fails, is aborted or
 is told to cancel, and when a call of `cancel` is carried out.
 */
module JobOutcomes {
  import opened Basics
  import opened JobProtocol

  /** A delivery goes on `n` times. */
  function Goes(d: nat, n: nat): seq<Event>
  {
    if n == 0 then [] else [Go(d)] + Goes(d, n - 1)
  }

  lemma RunFirst(s: State, e: Event, rest: seq<Event>)
    ensures Run(s, [e] + rest) == Run(Step(s, e), rest)
  {
    hide Step;
    assert ([e] + rest)[1..] == rest;
  }

  lemma GoesTwice(s: State, d: nat)
    ensures Run(s, Goes(d, 2)) == Step(Step(s, Go(d)), Go(d))
  {
    hide Step;
    assert Goes(d, 0) == [] && Goes(d, 1) == [Go(d)] + [] && Goes(d, 2) == [Go(d)] + Goes(d, 1);
    RunFirst(s, Go(d), Goes(d, 1));
    RunFirst(Step(s, Go(d)), Go(d), []);
    RunNone(Step(Step(s, Go(d)), Go(d)));
  }

  /** The state in which delivery `d` is at the point, still or no longer guarded. */
  function Moved(s: State, d: nat, point: Point, guarded: bool): State
    requires d < |s.deliveries|
  {
    s.(deliveries := s.deliveries[d := s.deliveries[d].(point := point, guarded := guarded)])
  }

  /** The job is written with a status that is final. */
  function Final(s: State, status: JobStatus): State
  {
    s.(job := JobRow(status, s.job.cancelRequested, true))
  }

  lemma SaysFailure(s: State, d: nat)
    requires d < |s.deliveries|
    ensures var g := s.deliveries[d].guarded;
            && (s.deliveries[d].point == SayFailed ==> Step(s, Go(d)) == Final(Moved(s, d, SayBroken, g), Failed))
            && (s.deliveries[d].point == SayBroken ==> Step(s, Go(d)) == Moved(s, d, Over, g).(document := Broken))
  {
  }

  lemma SaysCancellation(s: State, d: nat)
    requires d < |s.deliveries|
    ensures var g := s.deliveries[d].guarded;
            && (s.deliveries[d].point == SayCancelled ==> Step(s, Go(d)) == Final(Moved(s, d, SayWithdrawn, g), Cancelled))
            && (s.deliveries[d].point == SayWithdrawn ==> Step(s, Go(d)) == Moved(s, d, Over, g).(document := Withdrawn))
            && (s.deliveries[d].point == Terminate ==> Step(s, Go(d)) == Moved(s, d, SayCancelled, g))
  {
  }

  lemma IsDiverted(s: State, d: nat)
    requires d < |s.deliveries| && s.deliveries[d].guarded && s.deliveries[d].point != Over
    ensures Step(s, Fail(d, false)) == Moved(s, d, SayFailed, false)
    ensures Step(s, Interrupt(d, false)) == Moved(s, d, SayCancelled, false)
  {
  }

  /** A delivery that fails inside the guarded block records a failed job and a broken document. */
  lemma FailureIsRecorded(s: State, d: nat)
    requires d < |s.deliveries| && s.deliveries[d].guarded && s.deliveries[d].point != Over
    ensures Run(s, [Fail(d, false)] + Goes(d, 2)) == Final(Moved(s, d, Over, false), Failed).(document := Broken)
  {
    hide Step, Run, Goes;
    IsDiverted(s, d);
    RunFirst(s, Fail(d, false), Goes(d, 2));
    var t := Moved(s, d, SayFailed, false);
    GoesTwice(t, d);
    SaysFailure(t, d);
    SaysFailure(Final(Moved(t, d, SayBroken, false), Failed), d);
  }

  /** One that is aborted there records a cancelled job and a withdrawn document. */
  lemma AbortIsRecorded(s: State, d: nat)
    requires d < |s.deliveries| && s.deliveries[d].guarded && s.deliveries[d].point != Over
    ensures Run(s, [Interrupt(d, false)] + Goes(d, 2)) == Final(Moved(s, d, Over, false), Cancelled).(document := Withdrawn)
  {
    hide Step, Run, Goes;
    IsDiverted(s, d);
    RunFirst(s, Interrupt(d, false), Goes(d, 2));
    Cancels(Moved(s, d, SayCancelled, false), d);
  }

  lemma Cancels(s: State, d: nat)
    requires d < |s.deliveries| && s.deliveries[d].point == SayCancelled
    ensures Run(s, Goes(d, 2)) == Final(Moved(s, d, Over, s.deliveries[d].guarded), Cancelled).(document := Withdrawn)
  {
    hide Step, Run, Goes;
    GoesTwice(s, d);
    SaysCancellation(s, d);
    SaysCancellation(Final(Moved(s, d, SayWithdrawn, s.deliveries[d].guarded), Cancelled), d);
  }

  /** Before the guarded block a failure or an abort ends the delivery, and nothing is recorded. */
  lemma UnguardedEnds(s: State, d: nat, e: Event)
    requires d < |s.deliveries| && !s.deliveries[d].guarded && (e == Fail(d, false) || e == Interrupt(d, false))
    ensures Step(s, e) == Moved(s, d, Over, false)
  {
  }

  /** The delivery has read the request. */
  function Told(s: State, d: nat, point: Point): State
    requires d < |s.deliveries|
  {
    s.(deliveries := s.deliveries[d := s.deliveries[d].(point := point, told := true)])
  }

  lemma Reads(s: State, d: nat)
    requires d < |s.deliveries| && s.job.cancelRequested
    ensures s.deliveries[d].point == FirstRead ==> Step(s, Go(d)) == Told(s, d, SayCancelled)
    ensures s.deliveries[d].point == Poll ==> Step(s, Go(d)) == Told(s, d, Terminate)
  {
  }

  /** A delivery that reads the request first thing records a cancelled job and a withdrawn document. */
  lemma RequestIsObeyedFirst(s: State, d: nat)
    requires d < |s.deliveries| && s.deliveries[d].point == FirstRead && s.job.cancelRequested
    ensures Run(s, Goes(d, 3)) == Final(Told(s, d, Over), Cancelled).(document := Withdrawn)
  {
    hide Step, Run, Goes;
    GoesSplit(s, d, 2);
    Reads(s, d);
    Cancels(Told(s, d, SayCancelled), d);
  }

  lemma GoesSplit(s: State, d: nat, n: nat)
    ensures Run(s, Goes(d, n + 1)) == Run(Step(s, Go(d)), Goes(d, n))
  {
    hide Step, Run;
    RunFirst(s, Go(d), Goes(d, n));
  }

  /** One that reads it while it waits stops its subprocess and records the same. */
  lemma RequestIsObeyedLater(s: State, d: nat)
    requires d < |s.deliveries| && s.deliveries[d].point == Poll && s.job.cancelRequested
    ensures Run(s, Goes(d, 4)) == Final(Told(s, d, Over), Cancelled).(document := Withdrawn)
  {
    hide Step, Run, Goes;
    GoesSplit(s, d, 3);
    Reads(s, d);
    var t := Told(s, d, Terminate);
    GoesSplit(t, d, 2);
    SaysCancellation(t, d);
    Cancels(Moved(t, d, SayCancelled, t.deliveries[d].guarded), d);
  }

  /* ---- success ---- */

  lemma Begins(s: State, d: nat)
    requires d < |s.deliveries|
    ensures var v, g := s.deliveries[d], s.deliveries[d].guarded;
            && (v.point == FirstRead && !s.job.cancelRequested ==> Step(s, Go(d)) == Moved(s, d, SayRunning, g))
            && (v.point == SayRunning ==>
                  Step(s, Go(d)) == Moved(s, d, SayProcessing, g).(job := JobRow(Running, s.job.cancelRequested, s.job.finished)))
            && (v.point == SayProcessing ==> Step(s, Go(d)) == Moved(s, d, Spawn, true).(document := Processing))
            && (v.point == Spawn ==> Step(s, Go(d)) == Moved(s, d, Check, g))
  {
  }

  /** A delivery begins: the job is running and the document in work before the subprocess is started. */
  lemma BeginningIsRecorded(s: State, d: nat)
    requires d < |s.deliveries| && s.deliveries[d].point == FirstRead && !s.job.cancelRequested
    ensures Run(s, Goes(d, 2)) == Moved(s, d, SayProcessing, s.deliveries[d].guarded).(job := JobRow(Running, false, s.job.finished))
    ensures Run(s, Goes(d, 4)) == Moved(s, d, Check, true).(job := JobRow(Running, false, s.job.finished), document := Processing)
  {
    hide Step, Run, Goes;
    var g := s.deliveries[d].guarded;
    GoesTwice(s, d);
    Begins(s, d);
    var t := Moved(s, d, SayRunning, g);
    Begins(t, d);
    GoesSplit(s, d, 3);
    GoesSplit(t, d, 2);
    var u := Moved(t, d, SayProcessing, g).(job := JobRow(Running, false, s.job.finished));
    GoesTwice(u, d);
    Begins(u, d);
    Begins(Moved(u, d, Spawn, true).(document := Processing), d);
  }

  lemma Ends(s: State, d: nat)
    requires d < |s.deliveries|
    ensures var v, g := s.deliveries[d], s.deliveries[d].guarded;
            && (v.point == Check && v.exited ==> Step(s, Go(d)) == Moved(s, d, Parse, g))
            && (v.point == Parse ==> Step(s, Go(d)) == Moved(s, d, SayCompleted, g))
            && (v.point == SayCompleted ==> Step(s, Go(d)) == Final(Moved(s, d, SayReady, g), Completed))
            && (v.point == SayReady ==> Step(s, Go(d)) == Moved(s, d, Over, g).(document := Ready))
  {
  }

  /** Once its subprocess has exited it records a completed job, then a ready document, and is over. */
  lemma SuccessIsRecorded(s: State, d: nat)
    requires d < |s.deliveries| && s.deliveries[d].point == Check && s.deliveries[d].exited
    ensures Run(s, Goes(d, 4)) == Final(Moved(s, d, Over, s.deliveries[d].guarded), Completed).(document := Ready)
  {
    hide Step, Run, Goes;
    var g := s.deliveries[d].guarded;
    GoesSplit(s, d, 3);
    Ends(s, d);
    var t := Moved(s, d, Parse, g);
    GoesSplit(t, d, 2);
    Ends(t, d);
    var u := Moved(t, d, SayCompleted, g);
    GoesTwice(u, d);
    Ends(u, d);
    Ends(Final(Moved(u, d, SayReady, g), Completed), d);
  }

  /** Until then it waits, looks for a request and says how far it is; neither status changes. */
  lemma WaitingChangesNothing(s: State, d: nat)
    requires d < |s.deliveries| && s.deliveries[d].point == Check && !s.deliveries[d].exited && !s.job.cancelRequested
    ensures Run(s, Goes(d, 5)) == s
  {
    hide Step, Run, Goes;
    var g := s.deliveries[d].guarded;
    GoesSplit(s, d, 4);
    Waits(s, d);
    var t := Moved(s, d, Wait, g);
    GoesSplit(t, d, 3);
    Waits(t, d);
    var u := Moved(t, d, Poll, g);
    GoesSplit(u, d, 2);
    Waits(u, d);
    var v := Moved(u, d, SayProgress, g);
    GoesTwice(v, d);
    Waits(v, d);
    Waits(Moved(v, d, SayDocProgress, g), d);
    assert s.deliveries[d := s.deliveries[d]] == s.deliveries;
  }

  lemma Waits(s: State, d: nat)
    requires d < |s.deliveries| && !s.deliveries[d].exited && !s.job.cancelRequested
    ensures var p, g := s.deliveries[d].point, s.deliveries[d].guarded;
            && (p == Check ==> Step(s, Go(d)) == Moved(s, d, Wait, g))
            && (p == Wait ==> Step(s, Go(d)) == Moved(s, d, Poll, g))
            && (p == Poll ==> Step(s, Go(d)) == Moved(s, d, SayProgress, g))
            && (p == SayProgress ==> Step(s, Go(d)) == Moved(s, d, SayDocProgress, g))
            && (p == SayDocProgress ==> Step(s, Go(d)) == Moved(s, d, Check, g))
  {
  }

  /* ---- calls of `cancel` ---- */

  /** A call on a job that has ended is refused and changes nothing. */
  lemma RefusedCancel(s: State, c: nat)
    requires c < |s.cancels| && s.cancels[c] == Ask
    requires s.job.status == Completed || s.job.status == Failed || s.job.status == Cancelled
    ensures Step(s, CancelGoes(c)) == s.(cancels := s.cancels[c := Finished(false)])
  {
  }

  /** A call on any other sets the request, aborts the delivery, and closes the job and the document. */
  lemma AcceptedCancel(s: State, c: nat)
    requires c < |s.cancels| && s.cancels[c] == Ask && (s.job.status == Queued || s.job.status == Running)
    ensures var asked := Step(s, CancelGoes(c));
            var aborted := Step(asked, CancelGoes(c));
            var closed := Step(aborted, CancelGoes(c));
            && asked == s.(job := JobRow(s.job.status, true, s.job.finished), cancels := s.cancels[c := Abort])
            && aborted == asked.(cancels := s.cancels[c := CloseJob])
            && closed == asked.(job := JobRow(Cancelled, true, true), cancels := s.cancels[c := CloseDocument])
            && Step(closed, CancelGoes(c)) == closed.(document := Withdrawn, cancels := s.cancels[c := Finished(true)])
  {
  }

  /* ---- calls left running ---- */

  /** A call that is left running does what it would have done, whenever it lands. */
  lemma LeftCallLands(s: State, d: nat, e: Event)
    requires d < |s.deliveries| && WriteAt(s.deliveries[d].point) != NoWrite && (e == Fail(d, true) || e == Interrupt(d, true))
    ensures var t := Step(s, e);
            && t.left == s.left + [Left(Some(d), WriteAt(s.deliveries[d].point))]
            && Step(t, Land(|s.left|)).job == Step(s, Go(d)).job && Step(t, Land(|s.left|)).document == Step(s, Go(d)).document
            && Step(t, Land(|s.left|)).left == s.left
  {
    hide WriteAt, Next, Diverted, JobAfter, DocumentAfter;
  }
}
