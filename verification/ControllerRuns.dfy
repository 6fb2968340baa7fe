/** Runs of the admission controller, in which every certificate that verifies is one it issued. */
module AdmissionRuns {
  import opened Machine
  import opened ServiceCurves
  import opened Admission

  datatype Event =
    | Request(now: u64, deadline: u64, backlogBefore: nat)
    | Undo(cert: Certificate)
    | Finish(cert: Certificate, tick: u64)

  /**
   A controller with its history: certificates issued, those still standing, those rolled back, and
   whether the latest one was rolled back.
   */
  datatype System = System(controller: Controller, issued: seq<Certificate>, live: seq<Certificate>,
                           undone: seq<Certificate>, latestUndone: bool)

  function Begin(c: Controller): System {
    System(c, [], [], [], false)
  }

  function AfterRequest(s: System, now: u64, deadline: u64, backlogBefore: nat): System
    requires Shape(s.controller)
  {
    var (c, result) := Admit(s.controller, now, deadline, backlogBefore);
    match result
    case Err(_) => s.(controller := c)
    case Ok(cert) => System(c, s.issued + [cert], s.live + [cert], s.undone, false)
  }

  /** A rollback takes away the last certificate standing. */
  function AfterUndo(s: System, cert: Certificate): System {
    var (c, result) := Rollback(s.controller, cert);
    if result.Err? || s.live == [] then s.(controller := c)
    else System(c, s.issued, s.live[..|s.live| - 1], s.undone + [cert], true)
  }

  function Step(s: System, e: Event): System
    requires Shape(s.controller)
  {
    match e
    case Request(now, deadline, backlogBefore) => AfterRequest(s, now, deadline, backlogBefore)
    case Undo(cert) => AfterUndo(s, cert)
    case Finish(cert, tick) => s.(controller := Observe(s.controller, cert, tick).0)
  }

  /** Each event is one call of the controller, whatever comes of it, and the history records what was issued and rolled back. */
  lemma StepIsCall(s: System, e: Event)
    requires Shape(s.controller)
    ensures var s' := Step(s, e);
            match e
            case Request(now, deadline, backlogBefore) =>
              var (c, result) := Admit(s.controller, now, deadline, backlogBefore);
              s'.controller == c && s'.issued == if result.Ok? then s.issued + [result.value] else s.issued
            case Undo(cert) =>
              var (c, result) := Rollback(s.controller, cert);
              s'.controller == c && (result.Err? ==> s'.undone == s.undone)
            case Finish(cert, tick) =>
              s' == s.(controller := Observe(s.controller, cert, tick).0)
  {
  }

  /** Only certificates this controller issued verify. */
  predicate Honest(s: System, e: Event) {
    !e.Request? && Verified(s.controller, e.cert) ==> e.cert in s.issued
  }

  // ----- counting certificates -----

  function Count(p: Certificate -> bool, certs: seq<Certificate>): nat
    decreases |certs|
  {
    if certs == [] then 0
    else Count(p, certs[..|certs| - 1]) + if p(certs[|certs| - 1]) then 1 else 0
  }

  function OfWindow(start: int): Certificate -> bool {
    (c: Certificate) => c.windowStart == start
  }

  function Between(from: int, to: int): Certificate -> bool {
    (c: Certificate) => from <= c.admittedTick < to
  }

  lemma CountPush(p: Certificate -> bool, certs: seq<Certificate>, c: Certificate)
    ensures Count(p, certs + [c]) == Count(p, certs) + if p(c) then 1 else 0
  {
    assert (certs + [c])[..|certs|] == certs;
  }

  lemma {:induction false} CountNone(start: int, certs: seq<Certificate>)
    requires forall i :: 0 <= i < |certs| ==> certs[i].windowStart != start
    ensures Count(OfWindow(start), certs) == 0
  {
    if certs != [] {
      CountNone(start, certs[..|certs| - 1]);
    }
  }

  // ----- the invariant -----

  /** A certificate's window is one of the windows counted from `start`, is not ahead, and contains its tick. */
  ghost predicate CertOk(c: Controller, start: int, cert: Certificate) {
    && cert.windowStart <= c.windowStart && cert.admittedBefore < c.curve.maximumAdmissions
    && cert.windowStart <= cert.admittedTick < cert.windowStart + c.curve.windowTicks
    && exists k: nat :: WindowAt(start, c.curve.windowTicks, k, cert.windowStart)
  }

  ghost predicate WindowsOk(s: System, start: int) {
    && (forall i {:trigger s.issued[i]} :: 0 <= i < |s.issued| ==> CertOk(s.controller, start, s.issued[i]))
    && (forall i {:trigger s.live[i]} :: 0 <= i < |s.live| ==> CertOk(s.controller, start, s.live[i]))
    && exists k: nat :: WindowAt(start, s.controller.curve.windowTicks, k, s.controller.windowStart)
  }

  ghost predicate SequenceOk(s: System) {
    && |s.issued| == s.controller.sequence
    && (forall i {:trigger s.issued[i]} :: 0 <= i < |s.issued| ==> s.issued[i].sequence == i + 1)
  }

  ghost predicate UndoneOk(s: System) {
    && (forall i {:trigger s.undone[i]} :: 0 <= i < |s.undone| ==>
          s.undone[i].sequence < s.controller.sequence + (if s.latestUndone then 1 else 0))
    && (forall i, j {:trigger s.undone[i], s.undone[j]} :: 0 <= i < j < |s.undone| ==>
          s.undone[i].sequence < s.undone[j].sequence)
  }

  ghost predicate LatestOk(s: System) {
    s.issued != [] ==>
      var latest := s.issued[|s.issued| - 1];
      if s.latestUndone
      then latest.windowStart < s.controller.windowStart || s.controller.admitted <= latest.admittedBefore
      else s.live != [] && s.live[|s.live| - 1] == latest
  }

  ghost predicate CountsOk(s: System) {
    && (forall p {:trigger Count(p, s.issued)} :: Count(p, s.issued) == Count(p, s.live) + Count(p, s.undone))
    && Count(OfWindow(s.controller.windowStart), s.live) == s.controller.admitted
    && (forall w: int {:trigger OfWindow(w)} :: Count(OfWindow(w), s.live) <= s.controller.curve.maximumAdmissions)
  }

  ghost predicate Inv(s: System, start: int) {
    && Shape(s.controller)
    && WindowsOk(s, start)
    && SequenceOk(s)
    && UndoneOk(s)
    && LatestOk(s)
    && CountsOk(s)
  }

  // ----- advancing -----

  lemma WindowAtSum(start: int, window: nat, j: nat, x: int, k: nat, y: int)
    requires WindowAt(start, window, j, x) && WindowAt(x, window, k, y)
    ensures WindowAt(start, window, j + k, y)
  {
    assert (j + k) * window == j * window + k * window;
  }

  /** Only the window and what hangs on it has changed. */
  predicate Moved(c: Controller, c': Controller) {
    && c'.curve == c.curve && c'.sequence == c.sequence
    && ((c'.windowStart == c.windowStart && c'.admitted == c.admitted)
        || (c'.windowStart > c.windowStart && c'.admitted == 0))
  }

  lemma AdvanceIsMove(c: Controller, now: u64, start: int)
    requires Shape(c) && exists j: nat :: WindowAt(start, c.curve.windowTicks, j, c.windowStart)
    ensures var c' := Advance(c, now).0;
            && Shape(c') && Moved(c, c')
            && exists j: nat :: WindowAt(start, c.curve.windowTicks, j, c'.windowStart)
  {
    AdvanceKeepsShape(c, now);
    AdvanceFrame(c, now);
    var k := AdvanceMoves(c, now);
    var j: nat :| WindowAt(start, c.curve.windowTicks, j, c.windowStart);
    if Advance(c, now).1 != Some(TimeRegression) {
      WindowAtSum(start, c.curve.windowTicks, j, c.windowStart, k, Advance(c, now).0.windowStart);
    }
  }

  lemma MoveKeepsCounts(s: System, c': Controller, start: int)
    requires Inv(s, start) && Moved(s.controller, c')
    ensures CountsOk(s.(controller := c'))
  {
    if c'.windowStart > s.controller.windowStart {
      forall i | 0 <= i < |s.live|
        ensures s.live[i].windowStart != c'.windowStart
      {
        assert CertOk(s.controller, start, s.live[i]);
      }
      CountNone(c'.windowStart, s.live);
    }
  }

  lemma MoveKeepsCerts(c: Controller, c': Controller, start: int, cert: Certificate)
    requires Moved(c, c') && CertOk(c, start, cert)
    ensures CertOk(c', start, cert)
  {
  }

  lemma MoveKeeps(s: System, c': Controller, start: int)
    requires Inv(s, start) && Moved(s.controller, c') && Shape(c')
    requires exists j: nat :: WindowAt(start, c'.curve.windowTicks, j, c'.windowStart)
    ensures Inv(s.(controller := c'), start)
  {
    MoveKeepsCounts(s, c', start);
    forall i | 0 <= i < |s.issued|
      ensures CertOk(c', start, s.issued[i])
    {
      MoveKeepsCerts(s.controller, c', start, s.issued[i]);
    }
    forall i | 0 <= i < |s.live|
      ensures CertOk(c', start, s.live[i])
    {
      MoveKeepsCerts(s.controller, c', start, s.live[i]);
    }
  }

  // ----- admitting -----

  lemma IssueKeepsCounts(s: System, c': Controller, cert: Certificate)
    requires CountsOk(s) && Shape(c')
    requires c'.curve == s.controller.curve && c'.windowStart == s.controller.windowStart == cert.windowStart
    requires c'.admitted == s.controller.admitted + 1
    ensures CountsOk(System(c', s.issued + [cert], s.live + [cert], s.undone, false))
  {
    forall p
      ensures Count(p, s.issued + [cert]) == Count(p, s.live + [cert]) + Count(p, s.undone)
    {
      CountPush(p, s.issued, cert);
      CountPush(p, s.live, cert);
    }
    forall w: int
      ensures Count(OfWindow(w), s.live + [cert]) == Count(OfWindow(w), s.live) + if w == cert.windowStart then 1 else 0
    {
      CountPush(OfWindow(w), s.live, cert);
    }
  }

  /** What an admission does to the controller, as far as the invariant is concerned. */
  predicate Issues(c: Controller, c': Controller, cert: Certificate) {
    && c'.curve == c.curve && c'.windowStart == c.windowStart && c'.admitted == c.admitted + 1
    && c'.sequence == c.sequence + 1 && c.admitted < c.curve.maximumAdmissions
    && cert.sequence == c'.sequence && cert.windowStart == c.windowStart && cert.admittedBefore == c.admitted
    && c.windowStart <= cert.admittedTick < c.windowStart + c.curve.windowTicks
  }

  lemma IssueKeeps(s: System, c': Controller, cert: Certificate, start: int)
    requires Inv(s, start) && Shape(c') && Issues(s.controller, c', cert)
    ensures Inv(System(c', s.issued + [cert], s.live + [cert], s.undone, false), start)
  {
    IssueKeepsCounts(s, c', cert);
    assert CertOk(c', start, cert);
  }

  lemma AdmitNowIssues(c: Controller, now: u64, deadline: u64, backlogBefore: nat)
    requires Shape(c) && c.windowStart <= now < c.windowStart + c.curve.windowTicks
    ensures var (c', result) := AdmitNow(c, now, deadline, backlogBefore);
            Shape(c') && match result
                         case Ok(cert) => Issues(c, c', cert)
                         case Err(_) => Moved(c, c')
  {
  }

  lemma RequestKeeps(s: System, now: u64, deadline: u64, backlogBefore: nat, start: int)
    requires Inv(s, start)
    ensures Inv(AfterRequest(s, now, deadline, backlogBefore), start)
  {
    var (c1, fault) := Advance(s.controller, now);
    AdvanceIsMove(s.controller, now, start);
    MoveKeeps(s, c1, start);
    var s1 := s.(controller := c1);
    if fault == None {
      var k := AdvanceMoves(s.controller, now);
      AdmitNowIssues(c1, now, deadline, backlogBefore);
      var (c2, result) := AdmitNow(c1, now, deadline, backlogBefore);
      if result.Ok? {
        IssueKeeps(s1, c2, result.value, start);
      } else {
        MoveKeeps(s1, c2, start);
      }
    }
  }

  // ----- rolling back -----

  lemma RollbackChecks(c: Controller, cert: Certificate)
    requires Rollback(c, cert).1.Ok?
    ensures Verified(c, cert) && cert.windowStart == c.windowStart && cert.sequence == c.sequence
    ensures c.admitted == Min(cert.admittedBefore + 1, 0xffff)
    ensures Rollback(c, cert).0.admitted == cert.admittedBefore
  {
  }

  /** A certificate that can be rolled back is the latest one, and still stands. */
  lemma UndoTakesTheLatest(s: System, cert: Certificate, start: int)
    requires Inv(s, start) && cert in s.issued
    requires cert.windowStart == s.controller.windowStart && cert.sequence == s.controller.sequence
    requires s.controller.admitted == Min(cert.admittedBefore + 1, 0xffff)
    ensures !s.latestUndone && s.live != [] && s.live[|s.live| - 1] == cert
    ensures s.controller.admitted == cert.admittedBefore + 1
  {
    var i :| 0 <= i < |s.issued| && s.issued[i] == cert;
    assert s.issued[i].sequence == i + 1;
    assert CertOk(s.controller, start, s.issued[i]);
  }

  lemma UndoKeepsCounts(s: System, c': Controller, cert: Certificate)
    requires CountsOk(s) && s.live != [] && s.live[|s.live| - 1] == cert
    requires c'.curve == s.controller.curve && c'.windowStart == s.controller.windowStart == cert.windowStart
    requires c'.admitted == s.controller.admitted - 1
    ensures CountsOk(System(c', s.issued, s.live[..|s.live| - 1], s.undone + [cert], true))
  {
    var rest := s.live[..|s.live| - 1];
    forall p
      ensures Count(p, s.issued) == Count(p, rest) + Count(p, s.undone + [cert])
    {
      CountPush(p, s.undone, cert);
    }
    assert Count(OfWindow(cert.windowStart), s.live) == Count(OfWindow(cert.windowStart), rest) + 1;
    forall w: int
      ensures Count(OfWindow(w), rest) <= Count(OfWindow(w), s.live)
    {
    }
  }

  lemma UndoKeeps(s: System, cert: Certificate, start: int)
    requires Inv(s, start) && Honest(s, Undo(cert))
    ensures Inv(AfterUndo(s, cert), start)
  {
    var (c', result) := Rollback(s.controller, cert);
    if result.Ok? {
      RollbackChecks(s.controller, cert);
      UndoTakesTheLatest(s, cert, start);
      UndoKeepsCounts(s, c', cert);
    }
  }

  // ----- completions -----

  lemma CompleteIsMove(c: Controller, cert: Certificate, delay: u64)
    requires Shape(c)
    ensures var c' := Complete(c, cert, delay).0;
            Shape(c') && Moved(c, c') && c'.windowStart == c.windowStart
  {
  }

  lemma ObserveCases(c: Controller, cert: Certificate, tick: u64)
    requires Shape(c)
    ensures var (c1, fault) := Advance(c, tick);
            var c' := Observe(c, cert, tick).0;
            || c' == c
            || c' == c1
            || (fault == None && tick >= cert.admittedTick && Shape(c1)
                && c' == Complete(c1, cert, tick - cert.admittedTick).0)
  {
    AdvanceKeepsShape(c, tick);
    if Observe(c, cert, tick).0 != c {
      CompleteCases(c, cert, tick);
    }
  }

  lemma CompleteCases(c: Controller, cert: Certificate, tick: u64)
    requires Shape(c) && tick >= cert.admittedTick
    ensures var (c1, fault) := Advance(c, tick);
            && Shape(c1)
            && AdvanceAndComplete(c, cert, tick).0 ==
                 if fault.Some? then c1 else Complete(c1, cert, tick - cert.admittedTick).0
  {
    AdvanceKeepsShape(c, tick);
  }

  lemma FinishKeeps(s: System, cert: Certificate, tick: u64, start: int)
    requires Inv(s, start)
    ensures Inv(s.(controller := Observe(s.controller, cert, tick).0), start)
  {
    var c1, c' := Advance(s.controller, tick).0, Observe(s.controller, cert, tick).0;
    ObserveCases(s.controller, cert, tick);
    AdvanceIsMove(s.controller, tick, start);
    MoveKeeps(s, c1, start);
    if c' != s.controller && c' != c1 {
      CompleteIsMove(c1, cert, tick - cert.admittedTick);
      MoveKeeps(s.(controller := c1), c', start);
    }
  }

  lemma StepKeeps(s: System, e: Event, start: int)
    requires Inv(s, start) && Honest(s, e)
    ensures Inv(Step(s, e), start)
  {
    match e
    case Request(now, deadline, backlogBefore) => RequestKeeps(s, now, deadline, backlogBefore, start);
    case Undo(cert) => UndoKeeps(s, cert, start);
    case Finish(cert, tick) => FinishKeeps(s, cert, tick, start);
  }

  // ----- runs -----

  ghost predicate Starts(s: System, capacity: u64, curve: ServiceCurve, now: u64, secret: u64) {
    New(capacity, curve, now, secret).Ok? && s == Begin(New(capacity, curve, now, secret).value)
  }

  /** `states` is an honest run from a new controller through `events`. */
  ghost predicate IsRun(states: seq<System>, events: seq<Event>, capacity: u64, curve: ServiceCurve, now: u64, secret: u64) {
    && |states| == |events| + 1
    && (forall u {:trigger Unfold(u)} :: Unfold(u) ==> Starts(states[0], capacity, curve, now, secret))
    && forall i {:trigger events[i]} :: 0 <= i < |events| ==>
         Honest(states[i], events[i]) && Shape(states[i].controller) && states[i + 1] == Step(states[i], events[i])
  }

  lemma NewInv(capacity: u64, curve: ServiceCurve, now: u64, secret: u64)
    requires New(capacity, curve, now, secret).Ok?
    ensures Inv(Begin(New(capacity, curve, now, secret).value), now)
  {
    assert WindowAt(now, curve.windowTicks, 0, now);
  }

  lemma RunStep(states: seq<System>, events: seq<Event>, capacity: u64, curve: ServiceCurve, now: u64, secret: u64, i: nat)
    requires IsRun(states, events, capacity, curve, now, secret) && i < |events|
    ensures Honest(states[i], events[i]) && Shape(states[i].controller)
    ensures states[i + 1] == Step(states[i], events[i])
  {
    var e := events[i];
  }

  lemma RunStart(states: seq<System>, events: seq<Event>, capacity: u64, curve: ServiceCurve, now: u64, secret: u64)
    requires IsRun(states, events, capacity, curve, now, secret)
    ensures |states| == |events| + 1 && Inv(states[0], now) && states[0].controller.curve == curve
  {
    assert Unfold(0);
    NewInv(capacity, curve, now, secret);
  }

  lemma KeepsAlong(before: System, e: Event, after: System, start: int)
    requires Inv(before, start) && Honest(before, e) && after == Step(before, e)
    ensures Inv(after, start) && after.controller.curve == before.controller.curve
  {
    StepKeeps(before, e, start);
    StepKeepsCurve(before, e);
  }

  lemma {:induction false} RunsKeepInvariant(states: seq<System>, events: seq<Event>, capacity: u64, curve: ServiceCurve,
                                             now: u64, secret: u64, i: nat)
    requires IsRun(states, events, capacity, curve, now, secret) && i < |states|
    ensures Inv(states[i], now) && states[i].controller.curve == curve
    decreases i
  {
    if i == 0 {
      RunStart(states, events, capacity, curve, now, secret);
    } else {
      RunsKeepInvariant(states, events, capacity, curve, now, secret, i - 1);
      RunStep(states, events, capacity, curve, now, secret, i - 1);
      KeepsAlong(states[i - 1], events[i - 1], states[i], now);
    }
  }

  lemma StepKeepsCurve(s: System, e: Event)
    requires Shape(s.controller)
    ensures Step(s, e).controller.curve == s.controller.curve
  {
    match e
    case Request(now, deadline, backlogBefore) =>
      AdvanceKeepsShape(s.controller, now);
      AdvanceFrame(s.controller, now);
    case Undo(cert) =>
    case Finish(cert, tick) =>
      AdvanceKeepsShape(s.controller, tick);
      AdvanceFrame(s.controller, tick);
  }

  /**
   In every honest run each window's admissions minus its rollbacks stay within the limit, and every
   certificate's tick lies in its own window, which is never ahead of the current one.
   */
  lemma WindowBound(states: seq<System>, events: seq<Event>, capacity: u64, curve: ServiceCurve,
                    now: u64, secret: u64, i: nat, w: int)
    requires IsRun(states, events, capacity, curve, now, secret) && i < |states|
    ensures var s := states[i];
            && Count(OfWindow(w), s.issued) - Count(OfWindow(w), s.undone) <= curve.maximumAdmissions
            && Count(OfWindow(s.controller.windowStart), s.issued) - Count(OfWindow(s.controller.windowStart), s.undone)
                 == s.controller.admitted
            && forall c :: c in s.issued ==> CertOk(s.controller, now, c)
  {
    RunsKeepInvariant(states, events, capacity, curve, now, secret, i);
    var s := states[i];
    assert Count(OfWindow(w), s.live) <= curve.maximumAdmissions;
    assert Count(OfWindow(w), s.issued) == Count(OfWindow(w), s.live) + Count(OfWindow(w), s.undone);
  }

  /** In every honest run no certificate is rolled back twice, and only the latest one can be rolled back at all. */
  lemma AtMostOneRollback(states: seq<System>, events: seq<Event>, capacity: u64, curve: ServiceCurve,
                          now: u64, secret: u64, i: nat, a: nat, b: nat)
    requires IsRun(states, events, capacity, curve, now, secret) && i < |states|
    requires a < b < |states[i].undone|
    ensures states[i].undone[a] != states[i].undone[b]
  {
    RunsKeepInvariant(states, events, capacity, curve, now, secret, i);
    assert states[i].undone[a].sequence < states[i].undone[b].sequence;
  }

  lemma StepMovesForward(s: System, e: Event, start: int)
    requires Inv(s, start) && Honest(s, e)
    ensures Step(s, e).controller.windowStart >= s.controller.windowStart
  {
    match e
    case Request(now, deadline, backlogBefore) =>
      var (c1, fault) := Advance(s.controller, now);
      AdvanceIsMove(s.controller, now, start);
      if fault == None {
        var k := AdvanceMoves(s.controller, now);
        AdmitNowIssues(c1, now, deadline, backlogBefore);
      }
    case Undo(cert) =>
    case Finish(cert, tick) =>
      ObserveCases(s.controller, cert, tick);
      AdvanceIsMove(s.controller, tick, start);
      if Shape(Advance(s.controller, tick).0) && tick >= cert.admittedTick {
        CompleteIsMove(Advance(s.controller, tick).0, cert, tick - cert.admittedTick);
      }
  }

  lemma RunMovesForward(states: seq<System>, events: seq<Event>, capacity: u64, curve: ServiceCurve,
                        now: u64, secret: u64, i: nat)
    requires IsRun(states, events, capacity, curve, now, secret) && i < |events|
    ensures states[i].controller.windowStart <= states[i + 1].controller.windowStart
  {
    RunsKeepInvariant(states, events, capacity, curve, now, secret, i);
    RunStep(states, events, capacity, curve, now, secret, i);
    StepMovesForward(states[i], events[i], now);
  }

  /** In every honest run a window that has been left is never entered again. */
  lemma {:induction false} WindowsNeverReturn(states: seq<System>, events: seq<Event>, capacity: u64, curve: ServiceCurve,
                                              now: u64, secret: u64, i: nat, j: nat)
    requires IsRun(states, events, capacity, curve, now, secret) && i <= j < |states|
    ensures states[i].controller.windowStart <= states[j].controller.windowStart
    decreases j
  {
    if i < j {
      WindowsNeverReturn(states, events, capacity, curve, now, secret, i, j - 1);
      RunMovesForward(states, events, capacity, curve, now, secret, j - 1);
    }
  }

  // ----- completions -----

  /** The calibrator can take any residual that comes, and every certificate issued adds up and predicts a positive delay. */
  ghost predicate Learns(s: System) {
    && Teachable(s.controller.calibrator)
    && forall i {:trigger s.issued[i]} :: 0 <= i < |s.issued| ==> AddsUp(s.issued[i])
  }

  predicate AddsUp(cert: Certificate) {
    0 < cert.deterministic && cert.bound == cert.deterministic + cert.guard + cert.drift
  }

  lemma AdmitAddsUp(c: Controller, now: u64, deadline: u64, backlogBefore: nat)
    requires Shape(c)
    ensures var (c', result) := AdmitNow(c, now, deadline, backlogBefore);
            c'.calibrator == c.calibrator && (result.Ok? ==> AddsUp(result.value))
  {
    if AdmitNow(c, now, deadline, backlogBefore).1.Ok? {
      CertificateAccounts(c, now, deadline, backlogBefore);
      DelayPositive(c.curve, backlogBefore);
    }
  }

  lemma RequestKeepsLearning(s: System, now: u64, deadline: u64, backlogBefore: nat)
    requires Shape(s.controller) && Learns(s)
    ensures Learns(AfterRequest(s, now, deadline, backlogBefore))
  {
    AdvanceKeepsShape(s.controller, now);
    AdvanceFrame(s.controller, now);
    AdmitAddsUp(Advance(s.controller, now).0, now, deadline, backlogBefore);
  }

  /** A completion that is not refused: learned from, or too many residuals to rank. */
  ghost predicate Finishes(c: Controller, c': Controller, cert: Certificate, delay: u64, result: Result<u64, AdmissionFault>) {
    && Shape(c) && Shape(c')
    && (result.Ok? <==> RankFits(Min(c.calibrator.length + 1, |c.calibrator.residuals|)))
    && (result.Ok? ==> Learned(c, c', cert, delay, result.value))
    && (result.Err? ==> result == Err(CorruptObservation))
  }

  /** Every outcome of a completion: refused and unchanged, stopped by the clock, or finished. */
  ghost predicate CompletesAs(c: Controller, cert: Certificate, tick: u64)
    requires Shape(c)
  {
    var (c1, fault) := Advance(c, tick);
    var (c', result) := Observe(c, cert, tick);
    if !Verified(c, cert) || tick < cert.admittedTick then c' == c && result == Err(CorruptObservation)
    else if fault.Some? then c' == c1 && result == Err(fault.value)
    else Finishes(c1, c', cert, tick - cert.admittedTick, result)
  }

  lemma AcceptedIsComplete(c: Controller, cert: Certificate, tick: u64)
    requires Shape(c) && tick >= cert.admittedTick && Advance(c, tick).1 == None
    ensures var c1 := Advance(c, tick).0;
            && Shape(c1) && c1.calibrator == c.calibrator
            && AdvanceAndComplete(c, cert, tick) == Complete(c1, cert, tick - cert.admittedTick)
  {
    AdvanceKeepsShape(c, tick);
    AdvanceFrame(c, tick);
  }

  lemma CompletesAndLearns(c: Controller, cert: Certificate, delay: u64)
    requires Shape(c) && Teachable(c.calibrator) && AddsUp(cert)
    ensures var (c', result) := Complete(c, cert, delay);
            Finishes(c, c', cert, delay, result) && Teachable(c'.calibrator)
  {
    CompletionSucceeds(c, cert, delay);
    if Complete(c, cert, delay).1.Ok? {
      CompletionLearns(c, cert, delay);
    }
  }

  /** The observation of a certificate that adds up, from a controller that can take any residual. */
  lemma ObserveFinishes(c: Controller, cert: Certificate, tick: u64)
    requires Shape(c) && Teachable(c.calibrator) && AddsUp(cert)
    ensures CompletesAs(c, cert, tick) && Teachable(Observe(c, cert, tick).0.calibrator)
  {
    if Verified(c, cert) && tick >= cert.admittedTick {
      if Advance(c, tick).1 == None {
        AcceptedIsComplete(c, cert, tick);
        CompletesAndLearns(Advance(c, tick).0, cert, tick - cert.admittedTick);
      } else {
        AdvanceKeepsShape(c, tick);
        AdvanceFrame(c, tick);
      }
    }
  }

  lemma RefusedAsIs(c: Controller, cert: Certificate, tick: u64)
    requires Shape(c) && !Verified(c, cert)
    ensures CompletesAs(c, cert, tick) && Observe(c, cert, tick).0 == c
  {
  }

  lemma FinishKeepsLearning(s: System, cert: Certificate, tick: u64)
    requires Shape(s.controller) && Learns(s) && (Verified(s.controller, cert) ==> cert in s.issued)
    ensures Learns(s.(controller := Observe(s.controller, cert, tick).0))
    ensures CompletesAs(s.controller, cert, tick)
  {
    if cert in s.issued {
      var i :| 0 <= i < |s.issued| && s.issued[i] == cert;
      ObserveFinishes(s.controller, cert, tick);
    } else {
      RefusedAsIs(s.controller, cert, tick);
    }
  }

  lemma StepKeepsLearning(s: System, e: Event)
    requires Shape(s.controller) && Learns(s) && Honest(s, e)
    ensures Learns(Step(s, e))
  {
    match e
    case Request(now, deadline, backlogBefore) => RequestKeepsLearning(s, now, deadline, backlogBefore);
    case Undo(cert) =>
    case Finish(cert, tick) => FinishKeepsLearning(s, cert, tick);
  }

  lemma {:induction false} RunsKeepLearning(states: seq<System>, events: seq<Event>, capacity: u64, curve: ServiceCurve,
                                            now: u64, secret: u64, i: nat)
    requires IsRun(states, events, capacity, curve, now, secret) && i < |states|
    ensures Learns(states[i])
    decreases i
  {
    if i == 0 {
      assert Unfold(0);
      NewTeachable(capacity, curve, now, secret);
    } else {
      RunsKeepLearning(states, events, capacity, curve, now, secret, i - 1);
      RunStep(states, events, capacity, curve, now, secret, i - 1);
      StepKeepsLearning(states[i - 1], events[i - 1]);
    }
  }

  /**
   In every honest run a completion either is refused without a trace, stops where advancing stopped,
   or teaches the calibrator and drains the backlog. It spoils the calibrator and then fails exactly
   when there are more residuals than can be ranked, which is more than fit in memory.
   */
  lemma CompletionsLearn(states: seq<System>, events: seq<Event>, capacity: u64, curve: ServiceCurve,
                         now: u64, secret: u64, i: nat)
    requires IsRun(states, events, capacity, curve, now, secret) && i < |events|
    requires events[i].Finish?
    ensures Shape(states[i].controller) && CompletesAs(states[i].controller, events[i].cert, events[i].tick)
  {
    RunsKeepLearning(states, events, capacity, curve, now, secret, i);
    RunStep(states, events, capacity, curve, now, secret, i);
    FinishKeepsLearning(states[i], events[i].cert, events[i].tick);
  }

  // ----- any interval of ticks -----

  /** The certificates standing in `m` consecutive windows. */
  function InWindows(live: seq<Certificate>, first: int, window: nat, m: nat): nat {
    if m == 0 then 0 else InWindows(live, first, window, m - 1) + Count(OfWindow(first + (m - 1) * window), live)
  }

  lemma {:induction false} InWindowsBound(live: seq<Certificate>, first: int, window: nat, m: nat, limit: nat)
    requires forall w: int {:trigger OfWindow(w)} :: Count(OfWindow(w), live) <= limit
    ensures InWindows(live, first, window, m) <= m * limit
  {
    if m > 0 {
      InWindowsBound(live, first, window, m - 1, limit);
      assert m * limit == (m - 1) * limit + limit;
    }
  }

  lemma {:induction false} InWindowsPush(live: seq<Certificate>, c: Certificate, first: int, window: nat, m: nat, j: int)
    ensures InWindows(live + [c], first, window, m) >=
      InWindows(live, first, window, m) + if 0 <= j < m && c.windowStart == first + j * window then 1 else 0
  {
    if m > 0 {
      InWindowsPush(live, c, first, window, m - 1, j);
      CountPush(OfWindow(first + (m - 1) * window), live, c);
    }
  }

  /** The window of every certificate with a tick between `from` and `to` is one of the `m` from `first`. */
  ghost predicate Covered(live: seq<Certificate>, from: int, to: int, first: int, window: nat, m: nat) {
    forall i {:trigger live[i]} :: 0 <= i < |live| && from <= live[i].admittedTick < to ==>
      exists j: nat :: j < m && WindowAt(first, window, j, live[i].windowStart)
  }

  lemma {:induction false} CoveredCount(live: seq<Certificate>, from: int, to: int, first: int, window: nat, m: nat)
    requires Covered(live, from, to, first, window, m)
    ensures Count(Between(from, to), live) <= InWindows(live, first, window, m)
  {
    if live != [] {
      var rest, c := live[..|live| - 1], live[|live| - 1];
      assert live == rest + [c];
      forall i | 0 <= i < |rest| && from <= rest[i].admittedTick < to
        ensures exists j: nat :: j < m && WindowAt(first, window, j, rest[i].windowStart)
      {
        assert rest[i] == live[i];
      }
      CoveredCount(rest, from, to, first, window, m);
      var j: int := -1;
      if from <= c.admittedTick < to {
        assert live[|live| - 1] == c;
        j :| 0 <= j < m && WindowAt(first, window, j, c.windowStart);
      }
      InWindowsPush(rest, c, first, window, m, j);
    }
  }

  /** The first window, counted from `start`, that ends after `from`. */
  function FirstWindow(start: int, window: nat, from: int): (k: nat)
    requires window > 0
    ensures start + k * window > from - window
    ensures k > 0 ==> start + k * window <= from
  {
    if from < start then 0
    else
      WholeWindowsBounds(from - start, window, (from - start) / window);
      (from - start) / window
  }

  lemma WindowsTouched(start: int, window: nat, from: int, length: nat, k: nat, tick: int)
    requires window > 0 && from <= tick < from + length
    requires start + k * window <= tick < start + k * window + window
    ensures var first := FirstWindow(start, window, from);
            first <= k < first + CeilDiv(length, window) + 1
  {
    var first := FirstWindow(start, window, from);
    var n := CeilDiv(length, window);
    MulOrder(window, first, k + 1);
    assert window * (k + 1) == k * window + window;
    LaterWindow(window, k, first, n);
  }

  lemma LaterWindow(window: nat, k: nat, first: nat, n: nat)
    ensures k >= first + n + 1 ==> k * window >= first * window + n * window + window
  {
    MulOrder(window, k, first + n + 1);
    assert window * (first + n + 1) == first * window + n * window + window;
  }

  lemma LiveIsCovered(s: System, start: int, from: int, length: nat)
    requires Inv(s, start) && length > 0
    ensures var w := s.controller.curve.windowTicks;
            Covered(s.live, from, from + length, start + FirstWindow(start, w, from) * w, w, CeilDiv(length, w) + 1)
  {
    var w := s.controller.curve.windowTicks;
    var first := FirstWindow(start, w, from);
    var base, m := start + first * w, CeilDiv(length, w) + 1;
    forall i | 0 <= i < |s.live| && from <= s.live[i].admittedTick < from + length
      ensures exists j: nat :: j < m && WindowAt(base, w, j, s.live[i].windowStart)
    {
      assert CertOk(s.controller, start, s.live[i]);
      var k: nat :| WindowAt(start, w, k, s.live[i].windowStart);
      WindowsTouched(start, w, from, length, k, s.live[i].admittedTick);
      WindowShift(start, w, first, k, s.live[i].windowStart);
      assert WindowAt(base, w, k - first, s.live[i].windowStart);
    }
  }

  lemma WindowShift(start: int, window: nat, first: nat, k: nat, x: int)
    requires WindowAt(start, window, k, x)
    ensures WindowAt(start + first * window, window, k - first, x)
  {
    assert (k - first) * window == k * window - first * window;
  }

  lemma LiveInInterval(s: System, start: int, from: int, length: nat)
    requires Inv(s, start) && length > 0
    ensures Count(Between(from, from + length), s.live)
         <= (CeilDiv(length, s.controller.curve.windowTicks) + 1) * s.controller.curve.maximumAdmissions
  {
    var w := s.controller.curve.windowTicks;
    var m, base := CeilDiv(length, w) + 1, start + FirstWindow(start, w, from) * w;
    LiveIsCovered(s, start, from, length);
    CoveredCount(s.live, from, from + length, base, w, m);
    InWindowsBound(s.live, base, w, m, s.controller.curve.maximumAdmissions);
  }

  /**
   In every honest run, any interval of `length` ticks has at most one more than the windows it spans
   times the limit in admissions minus rollbacks.
   */
  lemma IntervalBound(states: seq<System>, events: seq<Event>, capacity: u64, curve: ServiceCurve,
                      now: u64, secret: u64, i: nat, from: int, length: nat)
    requires IsRun(states, events, capacity, curve, now, secret) && i < |states| && length > 0
    ensures CurveValid(curve)
    ensures var s, p := states[i], Between(from, from + length);
            Count(p, s.issued) - Count(p, s.undone) <= (CeilDiv(length, curve.windowTicks) + 1) * curve.maximumAdmissions
  {
    RunsKeepInvariant(states, events, capacity, curve, now, secret, i);
    var s, p := states[i], Between(from, from + length);
    LiveInInterval(s, now, from, length);
    assert Count(p, s.issued) == Count(p, s.live) + Count(p, s.undone);
  }
}
