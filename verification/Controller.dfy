/** The admission controller as functions on its state, in the order of the source's branches. */
module Admission {
  import opened Machine
  import opened Mixing
  import opened ServiceCurves
  import Calibrators

  const Q16_ONE: u64 := 0x1_0000
  const CALIBRATOR_TAG: u64 := 0x4341_4c49_4252_4154

  datatype AdmissionFault =
    | InvalidCurve | BacklogSaturated | ArrivalEnvelopeExceeded | DeadlineUnsafe
    | TimeRegression | ArithmeticOverflow | StaleReservation | CorruptObservation

  datatype Certificate = Certificate(
    sequence: u64, admittedTick: u64, windowStart: u64, backlogBefore: u16, admittedBefore: u16,
    deterministic: u64, guard: u64, drift: u64, bound: u64, slack: u64,
    curveRoot: u64, calibrationRoot: u64, root: u64)

  datatype Controller = Controller(
    curve: ServiceCurve, secret: u64, windowStart: u64, lastTick: u64, admitted: u16, sequence: u64,
    accepted: u64, rejected: u64, observed: u64, virtualBacklog: u64, curveRoot: u64,
    calibrator: Calibrators.Calibrator)

  /** What every controller satisfies from construction on. */
  predicate Shape(c: Controller) {
    CurveValid(c.curve) && Calibrators.Shape(c.calibrator) && c.admitted <= c.curve.maximumAdmissions
  }

  // ----- roots -----

  function CurveRoot(secret: u64, c: ServiceCurve): u64 {
    Fold(secret, [c.minimumCompletions, c.maximumAdmissions, c.windowTicks, c.latencyTicks, c.maximumBacklog])
  }

  function CertificateWords(c: Certificate): seq<u64> {
    [c.sequence, c.admittedTick, c.windowStart, c.backlogBefore + 0x1_0000 * c.admittedBefore,
     c.deterministic, c.guard, c.drift, c.bound, c.slack, c.curveRoot, c.calibrationRoot]
  }

  function CertificateRoot(secret: u64, c: Certificate): u64 {
    Fold(secret, CertificateWords(c))
  }

  predicate CertificateValid(c: Certificate) {
    c.sequence != 0 && c.bound != 0 && c.curveRoot != 0 && c.calibrationRoot != 0 && c.root != 0
  }

  predicate Verified(c: Controller, cert: Certificate) {
    CertificateValid(cert) && cert.curveRoot == c.curveRoot && cert.root == CertificateRoot(c.secret, cert)
  }

  /** Certificates that differ in exactly one absorbed word have different roots. */
  lemma CertificatesApart(secret: u64, c: Certificate, d: Certificate, i: nat)
    requires ApartAt(CertificateWords(c), CertificateWords(d), i)
    ensures CertificateRoot(secret, c) != CertificateRoot(secret, d)
  {
    FoldSensitive(secret, CertificateWords(c), CertificateWords(d), i);
  }

  /** A verified certificate with one absorbed word altered no longer verifies. */
  lemma AlteredCertificateFails(c: Controller, cert: Certificate, forged: Certificate, i: nat)
    requires Verified(c, cert) && forged.root == cert.root
    requires ApartAt(CertificateWords(cert), CertificateWords(forged), i)
    ensures !Verified(c, forged)
  {
    CertificatesApart(c.secret, cert, forged, i);
  }

  /** The two counters that share a word are both recovered from it. */
  lemma SharedWordInjective(c: Certificate, d: Certificate)
    ensures CertificateWords(c)[3] == CertificateWords(d)[3]
      <==> c.backlogBefore == d.backlogBefore && c.admittedBefore == d.admittedBefore
  {
    assert CertificateWords(c)[3] % 0x1_0000 == c.backlogBefore;
    assert CertificateWords(d)[3] % 0x1_0000 == d.backlogBefore;
  }

  function New(capacity: u64, curve: ServiceCurve, now: u64, secret: u64): Result<Controller, AdmissionFault> {
    if !CurveValid(curve) || secret == 0 || capacity == 0 then Err(InvalidCurve)
    else if CurveRoot(secret, curve) == 0 then Err(InvalidCurve)
    else
      match CheckedMul(curve.windowTicks, curve.maximumBacklog)
      case None => Err(ArithmeticOverflow)
      case Some(guard) =>
        match Calibrators.New(capacity, Calibrators.DEFAULT_NUMERATOR, Calibrators.DEFAULT_DENOMINATOR, 1,
                              Max(guard, 1), Absorb(secret, CALIBRATOR_TAG))
        case Err(_) => Err(InvalidCurve)
        case Ok(calibrator) =>
          Ok(Controller(curve, secret, now, now, 0, 0, 0, 0, 0, 0, CurveRoot(secret, curve), calibrator))
  }

  function Rejected(c: Controller): Controller {
    c.(rejected := SaturatingAdd(c.rejected, 1))
  }

  // ----- advancing the window -----

  /** Whole windows in `elapsed` ticks. */
  function WholeWindows(elapsed: u64, window: u64): (k: u64)
    requires window > 0
    ensures k * window <= elapsed < k * window + window
    ensures elapsed >= window ==> k > 0
  {
    WholeWindowsBounds(elapsed, window, elapsed / window);
    elapsed / window
  }

  lemma WholeWindowsBounds(elapsed: nat, window: nat, k: int)
    requires window > 0 && k == elapsed / window
    ensures 0 <= k <= elapsed && k * window <= elapsed < k * window + window
    ensures elapsed >= window ==> k > 0
  {
    assert elapsed == window * k + elapsed % window;
    if k < 0 {
      MulAtLeast(window, -1, k);
    } else {
      MulAtLeast(k, window, 1);
    }
  }

  /** The controller after `Ok`, or its state and the fault. */
  function Advance(c: Controller, now: u64): (Controller, Option<AdmissionFault>)
    requires CurveValid(c.curve)
  {
    if now < c.lastTick || now < c.windowStart then (Rejected(c), Some(TimeRegression))
    else if now - c.windowStart < c.curve.windowTicks then (c.(lastTick := now), None)
    else
      var windows := WholeWindows(now - c.windowStart, c.curve.windowTicks);
      match CheckedMul(windows, c.curve.windowTicks)
      case None => (c, Some(ArithmeticOverflow))
      case Some(ticks) =>
        match CheckedAdd(c.windowStart, ticks)
        case None => (c, Some(ArithmeticOverflow))
        case Some(start) => Drain(c.(windowStart := start, admitted := 0), now, windows)
  }

  /** The service of the windows passed drains the virtual backlog; the window has moved even if that overflows. */
  function Drain(c: Controller, now: u64, windows: u64): (Controller, Option<AdmissionFault>) {
    match CheckedMul(windows, c.curve.minimumCompletions)
    case None => (c, Some(ArithmeticOverflow))
    case Some(jobs) =>
      match CheckedMul(jobs, Q16_ONE)
      case None => (c, Some(ArithmeticOverflow))
      case Some(service) => (c.(virtualBacklog := SaturatingSub(c.virtualBacklog, service), lastTick := now), None)
  }

  function DriftPenalty(c: Controller): u64
    requires CurveValid(c.curve)
  {
    var jobs := c.virtualBacklog / 0x1_0000;
    if jobs == 0 then 0
    else SaturatingMul(DriftWindows(jobs, c.curve.minimumCompletions), c.curve.windowTicks)
  }

  function DriftWindows(jobs: u64, service: u64): u64
    requires service > 0
  {
    Calibrators.DivWithin(SaturatingAdd(jobs, service - 1), service);
    SaturatingAdd(jobs, service - 1) / service
  }

  // ----- admission -----

  datatype Bound = Bound(deterministic: u64, guard: u64, drift: u64, total: u64)

  function BoundFor(c: Controller, backlogBefore: nat): Result<Bound, AdmissionFault>
    requires Shape(c)
  {
    match DeterministicDelay(c.curve, backlogBefore)
    case None => Err(BacklogSaturated)
    case Some(deterministic) =>
      match Calibrators.Guard(c.calibrator)
      case Err(_) => Err(ArithmeticOverflow)
      case Ok(guard) =>
        match CheckedAdd(deterministic, guard)
        case None => Err(ArithmeticOverflow)
        case Some(sum) =>
          match CheckedAdd(sum, DriftPenalty(c))
          case None => Err(ArithmeticOverflow)
          case Some(total) => Ok(Bound(deterministic, guard, DriftPenalty(c), total))
  }

  /** The state after an admission. */
  function Counted(c: Controller): Controller
    requires c.sequence < U64_MAX && c.admitted < 0xffff
  {
    c.(admitted := c.admitted + 1, sequence := c.sequence + 1, accepted := SaturatingAdd(c.accepted, 1),
       virtualBacklog := SaturatingAdd(c.virtualBacklog, Q16_ONE))
  }

  /** The certificate of an admission from state `c`. */
  function CertificateFor(c: Controller, now: u64, slack: u64, backlogBefore: u16, b: Bound): Certificate
    requires Calibrators.Shape(c.calibrator) && c.sequence < U64_MAX
  {
    var unsealed := Certificate(c.sequence + 1, now, c.windowStart, backlogBefore, c.admitted,
                                b.deterministic, b.guard, b.drift, b.total, slack,
                                c.curveRoot, c.calibrator.root, 0);
    unsealed.(root := CertificateRoot(c.secret, unsealed))
  }

  /** The last part of `admit`, once the bound is known. */
  function Reserve(c: Controller, now: u64, deadline: u64, backlogBefore: nat, b: Bound):
    (Controller, Result<Certificate, AdmissionFault>)
    requires Shape(c)
  {
    match CheckedAdd(now, b.total)
    case None => (c, Err(ArithmeticOverflow))
    case Some(required) =>
      if deadline < required then (Rejected(c), Err(DeadlineUnsafe))
      else if c.sequence == U64_MAX then (c, Err(ArithmeticOverflow))
      else if c.admitted == 0xffff then (c, Err(ArithmeticOverflow))
      else if backlogBefore >= U16_LIMIT then (Counted(c), Err(BacklogSaturated)) // after the mutations
      else (Counted(c), Ok(CertificateFor(c, now, deadline - required, backlogBefore, b)))
  }

  /** `admit` after a successful `advance`. */
  function AdmitNow(c: Controller, now: u64, deadline: u64, backlogBefore: nat):
    (Controller, Result<Certificate, AdmissionFault>)
    requires Shape(c)
  {
    if backlogBefore >= c.curve.maximumBacklog then (Rejected(c), Err(BacklogSaturated))
    else if c.admitted >= c.curve.maximumAdmissions then (Rejected(c), Err(ArrivalEnvelopeExceeded))
    else
      match BoundFor(c, backlogBefore)
      case Err(fault) => (c, Err(fault))
      case Ok(b) => Reserve(c, now, deadline, backlogBefore, b)
  }

  function Admit(c: Controller, now: u64, deadline: u64, backlogBefore: nat):
    (Controller, Result<Certificate, AdmissionFault>)
    requires Shape(c)
  {
    AdvanceKeepsShape(c, now);
    var (c1, fault) := Advance(c, now);
    if fault.Some? then (c1, Err(fault.value)) else AdmitNow(c1, now, deadline, backlogBefore)
  }

  lemma AdvanceKeepsShape(c: Controller, now: u64)
    requires Shape(c)
    ensures Shape(Advance(c, now).0)
  {
  }

  // ----- rollback -----

  function Rollback(c: Controller, cert: Certificate): (Controller, Result<(), AdmissionFault>) {
    if !Verified(c, cert) || cert.windowStart != c.windowStart || cert.sequence != c.sequence
       || c.admitted != Min(cert.admittedBefore + 1, 0xffff)
    then (c, Err(StaleReservation))
    else
      (c.(admitted := cert.admittedBefore, accepted := SaturatingSub(c.accepted, 1),
          virtualBacklog := SaturatingSub(c.virtualBacklog, Q16_ONE)),
       Ok(()))
  }

  // ----- completions -----

  /** What a late completion adds to the virtual backlog. */
  function Pressure(windowTicks: u64, excess: u64): u64
    requires windowTicks > 0
  {
    match CheckedMul(excess, Q16_ONE)
    case None => U64_MAX
    case Some(scaled) =>
      Calibrators.DivWithin(scaled, windowTicks);
      scaled / windowTicks
  }

  /** The backlog after a completion that took `delay` ticks. */
  function DrainedBacklog(c: Controller, delay: u64, bound: u64): u64
    requires CurveValid(c.curve)
  {
    var drained := SaturatingSub(c.virtualBacklog, Q16_ONE);
    if delay > bound then SaturatingAdd(drained, Pressure(c.curve.windowTicks, delay - bound)) else drained
  }

  /** `observe_completion` after a successful `advance`. */
  function Complete(c: Controller, cert: Certificate, delay: u64): (Controller, Result<u64, AdmissionFault>)
    requires Shape(c)
  {
    match CheckedAdd(cert.deterministic, cert.drift)
    case None => (c, Err(ArithmeticOverflow))
    case Some(predicted) =>
      var c1 := c.(calibrator := Calibrators.Pushed(c.calibrator, SaturatingSub(delay, predicted)));
      match Calibrators.Guard(c1.calibrator)
      case Err(_) => (c1, Err(CorruptObservation))
      case Ok(guard) =>
        (c1.(virtualBacklog := DrainedBacklog(c1, delay, cert.bound), observed := SaturatingAdd(c.observed, 1)),
         Ok(guard))
  }

  /** `observe_completion` for a certificate that verifies. */
  function AdvanceAndComplete(c: Controller, cert: Certificate, tick: u64): (Controller, Result<u64, AdmissionFault>)
    requires Shape(c) && tick >= cert.admittedTick
  {
    AdvanceKeepsShape(c, tick);
    var (c1, fault) := Advance(c, tick);
    if fault.Some? then (c1, Err(fault.value)) else Complete(c1, cert, tick - cert.admittedTick)
  }

  function Observe(c: Controller, cert: Certificate, tick: u64): (Controller, Result<u64, AdmissionFault>)
    requires Shape(c)
  {
    if !Verified(c, cert) || tick < cert.admittedTick then (c, Err(CorruptObservation))
    else AdvanceAndComplete(c, cert, tick)
  }

  // ----- advancing: what it promises -----

  /** `x` is the start of window `k` of the windows counted from `start`. */
  predicate WindowAt(start: int, window: int, k: int, x: int) {
    x == start + k * window
  }

  /**
   Every outcome of advancing. A tick in the past is refused, and only the rejection counter changes.
   Otherwise the window moves forward by whole windows until it contains the tick, its admissions are
   kept or reset, and only an unrepresentable service can fail; then the window has moved but the last
   tick has not.
   */
  lemma AdvanceMoves(c: Controller, now: u64) returns (k: nat)
    requires Shape(c)
    ensures var (c', fault) := Advance(c, now);
            && (fault == Some(TimeRegression) <==> now < Max(c.lastTick, c.windowStart))
            && (if fault == Some(TimeRegression) then k == 0 && c' == Rejected(c)
                else
                  && WindowAt(c.windowStart, c.curve.windowTicks, k, c'.windowStart)
                  && c'.windowStart <= now < c'.windowStart + c.curve.windowTicks
                  && (if k == 0 then c'.windowStart == c.windowStart && c'.admitted == c.admitted
                      else c'.windowStart > c.windowStart && c'.admitted == 0)
                  && c'.rejected == c.rejected
                  && (fault == None ==> c'.lastTick == now)
                  && (fault != None ==> fault == Some(ArithmeticOverflow) && c'.lastTick == c.lastTick)
                  && (fault != None <==> k * c.curve.minimumCompletions * Q16_ONE >= U64_LIMIT)
                  && c'.virtualBacklog ==
                       (if fault == None then Max(0, c.virtualBacklog - k * c.curve.minimumCompletions * Q16_ONE)
                        else c.virtualBacklog))
  {
    k := 0;
    if now >= Max(c.lastTick, c.windowStart) && now - c.windowStart >= c.curve.windowTicks {
      k := WholeWindows(now - c.windowStart, c.curve.windowTicks);
      MulAtLeast(c.curve.windowTicks, k, 1);
      MulAtLeast(k, c.curve.minimumCompletions, 0);
    }
  }

  /** 2^48 windows of one tick and one completion: the window moves, the last tick stays, and the call fails. */
  lemma AdvanceCanFailHalfway(c: Controller)
    requires c.curve == ServiceCurve(1, 1, 1, 0, 1) && c.windowStart == c.lastTick == 0
    requires Shape(c)
    ensures var now: u64 := 0x1_0000_0000_0000;
            Advance(c, now) == (c.(windowStart := now, admitted := 0), Some(ArithmeticOverflow))
  {
    var windows := WholeWindows(0x1_0000_0000_0000, 1);
    assert windows == 0x1_0000_0000_0000;
  }

  /** Advancing never touches the identity, the counters or the calibrator. */
  predicate SameOutside(c: Controller, c': Controller) {
    && c'.curve == c.curve && c'.secret == c.secret && c'.sequence == c.sequence && c'.accepted == c.accepted
    && c'.observed == c.observed && c'.curveRoot == c.curveRoot && c'.calibrator == c.calibrator
  }

  lemma AdvanceFrame(c: Controller, now: u64)
    requires Shape(c)
    ensures SameOutside(c, Advance(c, now).0)
    ensures Advance(c, now).1 != Some(TimeRegression) ==> Advance(c, now).0.rejected == c.rejected
  {
  }

  /** The drift penalty is the time the curve needs for the whole virtual jobs: the least such number of windows, or nothing. */
  lemma DriftServesTheBacklog(c: Controller)
    requires CurveValid(c.curve)
    ensures c.virtualBacklog < 0x1_0000 ==> DriftPenalty(c) == 0
    ensures c.virtualBacklog >= 0x1_0000 ==>
              var jobs, n := c.virtualBacklog / 0x1_0000, CeilDiv(c.virtualBacklog / 0x1_0000, c.curve.minimumCompletions);
              && c.curve.minimumCompletions * (n - 1) < jobs <= c.curve.minimumCompletions * n
              && DriftPenalty(c) == Min(n * c.curve.windowTicks, U64_MAX)
  {
    var jobs := c.virtualBacklog / 0x1_0000;
    if jobs > 0 {
      MulAtLeast(c.curve.windowTicks, CeilDiv(jobs, c.curve.minimumCompletions), 0);
    }
  }

  // ----- admission: what it promises -----

  /** Everything that has to hold for a request to be admitted once the window is current. */
  ghost predicate Admissible(c: Controller, now: u64, deadline: u64, backlogBefore: nat)
    requires Shape(c)
  {
    && backlogBefore < c.curve.maximumBacklog && c.admitted < c.curve.maximumAdmissions && c.sequence < U64_MAX
    && DeterministicDelay(c.curve, backlogBefore).Some? && Calibrators.Guard(c.calibrator).Ok?
    && now + DeterministicDelay(c.curve, backlogBefore).value + Calibrators.Guard(c.calibrator).value
         + DriftPenalty(c) <= deadline
  }

  /** A request is admitted exactly when the whole risk-adjusted bound fits inside the deadline and the limits. */
  lemma AdmitsExactly(c: Controller, now: u64, deadline: u64, backlogBefore: nat)
    requires Shape(c)
    ensures AdmitNow(c, now, deadline, backlogBefore).1.Ok? <==> Admissible(c, now, deadline, backlogBefore)
  {
  }

  /** With the advance: the tick must not be in the past, and the service of the windows passed must be representable. */
  lemma AdmitsExactlyAt(c: Controller, now: u64, deadline: u64, backlogBefore: nat)
    requires Shape(c)
    ensures Shape(Advance(c, now).0)
    ensures Admit(c, now, deadline, backlogBefore).1.Ok? <==>
              && c.lastTick <= now && c.windowStart <= now && Advance(c, now).1 == None
              && Admissible(Advance(c, now).0, now, deadline, backlogBefore)
  {
    AdvanceKeepsShape(c, now);
    AdmitsExactly(Advance(c, now).0, now, deadline, backlogBefore);
  }

  /** An admitted certificate accounts for its deadline to the tick. */
  lemma CertificateAccounts(c: Controller, now: u64, deadline: u64, backlogBefore: nat)
    requires Shape(c) && AdmitNow(c, now, deadline, backlogBefore).1.Ok?
    ensures var cert := AdmitNow(c, now, deadline, backlogBefore).1.value;
            && cert.admittedTick + cert.deterministic + cert.guard + cert.drift + cert.slack == deadline
            && cert.bound == cert.deterministic + cert.guard + cert.drift
            && Some(cert.deterministic) == DeterministicDelay(c.curve, backlogBefore)
            && cert.drift == DriftPenalty(c) && Ok(cert.guard) == Calibrators.Guard(c.calibrator)
            && cert.admittedTick == now && cert.windowStart == c.windowStart
            && cert.backlogBefore == backlogBefore && cert.admittedBefore == c.admitted
            && cert.sequence == c.sequence + 1
            && cert.curveRoot == c.curveRoot && cert.calibrationRoot == c.calibrator.root
  {
  }

  /** Raising the deadline never turns acceptance into rejection, and the extra ticks become slack. */
  lemma DeadlineMonotone(c: Controller, now: u64, deadline: u64, later: u64, backlogBefore: nat)
    requires Shape(c) && deadline <= later && AdmitNow(c, now, deadline, backlogBefore).1.Ok?
    ensures AdmitNow(c, now, later, backlogBefore).1.Ok?
    ensures AdmitNow(c, now, later, backlogBefore).1.value.slack
         == AdmitNow(c, now, deadline, backlogBefore).1.value.slack + (later - deadline)
  {
  }

  /** `admit` is a transaction: any fault leaves all but the rejection counter, which only three faults raise. */
  lemma AdmitIsTransaction(c: Controller, now: u64, deadline: u64, backlogBefore: nat)
    requires Shape(c) && AdmitNow(c, now, deadline, backlogBefore).1.Err?
    ensures AdmitNow(c, now, deadline, backlogBefore).0 ==
      if backlogBefore >= c.curve.maximumBacklog || c.admitted >= c.curve.maximumAdmissions
         || AdmitNow(c, now, deadline, backlogBefore).1.error == DeadlineUnsafe
      then Rejected(c) else c
  {
  }

  /** Rolling back straight after an admission succeeds exactly when every root involved is non-zero. */
  lemma RollbackAccepts(c: Controller, now: u64, deadline: u64, backlogBefore: nat)
    requires Shape(c) && AdmitNow(c, now, deadline, backlogBefore).1.Ok?
    ensures var (c1, result) := AdmitNow(c, now, deadline, backlogBefore);
            Rollback(c1, result.value).1.Ok? <==>
              c.curveRoot != 0 && c.calibrator.root != 0 && result.value.root != 0
  {
    DelayPositive(c.curve, backlogBefore);
    var (c1, result) := AdmitNow(c, now, deadline, backlogBefore);
    assert CertificateWords(result.value.(root := 0)) == CertificateWords(result.value);
  }

  /** It then restores everything but the reservation sequence, exactly when neither counter was saturated. */
  lemma RollbackRestores(c: Controller, now: u64, deadline: u64, backlogBefore: nat)
    requires Shape(c) && AdmitNow(c, now, deadline, backlogBefore).1.Ok?
    requires c.curveRoot != 0 && c.calibrator.root != 0
    requires AdmitNow(c, now, deadline, backlogBefore).1.value.root != 0
    ensures var (c1, result) := AdmitNow(c, now, deadline, backlogBefore);
            Rollback(c1, result.value).0 == c.(sequence := c.sequence + 1) <==>
              c.accepted < U64_MAX && c.virtualBacklog + Q16_ONE < U64_LIMIT
  {
    RollbackAccepts(c, now, deadline, backlogBefore);
  }

  // ----- completions: what they promise -----

  /** How far the job ran beyond what was predicted without the guard. */
  function Residual(cert: Certificate, delay: u64): int {
    Max(0, delay - cert.deterministic - cert.drift)
  }

  /** What a job that took longer than its bound adds to the backlog: its excess in windows, when that can be scaled. */
  function LatePenalty(windowTicks: u64, delay: u64, bound: u64): int
    requires windowTicks > 0
  {
    if delay <= bound then 0
    else if (delay - bound) * 0x1_0000 < U64_LIMIT then (delay - bound) * 0x1_0000 / windowTicks
    else U64_MAX
  }

  /**
   A completion from `c` to `c'`: the capped residual is the newest of the history, the guard is that of
   the new history, one whole job leaves the virtual backlog, and a late job adds its penalty.
   */
  ghost predicate Learned(c: Controller, c': Controller, cert: Certificate, delay: u64, guard: u64)
    requires Shape(c) && Shape(c')
  {
    && (forall h: seq<u64> {:trigger Calibrators.Holds(c.calibrator, h)} :: Calibrators.Holds(c.calibrator, h) ==>
          Calibrators.Holds(c'.calibrator, h + [Min(Residual(cert, delay), c.calibrator.maximum)]))
    && Calibrators.SameSettings(c.calibrator, c'.calibrator)
    && Calibrators.Guard(c'.calibrator) == Ok(guard)
    && c'.virtualBacklog ==
         Min(U64_MAX, Max(0, c.virtualBacklog - Q16_ONE) + LatePenalty(c.curve.windowTicks, delay, cert.bound))
    && c'.observed == Min(U64_MAX, c.observed + 1)
    && c' == c.(calibrator := c'.calibrator, virtualBacklog := c'.virtualBacklog, observed := c'.observed)
  }

  lemma HistoryGrows(c: Calibrators.Calibrator, residual: u64)
    requires Calibrators.Shape(c)
    ensures Calibrators.SameSettings(c, Calibrators.Pushed(c, residual))
    ensures forall h: seq<u64> {:trigger Calibrators.Holds(c, h)} :: Calibrators.Holds(c, h) ==>
              Calibrators.Holds(Calibrators.Pushed(c, residual), h + [Min(residual, c.maximum)])
  {
    forall h: seq<u64> {:trigger Calibrators.Holds(c, h)} | Calibrators.Holds(c, h)
      ensures Calibrators.Holds(Calibrators.Pushed(c, residual), h + [Min(residual, c.maximum)])
    {
      Calibrators.PushHolds(c, h, residual);
    }
  }

  lemma BacklogDrains(c: Controller, delay: u64, bound: u64)
    requires CurveValid(c.curve)
    ensures DrainedBacklog(c, delay, bound)
         == Min(U64_MAX, Max(0, c.virtualBacklog - Q16_ONE) + LatePenalty(c.curve.windowTicks, delay, bound))
  {
  }

  /** Every successful completion teaches the controller exactly that. */
  lemma CompletionLearns(c: Controller, cert: Certificate, delay: u64)
    requires Shape(c) && Complete(c, cert, delay).1.Ok?
    ensures var (c', result) := Complete(c, cert, delay);
            Shape(c') && Learned(c, c', cert, delay, result.value)
  {
    HistoryGrows(c.calibrator, Residual(cert, delay));
    BacklogDrains(c, delay, cert.bound);
  }

  /** So does every successful observation, from the state its tick advances to. */
  lemma ObservationLearns(c: Controller, cert: Certificate, tick: u64)
    requires Shape(c)
    ensures var c1 := Advance(c, tick).0;
            var (c', result) := Observe(c, cert, tick);
            result.Ok? ==>
              && Shape(c1) && Shape(c') && Verified(c, cert) && tick >= cert.admittedTick
              && Learned(c1, c', cert, tick - cert.admittedTick, result.value)
  {
    AdvanceKeepsShape(c, tick);
    if Observe(c, cert, tick).1.Ok? {
      CompletionLearns(Advance(c, tick).0, cert, tick - cert.admittedTick);
    }
  }

  /**
   The penalty is the saturated excess in windows exactly when the excess can be scaled, or is so large
   that the quotient saturates too.
   */
  lemma LatePenaltyExactly(windowTicks: u64, delay: u64, bound: u64)
    requires windowTicks > 0 && delay > bound
    ensures LatePenalty(windowTicks, delay, bound) == Min(U64_MAX, (delay - bound) * 0x1_0000 / windowTicks) <==>
              delay - bound < 0x1_0000_0000_0000 || (delay - bound) * 0x1_0000 >= U64_MAX * windowTicks
  {
    var x := (delay - bound) * 0x1_0000;
    Calibrators.DivWithin(x, windowTicks);
    QuotientBounds(x, windowTicks, x / windowTicks, U64_MAX);
  }

  /** An excess of 2^48 ticks with windows of 2^20: the quotient would be 2^44, the penalty is the largest word. */
  lemma LatePenaltyTooLarge()
    ensures LatePenalty(0x10_0000, 0x1_0000_0000_0000, 0) == U64_MAX
    ensures 0x1_0000_0000_0000 * 0x1_0000 / 0x10_0000 == 0x1000_0000_0000
  {
  }

  /** A job of a certificate that adds up is late exactly when its residual exceeds the guard it was granted. */
  lemma LateAboveGuard(cert: Certificate, delay: u64)
    requires cert.bound == cert.deterministic + cert.guard + cert.drift
    ensures delay > cert.bound <==> Residual(cert, delay) > cert.guard
  {
  }

  /** The rank among `length` residuals can be computed; so it can for every array of words that fits in memory. */
  predicate RankFits(length: nat) {
    (length + 1) * 15 + 15 < U64_LIMIT
  }

  /** What the calibrator of a controller keeps to: the fixed settings, and residuals that leave room for the slack. */
  ghost predicate Teachable(c: Calibrators.Calibrator) {
    && Calibrators.Shape(c)
    && c.numerator == Calibrators.DEFAULT_NUMERATOR && c.denominator == Calibrators.DEFAULT_DENOMINATOR && c.slack == 1
    && forall i :: 0 <= i < |c.residuals| ==> c.residuals[i] < U64_MAX
  }

  lemma NewTeachable(capacity: u64, curve: ServiceCurve, now: u64, secret: u64)
    requires New(capacity, curve, now, secret).Ok?
    ensures Teachable(New(capacity, curve, now, secret).value.calibrator)
  {
  }

  /** Such a calibrator has a guard exactly when the rank can be computed. */
  lemma TeachableGuards(c: Calibrators.Calibrator)
    requires Teachable(c) && c.length > 0
    ensures Calibrators.Guard(c).Ok? <==> RankFits(c.length)
  {
    var retained, rank := Calibrators.Retained(c), Calibrators.IntendedRank(c.length, c.numerator, c.denominator);
    Calibrators.SortedHasRank(retained, rank - 1);
    var g := Calibrators.Sorted(retained)[rank - 1];
    Calibrators.GuardIsOrderStatistic(c, g);
  }

  lemma PushStaysTeachable(c: Calibrators.Calibrator, residual: u64)
    requires Teachable(c) && residual < U64_MAX
    ensures Teachable(Calibrators.Pushed(c, residual)) && Calibrators.Pushed(c, residual).length > 0
  {
  }

  /**
   With a positive deterministic delay and parts that can be added, a completion succeeds exactly when
   the new rank can be computed; otherwise it fails with the residual already stored.
   */
  lemma CompletionSucceeds(c: Controller, cert: Certificate, delay: u64)
    requires Shape(c) && Teachable(c.calibrator)
    requires 0 < cert.deterministic && cert.deterministic + cert.drift < U64_LIMIT
    ensures var (c', result) := Complete(c, cert, delay);
            && Teachable(c'.calibrator)
            && (result.Ok? <==> RankFits(Min(c.calibrator.length + 1, |c.calibrator.residuals|)))
            && (result.Err? ==> result == Err(CorruptObservation))
            && (result.Err? ==> c' == c.(calibrator := Calibrators.Pushed(c.calibrator, Residual(cert, delay))))
  {
    PushStaysTeachable(c.calibrator, Residual(cert, delay));
    TeachableGuards(Calibrators.Pushed(c.calibrator, Residual(cert, delay)));
  }
}
