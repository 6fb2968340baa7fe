/** The admission controller as the object that its callers hold. */
module ServiceControllers {
  import opened Machine
  import opened Mixing
  import opened ServiceCurves
  import opened Admission
  import Calibrators

  class ServiceController {
    const curve: ServiceCurve
    const secret: u64
    var windowStart: u64
    var lastTick: u64
    var admitted: u16
    var sequence: u64
    var accepted: u64
    var rejected: u64
    var observed: u64
    var virtualBacklog: u64
    const curveRoot: u64
    const calibrator: Calibrators.ResidualCalibrator

    ghost function View(): Controller
      reads this, calibrator, calibrator.residuals
    {
      Controller(curve, secret, windowStart, lastTick, admitted, sequence, accepted, rejected, observed,
                 virtualBacklog, curveRoot, calibrator.View())
    }

    ghost predicate Valid()
      reads this, calibrator, calibrator.residuals
    {
      Shape(View())
    }

    constructor (capacity: u64, c: ServiceCurve, now: u64, key: u64)
      requires New(capacity, c, now, key).Ok?
      ensures Valid() && fresh(calibrator) && fresh(calibrator.residuals)
      ensures View() == New(capacity, c, now, key).value
    {
      curve, secret, windowStart, lastTick := c, key, now, now;
      admitted, sequence, accepted, rejected, observed, virtualBacklog := 0, 0, 0, 0, 0, 0;
      curveRoot := CurveRoot(key, c);
      var guard: u64 := c.windowTicks * c.maximumBacklog;
      calibrator := new Calibrators.ResidualCalibrator(capacity, Calibrators.DEFAULT_NUMERATOR,
        Calibrators.DEFAULT_DENOMINATOR, 1, Max(guard, 1), Absorb(key, CALIBRATOR_TAG));
    }

    method Reject()
      modifies this
      ensures View() == Rejected(old(View()))
    {
      rejected := SaturatingAdd(rejected, 1);
    }

    method MoveWindow(now: u64) returns (fault: Option<AdmissionFault>)
      requires Valid()
      modifies this
      ensures Valid()
      ensures (View(), fault) == Advance(old(View()), now)
    {
      if now < lastTick || now < windowStart {
        Reject();
        return Some(TimeRegression);
      }
      var elapsed: u64 := now - windowStart;
      if elapsed >= curve.windowTicks {
        var windows := WholeWindows(elapsed, curve.windowTicks);
        windowStart := windowStart + windows * curve.windowTicks;
        admitted := 0;
        var jobs := CheckedMul(windows, curve.minimumCompletions);
        if jobs.None? {
          return Some(ArithmeticOverflow);
        }
        var service := CheckedMul(jobs.value, Q16_ONE);
        if service.None? {
          return Some(ArithmeticOverflow);
        }
        virtualBacklog := SaturatingSub(virtualBacklog, service.value);
      }
      lastTick := now;
      return None;
    }

    method Drift() returns (ticks: u64)
      requires Valid()
      ensures ticks == DriftPenalty(View())
    {
      var jobs: u64 := virtualBacklog / 0x1_0000;
      if jobs == 0 {
        return 0;
      }
      var windows := DriftWindows(jobs, curve.minimumCompletions);
      return SaturatingMul(windows, curve.windowTicks);
    }

    method ComputeBound(backlogBefore: nat) returns (result: Result<Bound, AdmissionFault>)
      requires Valid()
      ensures result == BoundFor(View(), backlogBefore)
    {
      var deterministic := DeterministicDelay(curve, backlogBefore);
      if deterministic.None? {
        return Err(BacklogSaturated);
      }
      var guard := calibrator.GuardNow();
      if guard.Err? {
        return Err(ArithmeticOverflow);
      }
      var drift := Drift();
      var sum := CheckedAdd(deterministic.value, guard.value);
      if sum.None? {
        return Err(ArithmeticOverflow);
      }
      var total := CheckedAdd(sum.value, drift);
      if total.None? {
        return Err(ArithmeticOverflow);
      }
      return Ok(Bound(deterministic.value, guard.value, drift, total.value));
    }

    method Commit(now: u64, deadline: u64, backlogBefore: nat, b: Bound) returns (result: Result<Certificate, AdmissionFault>)
      requires Valid() && backlogBefore < curve.maximumBacklog && admitted < curve.maximumAdmissions
      modifies this
      ensures Valid()
      ensures (View(), result) == Reserve(old(View()), now, deadline, backlogBefore, b)
    {
      var required := CheckedAdd(now, b.total);
      if required.None? {
        return Err(ArithmeticOverflow);
      }
      if deadline < required.value {
        Reject();
        return Err(DeadlineUnsafe);
      }
      if sequence == U64_MAX {
        return Err(ArithmeticOverflow);
      }
      var before := admitted;
      admitted := admitted + 1;
      sequence := sequence + 1;
      accepted := SaturatingAdd(accepted, 1);
      virtualBacklog := SaturatingAdd(virtualBacklog, Q16_ONE);
      var cert := Certificate(sequence, now, windowStart, backlogBefore, before, b.deterministic, b.guard, b.drift,
                              b.total, deadline - required.value, curveRoot, calibrator.root, 0);
      return Ok(cert.(root := CertificateRoot(secret, cert)));
    }

    method Request(now: u64, deadline: u64, backlogBefore: nat) returns (result: Result<Certificate, AdmissionFault>)
      requires Valid()
      modifies this
      ensures Valid()
      ensures (View(), result) == Admit(old(View()), now, deadline, backlogBefore)
    {
      var fault := MoveWindow(now);
      if fault.Some? {
        return Err(fault.value);
      }
      if backlogBefore >= curve.maximumBacklog {
        Reject();
        return Err(BacklogSaturated);
      }
      if admitted >= curve.maximumAdmissions {
        Reject();
        return Err(ArrivalEnvelopeExceeded);
      }
      var bound := ComputeBound(backlogBefore);
      if bound.Err? {
        return Err(bound.error);
      }
      result := Commit(now, deadline, backlogBefore, bound.value);
    }

    method Undo(cert: Certificate) returns (result: Result<(), AdmissionFault>)
      requires Valid()
      modifies this
      ensures Valid()
      ensures (View(), result) == Rollback(old(View()), cert)
    {
      var verified := Verify(cert);
      if !verified || cert.windowStart != windowStart || cert.sequence != sequence
         || admitted != Min(cert.admittedBefore + 1, 0xffff) {
        return Err(StaleReservation);
      }
      admitted := cert.admittedBefore;
      accepted := SaturatingSub(accepted, 1);
      virtualBacklog := SaturatingSub(virtualBacklog, Q16_ONE);
      return Ok(());
    }

    method Verify(cert: Certificate) returns (verified: bool)
      ensures verified == Verified(View(), cert)
    {
      verified := CertificateValid(cert) && cert.curveRoot == curveRoot && cert.root == CertificateRoot(secret, cert);
    }

    method Record(cert: Certificate, delay: u64) returns (result: Result<u64, AdmissionFault>)
      requires Valid()
      modifies this, calibrator, calibrator.residuals
      ensures Valid()
      ensures (View(), result) == Complete(old(View()), cert, delay)
    {
      var predicted := CheckedAdd(cert.deterministic, cert.drift);
      if predicted.None? {
        return Err(ArithmeticOverflow);
      }
      var guard := calibrator.Push(SaturatingSub(delay, predicted.value));
      if guard.Err? {
        return Err(CorruptObservation);
      }
      DrainOne(delay, cert.bound);
      observed := SaturatingAdd(observed, 1);
      return Ok(guard.value);
    }

    method DrainOne(delay: u64, bound: u64)
      requires Valid()
      modifies this
      ensures View() == old(View()).(virtualBacklog := DrainedBacklog(old(View()), delay, bound))
    {
      virtualBacklog := SaturatingSub(virtualBacklog, Q16_ONE);
      if delay > bound {
        var pressure := Pressure(curve.windowTicks, delay - bound);
        virtualBacklog := SaturatingAdd(virtualBacklog, pressure);
      }
    }

    method ObserveCompletion(cert: Certificate, tick: u64) returns (result: Result<u64, AdmissionFault>)
      requires Valid()
      modifies this, calibrator, calibrator.residuals
      ensures Valid()
      ensures (View(), result) == Observe(old(View()), cert, tick)
      ensures result.Ok? ==>
        && Shape(Advance(old(View()), tick).0) && tick >= cert.admittedTick
        && Learned(Advance(old(View()), tick).0, View(), cert, tick - cert.admittedTick, result.value)
    {
      ObservationLearns(View(), cert, tick);
      var verified := Verify(cert);
      if !verified || tick < cert.admittedTick {
        return Err(CorruptObservation);
      }
      result := MoveAndRecord(cert, tick);
    }

    method MoveAndRecord(cert: Certificate, tick: u64) returns (result: Result<u64, AdmissionFault>)
      requires Valid() && tick >= cert.admittedTick
      modifies this, calibrator, calibrator.residuals
      ensures Valid()
      ensures (View(), result) == AdvanceAndComplete(old(View()), cert, tick)
    {
      var fault := MoveWindow(tick);
      if fault.Some? {
        return Err(fault.value);
      }
      result := Record(cert, tick - cert.admittedTick);
    }
  }
}
