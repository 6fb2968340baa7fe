/** Which fault the admission controller reports, and when: construction, admission and rollback. */
module AdmissionFaults {
  import opened Machine
  import opened Mixing
  import opened ServiceCurves
  import opened Admission
  import Calibrators

  /** A service curve that makes sense: every limit is positive and no batch exceeds the backlog. */
  predicate CurveRule(c: ServiceCurve) {
    && 1 <= c.minimumCompletions <= c.maximumBacklog && 1 <= c.maximumAdmissions <= c.maximumBacklog
    && 1 <= c.windowTicks
  }

  /**
   Construction succeeds exactly for a sensible curve whose largest guard, one window per queued job, is
   representable, a nonzero secret and capacity, and roots that are not zero. The new controller stands
   at its tick with nothing counted and nothing queued, and its first guard is the slack of one tick.
   */
  lemma NewExactly(capacity: u64, curve: ServiceCurve, now: u64, secret: u64)
    ensures var result := New(capacity, curve, now, secret);
            var largest := curve.windowTicks * curve.maximumBacklog;
            && (result.Ok? <==>
                  && CurveRule(curve) && secret != 0 && capacity != 0 && largest < U64_LIMIT
                  && CurveRoot(secret, curve) != 0 && Absorb(secret, 0x4341_4c49_4252_4154) != 0)
            && (result == Err(ArithmeticOverflow) <==>
                  && CurveRule(curve) && secret != 0 && capacity != 0 && CurveRoot(secret, curve) != 0
                  && largest >= U64_LIMIT)
            && (result.Err? ==> result.error in {InvalidCurve, ArithmeticOverflow})
  {
    MulAtLeast(curve.windowTicks, curve.maximumBacklog, 0);
  }

  lemma NewStarts(capacity: u64, curve: ServiceCurve, now: u64, secret: u64)
    requires New(capacity, curve, now, secret).Ok?
    ensures var c := New(capacity, curve, now, secret).value;
            && Shape(c) && c.curve == curve && c.secret == secret && c.curveRoot == CurveRoot(secret, curve)
            && c.windowStart == c.lastTick == now
            && c.admitted == c.sequence == c.accepted == c.rejected == c.observed == c.virtualBacklog == 0
            && Calibrators.Holds(c.calibrator, []) && |c.calibrator.residuals| == capacity
            && Calibrators.Guard(c.calibrator) == Ok(1)
            && c.calibrator.numerator == 15 && c.calibrator.denominator == 16
            && c.calibrator.maximum == curve.windowTicks * curve.maximumBacklog
  {
    MulAtLeast(curve.windowTicks, curve.maximumBacklog, 1);
  }

  /** The ticks a request needs: the deterministic delay, the guard and the drift penalty, when the first two exist. */
  ghost predicate Needs(c: Controller, backlogBefore: nat, ticks: nat)
    requires Shape(c)
  {
    && DeterministicDelay(c.curve, backlogBefore).Some? && Calibrators.Guard(c.calibrator).Ok?
    && ticks == DeterministicDelay(c.curve, backlogBefore).value + Calibrators.Guard(c.calibrator).value + DriftPenalty(c)
  }

  /**
   Which fault an admission in the current window reports. A full backlog goes first, then a full window;
   then a delay that does not fit in a word counts as a full backlog; and a deadline is unsafe exactly
   when it comes before the tick plus the need. All else is an overflow.
   */
  lemma AdmitFaultExactly(c: Controller, now: u64, deadline: u64, backlogBefore: nat)
    requires Shape(c)
    ensures var result := AdmitNow(c, now, deadline, backlogBefore).1;
            && (result == Err(BacklogSaturated) <==>
                  || backlogBefore >= c.curve.maximumBacklog
                  || (c.admitted < c.curve.maximumAdmissions && DeterministicDelay(c.curve, backlogBefore) == None))
            && (result == Err(ArrivalEnvelopeExceeded) <==>
                  backlogBefore < c.curve.maximumBacklog && c.admitted >= c.curve.maximumAdmissions)
            && (result == Err(DeadlineUnsafe) <==>
                  && backlogBefore < c.curve.maximumBacklog && c.admitted < c.curve.maximumAdmissions
                  && exists ticks :: Needs(c, backlogBefore, ticks) && deadline < now + ticks < U64_LIMIT)
            && (result.Err? ==>
                  result.error in {BacklogSaturated, ArrivalEnvelopeExceeded, DeadlineUnsafe, ArithmeticOverflow})
  {
    if backlogBefore < c.curve.maximumBacklog && c.admitted < c.curve.maximumAdmissions {
      NeedDecides(c, now, deadline, backlogBefore);
    }
  }

  lemma NeedDecides(c: Controller, now: u64, deadline: u64, backlogBefore: nat)
    requires Shape(c) && backlogBefore < c.curve.maximumBacklog && c.admitted < c.curve.maximumAdmissions
    ensures var result := AdmitNow(c, now, deadline, backlogBefore).1;
            && (result == Err(BacklogSaturated) <==> DeterministicDelay(c.curve, backlogBefore) == None)
            && result != Err(ArrivalEnvelopeExceeded)
            && (result == Err(DeadlineUnsafe) <==>
                  exists ticks :: Needs(c, backlogBefore, ticks) && deadline < now + ticks < U64_LIMIT)
            && (result.Err? ==> result.error in {BacklogSaturated, DeadlineUnsafe, ArithmeticOverflow})
  {
    var d, g := DeterministicDelay(c.curve, backlogBefore), Calibrators.Guard(c.calibrator);
    if d.Some? && g.Ok? {
      assert Needs(c, backlogBefore, d.value + g.value + DriftPenalty(c));
    }
  }

  /** The rejection counter moves exactly for a full backlog or window, an unsafe deadline and a tick in the past. */
  lemma RejectionsCounted(c: Controller, now: u64, deadline: u64, backlogBefore: nat)
    requires Shape(c)
    ensures var (c', result) := Admit(c, now, deadline, backlogBefore);
            c'.rejected == Min(U64_MAX, c.rejected +
              if || result in {Err(TimeRegression), Err(ArrivalEnvelopeExceeded), Err(DeadlineUnsafe)}
                 || (result == Err(BacklogSaturated) && backlogBefore >= c.curve.maximumBacklog)
              then 1 else 0)
  {
    AdvanceKeepsShape(c, now);
    AdvanceFrame(c, now);
    var k := AdvanceMoves(c, now);
    AdmitFaultExactly(Advance(c, now).0, now, deadline, backlogBefore);
  }

  /**
   A rollback is accepted exactly for a certificate that verifies, belongs to the current window and is
   the last one issued, with no admission since; it gives back one admission, one acceptance and one
   queued job, and anything else changes nothing.
   */
  lemma RollbackExactly(c: Controller, cert: Certificate)
    ensures var (c', result) := Rollback(c, cert);
            && (result.Ok? <==>
                  && Verified(c, cert) && cert.windowStart == c.windowStart && cert.sequence == c.sequence
                  && c.admitted == Min(cert.admittedBefore + 1, 65535))
            && (result.Err? ==> c' == c && result == Err(StaleReservation))
            && (result.Ok? ==>
                  && c'.admitted == cert.admittedBefore
                  && c'.accepted == Max(0, c.accepted - 1) && c'.virtualBacklog == Max(0, c.virtualBacklog - 65536)
                  && c' == c.(admitted := c'.admitted, accepted := c'.accepted, virtualBacklog := c'.virtualBacklog))
  {
  }

  /** An admission counts one more of everything: the window, the sequence, the acceptances and a whole queued job. */
  lemma AdmissionCounts(c: Controller, now: u64, deadline: u64, backlogBefore: nat)
    requires Shape(c) && AdmitNow(c, now, deadline, backlogBefore).1.Ok?
    ensures var c' := AdmitNow(c, now, deadline, backlogBefore).0;
            && c'.admitted == c.admitted + 1 && c'.sequence == c.sequence + 1
            && c'.accepted == Min(U64_MAX, c.accepted + 1)
            && c'.virtualBacklog == Min(U64_MAX, c.virtualBacklog + 65536)
            && c' == c.(admitted := c'.admitted, sequence := c'.sequence, accepted := c'.accepted,
                        virtualBacklog := c'.virtualBacklog)
  {
  }
}
