/** What the root of an admission certificate protects: every field, and the curve of the controller that issued it. */
module CertificateSeals {
  import opened Machine
  import opened Mixing
  import opened ServiceCurves
  import opened Admission

  /** The absorbed words determine every field of a certificate but the root itself. */
  lemma CertificateCovered(c: Certificate, d: Certificate)
    ensures CertificateWords(c) == CertificateWords(d) <==> c.(root := 0) == d.(root := 0)
  {
    SharedWordInjective(c, d);
    var a, b := CertificateWords(c), CertificateWords(d);
    assert a == b ==> forall i :: 0 <= i < 11 ==> a[i] == b[i];
  }

  /** A certificate that verifies does not verify with one word of its list changed. */
  lemma OneWordFails(c: Controller, cert: Certificate, forged: Certificate, i: nat)
    requires Verified(c, cert) && forged.root == cert.root && i < |CertificateWords(cert)|
    requires CertificateWords(forged)[i] != CertificateWords(cert)[i]
    requires CertificateWords(forged) == CertificateWords(cert)[i := CertificateWords(forged)[i]]
    ensures !Verified(c, forged)
  {
    UpdateApart(CertificateWords(cert), i, CertificateWords(forged)[i]);
    AlteredCertificateFails(c, cert, forged, i);
  }

  /** The two certificates agree in all fields but at most one, which is not the root. */
  predicate OneFieldApart(c: Certificate, d: Certificate) {
    || d == c.(sequence := d.sequence) || d == c.(admittedTick := d.admittedTick)
    || d == c.(windowStart := d.windowStart) || d == c.(backlogBefore := d.backlogBefore)
    || d == c.(admittedBefore := d.admittedBefore) || d == c.(deterministic := d.deterministic)
    || d == c.(guard := d.guard) || d == c.(drift := d.drift) || d == c.(bound := d.bound)
    || d == c.(slack := d.slack) || d == c.(curveRoot := d.curveRoot)
    || d == c.(calibrationRoot := d.calibrationRoot)
  }

  /** Where the words of two such certificates differ. */
  function WordOf(c: Certificate, d: Certificate): (i: nat)
    ensures i < 11
  {
    if d.sequence != c.sequence then 0
    else if d.admittedTick != c.admittedTick then 1
    else if d.windowStart != c.windowStart then 2
    else if d.backlogBefore != c.backlogBefore || d.admittedBefore != c.admittedBefore then 3
    else if d.deterministic != c.deterministic then 4
    else if d.guard != c.guard then 5
    else if d.drift != c.drift then 6
    else if d.bound != c.bound then 7
    else if d.slack != c.slack then 8
    else if d.curveRoot != c.curveRoot then 9
    else 10
  }

  lemma OneWordApart(c: Certificate, d: Certificate)
    requires OneFieldApart(c, d) && c != d
    ensures var i := WordOf(c, d);
            && CertificateWords(d)[i] != CertificateWords(c)[i]
            && CertificateWords(d) == CertificateWords(c)[i := CertificateWords(d)[i]]
  {
    SharedWordInjective(c, d);
  }

  /** A certificate that verifies does not verify with any one of its fields other than the root changed. */
  lemma AlteredFieldFails(c: Controller, cert: Certificate, forged: Certificate)
    requires Verified(c, cert) && OneFieldApart(cert, forged) && forged != cert
    ensures !Verified(c, forged)
  {
    OneWordApart(cert, forged);
    OneWordFails(c, cert, forged, WordOf(cert, forged));
  }

  lemma RootIsSet(c: Controller, cert: Certificate, root: u64)
    ensures CertificateRoot(c.secret, cert.(root := root)) == CertificateRoot(c.secret, cert)
  {
    assert CertificateWords(cert.(root := root)) == CertificateWords(cert);
  }

  /** Nor with any other root. */
  lemma AlteredRootFails(c: Controller, cert: Certificate, root: u64)
    requires Verified(c, cert) && root != cert.root
    ensures !Verified(c, cert.(root := root))
  {
    RootIsSet(c, cert, root);
  }

  /** Whatever the other fields, with no zero where none is allowed, exactly one root verifies, unless it would be zero. */
  lemma SealedVerifies(c: Controller, cert: Certificate) returns (root: u64)
    requires cert.sequence != 0 && cert.bound != 0 && cert.calibrationRoot != 0
    requires cert.curveRoot == c.curveRoot && c.curveRoot != 0
    ensures forall x: u64 :: Verified(c, cert.(root := x)) <==> x == root && root != 0
  {
    root := CertificateRoot(c.secret, cert);
    forall x: u64
      ensures Verified(c, cert.(root := x)) <==> x == root && root != 0
    {
      RootIsSet(c, cert, x);
    }
  }

  /** A certificate with a zero in one of five fields never verifies, whatever its root. */
  lemma BlankFails(c: Controller, cert: Certificate)
    requires 0 in {cert.sequence, cert.bound, cert.curveRoot, cert.calibrationRoot, cert.root}
    ensures !Verified(c, cert)
  {
  }

  /** The two curves agree in all fields but one. */
  predicate OneParameterApart(a: ServiceCurve, b: ServiceCurve) {
    && a != b
    && (|| b == a.(minimumCompletions := b.minimumCompletions) || b == a.(maximumAdmissions := b.maximumAdmissions)
        || b == a.(windowTicks := b.windowTicks) || b == a.(latencyTicks := b.latencyTicks)
        || b == a.(maximumBacklog := b.maximumBacklog))
  }

  function ParameterOf(a: ServiceCurve, b: ServiceCurve): (i: nat)
    ensures i < 5
  {
    if b.minimumCompletions != a.minimumCompletions then 0
    else if b.maximumAdmissions != a.maximumAdmissions then 1
    else if b.windowTicks != a.windowTicks then 2
    else if b.latencyTicks != a.latencyTicks then 3
    else 4
  }

  lemma CurveRootsDiffer(secret: u64, a: ServiceCurve, b: ServiceCurve)
    requires OneParameterApart(a, b)
    ensures CurveRoot(secret, a) != CurveRoot(secret, b)
  {
    var i := ParameterOf(a, b);
    var words := [a.minimumCompletions, a.maximumAdmissions, a.windowTicks, a.latencyTicks, a.maximumBacklog];
    var others := [b.minimumCompletions, b.maximumAdmissions, b.windowTicks, b.latencyTicks, b.maximumBacklog];
    assert others == words[i := others[i]];
    UpdateApart(words, i, others[i]);
    FoldSensitive(secret, words, others, i);
  }

  /** Controllers built under one secret for curves that differ in one parameter accept no common certificate. */
  lemma CurvesShareNoCertificate(capacity: u64, a: ServiceCurve, b: ServiceCurve, now: u64, later: u64, secret: u64,
                                 cert: Certificate)
    requires New(capacity, a, now, secret).Ok? && New(capacity, b, later, secret).Ok? && OneParameterApart(a, b)
    requires Verified(New(capacity, a, now, secret).value, cert)
    ensures !Verified(New(capacity, b, later, secret).value, cert)
  {
    CurveRootsDiffer(secret, a, b);
  }
}
