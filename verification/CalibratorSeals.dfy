/** What the root of a calibrator protects. */
module CalibratorSeals {
  import opened Machine
  import opened Mixing
  import opened Calibrators

  /** The root is that of the contents: what `verify_root` checks. */
  predicate RootValid(c: Calibrator)
    requires Shape(c)
  {
    c.root == CalibratorRoot(c)
  }

  /** The two coverage numbers that share a word are both recovered from it. */
  lemma CoverageRecovered(c: Calibrator, d: Calibrator)
    requires Shape(c) && Shape(d)
    ensures SettingsWords(c)[3] == SettingsWords(d)[3] <==> c.numerator == d.numerator && c.denominator == d.denominator
  {
    assert SettingsWords(c)[3] % 0x100 == c.numerator;
    assert SettingsWords(d)[3] % 0x100 == d.numerator;
  }

  /** The absorbed words determine the counters, the settings and the retained residuals, and nothing else. */
  lemma CalibratorCovered(c: Calibrator, d: Calibrator)
    requires Shape(c) && Shape(d)
    ensures CalibratorWords(c) == CalibratorWords(d) <==>
              && c.samples == d.samples && c.length == d.length && c.cursor == d.cursor
              && c.numerator == d.numerator && c.denominator == d.denominator
              && c.slack == d.slack && c.maximum == d.maximum && Retained(c) == Retained(d)
  {
    CoverageRecovered(c, d);
    var a, b := CalibratorWords(c), CalibratorWords(d);
    if a == b {
      assert a[0] == b[0] && a[1] == b[1] && a[2] == b[2] && a[3] == b[3] && a[4] == b[4] && a[5] == b[5];
      assert Retained(c) == a[6..] && Retained(d) == b[6..];
    }
  }

  /** The two calibrators agree but for one setting or counter other than the length. */
  predicate OneSettingApart(c: Calibrator, d: Calibrator) {
    && c != d
    && (|| d == c.(samples := d.samples) || d == c.(cursor := d.cursor) || d == c.(numerator := d.numerator)
        || d == c.(denominator := d.denominator) || d == c.(slack := d.slack) || d == c.(maximum := d.maximum))
  }

  /** The two calibrators agree but for the residual at place `k`, which is retained. */
  predicate OneResidualApart(c: Calibrator, d: Calibrator, k: nat) {
    && k < c.length <= |c.residuals| == |d.residuals| && c.residuals[k] != d.residuals[k]
    && d == c.(residuals := c.residuals[k := d.residuals[k]])
  }

  function SettingPlace(c: Calibrator, d: Calibrator): (i: nat)
    ensures i < 6 && i != 1
  {
    if c.samples != d.samples then 0
    else if c.cursor != d.cursor then 2
    else if c.numerator != d.numerator || c.denominator != d.denominator then 3
    else if c.slack != d.slack then 4
    else 5
  }

  lemma SettingsApart(c: Calibrator, d: Calibrator)
    requires Shape(c) && Shape(d) && OneSettingApart(c, d)
    ensures ApartAt(CalibratorWords(c), CalibratorWords(d), SettingPlace(c, d))
  {
    CoverageRecovered(c, d);
    var i := SettingPlace(c, d);
    var a, b := CalibratorWords(c), CalibratorWords(d);
    assert b == a[i := b[i]];
    UpdateApart(a, i, b[i]);
  }

  lemma ResidualsApart(c: Calibrator, d: Calibrator, k: nat)
    requires Shape(c) && Shape(d) && OneResidualApart(c, d, k)
    ensures ApartAt(CalibratorWords(c), CalibratorWords(d), 6 + k)
  {
    var a, b := CalibratorWords(c), CalibratorWords(d);
    assert Retained(d) == Retained(c)[k := d.residuals[k]];
    assert b == a[6 + k := d.residuals[k]];
    UpdateApart(a, 6 + k, d.residuals[k]);
  }

  /** A calibrator with a valid root has none any more with one setting, one counter or one retained residual altered. */
  lemma AlteredCalibratorFails(c: Calibrator, d: Calibrator, k: nat)
    requires Shape(c) && Shape(d) && RootValid(c) && (OneSettingApart(c, d) || OneResidualApart(c, d, k))
    ensures !RootValid(d)
  {
    if OneSettingApart(c, d) {
      SettingsApart(c, d);
      FoldSensitive(c.secret, CalibratorWords(c), CalibratorWords(d), SettingPlace(c, d));
    } else {
      ResidualsApart(c, d, k);
      FoldSensitive(c.secret, CalibratorWords(c), CalibratorWords(d), 6 + k);
    }
  }

  /** The root is valid from construction on, after any pushes. */
  lemma {:induction false} RootStaysValid(start: Calibrator, residuals: seq<u64>)
    requires Shape(start) && RootValid(start)
    ensures RootValid(PushedAll(start, residuals))
  {
    if residuals != [] {
      var n := |residuals| - 1;
      var c := Stored(PushedAll(start, residuals[..n]), residuals[n]);
      assert CalibratorWords(c.(root := CalibratorRoot(c))) == CalibratorWords(c);
    }
  }
}
