/** The ring of recent residuals and the order statistic that guards against underprediction. */
module Calibrators {
  import opened Machine
  import opened Mixing

  const DEFAULT_NUMERATOR: u8 := 15
  const DEFAULT_DENOMINATOR: u8 := 16

  datatype CalibrationFault = ZeroCapacity | InvalidCoverage | ArithmeticOverflow

  datatype Calibrator = Calibrator(
    residuals: seq<u64>, length: nat, cursor: nat, samples: u64,
    numerator: u8, denominator: u8, slack: u64, maximum: u64, secret: u64, root: u64)

  /** `residuals` is an array, so its length is a `usize`. */
  predicate Shape(c: Calibrator) {
    0 < |c.residuals| < U64_LIMIT && c.length <= |c.residuals| && c.cursor < |c.residuals| && c.denominator != 0
  }

  function Retained(c: Calibrator): seq<u64>
    requires Shape(c)
  {
    c.residuals[..c.length]
  }

  // ----- roots -----

  function SettingsWords(c: Calibrator): seq<u64>
    requires Shape(c)
  {
    [c.samples, c.length, c.cursor, c.numerator + 0x100 * c.denominator, c.slack, c.maximum]
  }

  function CalibratorWords(c: Calibrator): seq<u64>
    requires Shape(c)
  {
    SettingsWords(c) + Retained(c)
  }

  function CalibratorRoot(c: Calibrator): u64
    requires Shape(c)
  {
    Fold(c.secret, CalibratorWords(c))
  }

  function Sealed(c: Calibrator): Calibrator
    requires Shape(c)
  {
    c.(root := CalibratorRoot(c))
  }

  function New(capacity: u64, numerator: u8, denominator: u8, slack: u64, maximum: u64, secret: u64):
    Result<Calibrator, CalibrationFault>
  {
    if capacity == 0 then Err(ZeroCapacity)
    else if numerator == 0 || denominator == 0 || numerator >= denominator || maximum == 0 || secret == 0
    then Err(InvalidCoverage)
    else Ok(Sealed(Calibrator(seq(capacity, _ => 0), 0, 0, 0, numerator, denominator, slack, maximum, secret, 0)))
  }

  // ----- sorting -----

  function Insert(x: u64, s: seq<u64>): seq<u64> {
    if s == [] || x <= s[0] then [x] + s else [s[0]] + Insert(x, s[1..])
  }

  /** What the library's sort leaves in the copy. */
  function Sorted(s: seq<u64>): (t: seq<u64>)
    ensures |t| == |s|
    ensures multiset(t) == multiset(s)
  {
    if s == [] then []
    else
      assert s == [s[0]] + s[1..];
      InsertPermutes(s[0], Sorted(s[1..]));
      Insert(s[0], Sorted(s[1..]))
  }

  lemma {:induction false} InsertPermutes(x: u64, s: seq<u64>)
    ensures multiset(Insert(x, s)) == multiset{x} + multiset(s)
    ensures |Insert(x, s)| == |s| + 1
  {
    if !(s == [] || x <= s[0]) {
      InsertPermutes(x, s[1..]);
      assert s == [s[0]] + s[1..];
    }
  }

  predicate Ordered(s: seq<u64>) {
    forall i, j :: 0 <= i <= j < |s| ==> s[i] <= s[j]
  }

  lemma {:induction false} InsertFloor(x: u64, s: seq<u64>, low: u64)
    requires low <= x && forall i :: 0 <= i < |s| ==> low <= s[i]
    ensures forall i :: 0 <= i < |Insert(x, s)| ==> low <= Insert(x, s)[i]
  {
    if !(s == [] || x <= s[0]) {
      InsertFloor(x, s[1..], low);
    }
  }

  lemma OrderedFront(x: u64, s: seq<u64>)
    requires Ordered(s) && forall i :: 0 <= i < |s| ==> x <= s[i]
    ensures Ordered([x] + s)
  {
  }

  lemma {:induction false} InsertOrders(x: u64, s: seq<u64>)
    requires Ordered(s)
    ensures Ordered(Insert(x, s))
  {
    if s == [] || x <= s[0] {
      OrderedFront(x, s);
    } else {
      InsertOrders(x, s[1..]);
      InsertFloor(x, s[1..], s[0]);
      OrderedFront(s[0], Insert(x, s[1..]));
    }
  }

  lemma {:induction false} SortOrders(s: seq<u64>)
    ensures Ordered(Sorted(s))
  {
    if s != [] {
      SortOrders(s[1..]);
      InsertOrders(s[0], Sorted(s[1..]));
    }
  }

  // ----- order statistics -----

  function CountLess(s: seq<u64>, g: u64): (n: nat)
    ensures n <= |s|
  {
    if s == [] then 0 else (if s[0] < g then 1 else 0) + CountLess(s[1..], g)
  }

  function CountAtMost(s: seq<u64>, g: u64): (n: nat)
    ensures n <= |s|
  {
    if s == [] then 0 else (if s[0] <= g then 1 else 0) + CountAtMost(s[1..], g)
  }

  /** `g` is the `rank`-th smallest element, counting from one. */
  predicate AtRank(s: seq<u64>, rank: nat, g: u64) {
    g in s && CountLess(s, g) < rank <= CountAtMost(s, g)
  }

  lemma {:induction false} CountsConcat(a: seq<u64>, b: seq<u64>, g: u64)
    ensures CountLess(a + b, g) == CountLess(a, g) + CountLess(b, g)
    ensures CountAtMost(a + b, g) == CountAtMost(a, g) + CountAtMost(b, g)
  {
    if a == [] {
      assert a + b == b;
    } else {
      assert (a + b)[1..] == a[1..] + b;
      CountsConcat(a[1..], b, g);
    }
  }

  lemma {:induction false} CountsInsert(x: u64, s: seq<u64>, g: u64)
    ensures CountLess(Insert(x, s), g) == CountLess([x] + s, g)
    ensures CountAtMost(Insert(x, s), g) == CountAtMost([x] + s, g)
  {
    assert ([x] + s)[1..] == s;
    if !(s == [] || x <= s[0]) {
      CountsInsert(x, s[1..], g);
      assert ([x] + s[1..])[1..] == s[1..];
      assert ([s[0]] + Insert(x, s[1..]))[1..] == Insert(x, s[1..]);
    }
  }

  lemma {:induction false} CountsSorted(s: seq<u64>, g: u64)
    ensures CountLess(Sorted(s), g) == CountLess(s, g)
    ensures CountAtMost(Sorted(s), g) == CountAtMost(s, g)
  {
    if s != [] {
      CountsSorted(s[1..], g);
      CountsInsert(s[0], Sorted(s[1..]), g);
      assert ([s[0]] + Sorted(s[1..]))[1..] == Sorted(s[1..]);
    }
  }

  lemma {:induction false} CountNone(s: seq<u64>, g: u64)
    requires forall i :: 0 <= i < |s| ==> g <= s[i]
    ensures CountLess(s, g) == 0
  {
    if s != [] {
      CountNone(s[1..], g);
    }
  }

  lemma {:induction false} CountAll(s: seq<u64>, g: u64)
    requires forall i :: 0 <= i < |s| ==> s[i] <= g
    ensures CountAtMost(s, g) == |s|
  {
    if s != [] {
      CountAll(s[1..], g);
    }
  }

  lemma FewBelow(t: seq<u64>, i: nat)
    requires i < |t| && Ordered(t)
    ensures CountLess(t, t[i]) <= i
  {
    var g, a, b := t[i], t[..i], t[i..];
    assert a + b == t;
    CountsConcat(a, b, g);
    CountNone(b, g);
  }

  lemma EnoughAtMost(t: seq<u64>, i: nat)
    requires i < |t| && Ordered(t)
    ensures i < CountAtMost(t, t[i])
  {
    var g, a, b := t[i], t[..i + 1], t[i + 1..];
    assert a + b == t;
    CountsConcat(a, b, g);
    CountAll(a, g);
  }

  /** Position `i` of the sorted copy holds the order statistic of rank `i + 1`. */
  lemma SortedHasRank(s: seq<u64>, i: nat)
    requires i < |s|
    ensures AtRank(s, i + 1, Sorted(s)[i])
  {
    var t := Sorted(s);
    SortOrders(s);
    FewBelow(t, i);
    EnoughAtMost(t, i);
    CountsSorted(s, t[i]);
    assert t[i] in multiset(t);
  }

  lemma {:induction false} CountsNest(s: seq<u64>, g: u64, h: u64)
    requires g < h
    ensures CountAtMost(s, g) <= CountLess(s, h)
  {
    if s != [] {
      CountsNest(s[1..], g, h);
    }
  }

  /** There is one element of each rank. */
  lemma RankUnique(s: seq<u64>, rank: nat, g: u64, h: u64)
    requires AtRank(s, rank, g) && AtRank(s, rank, h)
    ensures g == h
  {
    if g < h {
      CountsNest(s, g, h);
    } else if h < g {
      CountsNest(s, h, g);
    }
  }

  // ----- the guard -----

  /** The rank as the code computes it, before it is clamped. */
  function Rank(c: Calibrator): Option<u64>
    requires Shape(c)
  {
    match CheckedAdd(c.length, 1)
    case None => None
    case Some(count) =>
      match CheckedMul(count, c.numerator)
      case None => None
      case Some(numerator) =>
        match CheckedAdd(numerator, c.denominator - 1)
        case None => None
        case Some(sum) => DivWithin(sum, c.denominator); Some(sum / c.denominator)
  }

  lemma DivWithin(a: nat, b: nat)
    requires b > 0
    ensures 0 <= a / b <= a
  {
    var q := a / b;
    assert a == b * q + a % b;
    if q < 0 {
      MulAtLeast(b, -1, q);
    } else {
      MulAtLeast(q, b, 1);
    }
  }

  function Guard(c: Calibrator): Result<u64, CalibrationFault>
    requires Shape(c)
  {
    if c.length == 0 then Ok(Min(c.slack, c.maximum))
    else
      match Rank(c)
      case None => Err(ArithmeticOverflow)
      case Some(rank) =>
        var index := Min(SaturatingSub(rank, 1), c.length - 1);
        match CheckedAdd(Sorted(Retained(c))[index], c.slack)
        case None => Err(ArithmeticOverflow)
        case Some(sum) => Ok(Min(sum, c.maximum))
  }

  /** The rank the guard is meant to have among `count` residuals. */
  function IntendedRank(count: nat, numerator: nat, denominator: nat): nat
    requires count > 0 && numerator > 0 && denominator > 0
  {
    MulAtLeast(count + 1, numerator, 1);
    Min(count, CeilDiv((count + 1) * numerator, denominator))
  }

  /** The guard is `g` plus the slack, capped, and missing exactly when the rank or that sum does not fit in a word. */
  predicate GuardIs(c: Calibrator, g: u64)
    requires Shape(c)
  {
    Guard(c) ==
      if (c.length + 1) * c.numerator + c.denominator - 1 < U64_LIMIT && g + c.slack < U64_LIMIT
      then Ok(Min(g + c.slack, c.maximum)) else Err(ArithmeticOverflow)
  }

  /** The guard is the order statistic of the intended rank plus the slack, capped. */
  lemma GuardIsOrderStatistic(c: Calibrator, g: u64)
    requires Shape(c) && c.length > 0 && c.numerator > 0
    requires AtRank(Retained(c), IntendedRank(c.length, c.numerator, c.denominator), g)
    ensures GuardIs(c, g)
  {
    MulAtLeast(c.numerator, c.length + 1, c.length + 1);
    MulAtLeast(c.length + 1, c.numerator, 1);
    if (c.length + 1) * c.numerator + c.denominator - 1 < U64_LIMIT {
      var rank := CeilDiv((c.length + 1) * c.numerator, c.denominator);
      assert Rank(c) == Some(rank);
      var index := Min(rank - 1, c.length - 1);
      SortedHasRank(Retained(c), index);
      RankUnique(Retained(c), index + 1, g, Sorted(Retained(c))[index]);
    } else {
      assert Rank(c) == None;
    }
  }

  /** At least as many retained residuals as the rank says are at most the guard. */
  lemma GuardCovers(c: Calibrator)
    requires Shape(c) && c.length > 0 && c.numerator > 0 && Guard(c).Ok?
    requires forall i :: 0 <= i < |Retained(c)| ==> Retained(c)[i] <= c.maximum
    ensures CountAtMost(Retained(c), Guard(c).value) >= IntendedRank(c.length, c.numerator, c.denominator)
  {
    var s, rank := Retained(c), IntendedRank(c.length, c.numerator, c.denominator);
    SortedHasRank(s, rank - 1);
    var g := Sorted(s)[rank - 1];
    GuardIsOrderStatistic(c, g);
    CountsGrow(s, g, Guard(c).value);
  }

  lemma {:induction false} CountsGrow(s: seq<u64>, g: u64, h: u64)
    requires g <= h
    ensures CountAtMost(s, g) <= CountAtMost(s, h)
  {
    if s != [] {
      CountsGrow(s[1..], g, h);
    }
  }

  // ----- pushing -----

  function Stored(c: Calibrator, residual: u64): (c': Calibrator)
    requires Shape(c)
    ensures Shape(c') && |c'.residuals| == |c.residuals|
  {
    c.(residuals := c.residuals[c.cursor := Min(residual, c.maximum)],
       cursor := if c.cursor + 1 == |c.residuals| then 0 else c.cursor + 1,
       length := Min(c.length + 1, |c.residuals|),
       samples := SaturatingAdd(c.samples, 1))
  }

  function Pushed(c: Calibrator, residual: u64): (c': Calibrator)
    requires Shape(c)
    ensures Shape(c') && |c'.residuals| == |c.residuals|
  {
    Sealed(Stored(c, residual))
  }

  function PushedAll(c: Calibrator, residuals: seq<u64>): (c': Calibrator)
    requires Shape(c)
    ensures Shape(c') && |c'.residuals| == |c.residuals|
  {
    if residuals == [] then c
    else Pushed(PushedAll(c, residuals[..|residuals| - 1]), residuals[|residuals| - 1])
  }

  function Capped(residuals: seq<u64>, maximum: u64): (h: seq<u64>)
    ensures |h| == |residuals|
    ensures forall i :: 0 <= i < |h| ==> h[i] == Min(residuals[i], maximum)
  {
    seq(|residuals|, i requires 0 <= i < |residuals| => Min(residuals[i], maximum))
  }

  /** A ring with its next position at `k` holds the last of the history `h`, the newest just before `k`. */
  predicate RingHolds(r: seq<u64>, k: nat, h: seq<u64>) {
    && k < |r| && k <= |h|
    && r[..k] == h[|h| - k..]
    && (if |h| < |r| then k == |h| else r[k..] == h[|h| - |r|..|h| - k])
  }

  predicate Holds(c: Calibrator, h: seq<u64>) {
    c.length == Min(|h|, |c.residuals|) && c.samples == Min(|h|, U64_MAX) && RingHolds(c.residuals, c.cursor, h)
  }

  lemma NewestExtends(r: seq<u64>, k: nat, h: seq<u64>, b: u64)
    requires RingHolds(r, k, h)
    ensures r[k := b][..k + 1] == (h + [b])[|h| - k..]
  {
    assert r[k := b][..k + 1] == r[..k] + [b];
    assert (h + [b])[|h| - k..] == h[|h| - k..] + [b];
  }

  lemma OldestLeaves(r: seq<u64>, k: nat, h: seq<u64>, b: u64)
    requires RingHolds(r, k, h) && |h| >= |r|
    ensures r[k := b][k + 1..] == (h + [b])[|h| + 1 - |r|..|h| - k]
  {
    assert r[k := b][k + 1..] == r[k..][1..];
    assert (h + [b])[|h| + 1 - |r|..|h| - k] == h[|h| - |r|..|h| - k][1..];
  }

  lemma RingStep(r: seq<u64>, k: nat, h: seq<u64>, b: u64)
    requires RingHolds(r, k, h)
    ensures RingHolds(r[k := b], if k + 1 == |r| then 0 else k + 1, h + [b])
  {
    NewestExtends(r, k, h, b);
    if k + 1 == |r| {
      assert r[k := b][..k + 1] == r[k := b][0..];
      assert (h + [b])[|h| - k..] == (h + [b])[|h| + 1 - |r|..|h| + 1];
    } else if |h| >= |r| {
      OldestLeaves(r, k, h, b);
    }
  }

  lemma PushHolds(c: Calibrator, h: seq<u64>, residual: u64)
    requires Shape(c) && Holds(c, h)
    ensures Holds(Pushed(c, residual), h + [Min(residual, c.maximum)]) && SameSettings(c, Pushed(c, residual))
  {
    RingStep(c.residuals, c.cursor, h, Min(residual, c.maximum));
  }

  lemma Wrap(k: nat, capacity: nat)
    requires k < capacity
    ensures (k + 1) % capacity == if k + 1 == capacity then 0 else k + 1
  {
  }

  /** The settings survive every push, and the root stays the root of the current contents. */
  predicate SameSettings(c: Calibrator, d: Calibrator) {
    && c.numerator == d.numerator && c.denominator == d.denominator && c.slack == d.slack
    && c.maximum == d.maximum && c.secret == d.secret && |c.residuals| == |d.residuals|
  }

  lemma CappedGrows(residuals: seq<u64>, maximum: u64)
    requires residuals != []
    ensures var n := |residuals| - 1;
            Capped(residuals, maximum) == Capped(residuals[..n], maximum) + [Min(residuals[n], maximum)]
  {
  }

  lemma {:induction false} PushedAllHolds(c: Calibrator, residuals: seq<u64>)
    requires Shape(c) && Holds(c, [])
    ensures Holds(PushedAll(c, residuals), Capped(residuals, c.maximum))
    ensures SameSettings(c, PushedAll(c, residuals))
  {
    if residuals != [] {
      var before, last := residuals[..|residuals| - 1], residuals[|residuals| - 1];
      var d := PushedAll(c, before);
      PushedAllHolds(c, before);
      PushHolds(d, Capped(before, c.maximum), last);
      CappedGrows(residuals, c.maximum);
    }
  }

  /** The last residuals of a history, as many as the ring keeps. */
  function Window(h: seq<u64>, capacity: nat): seq<u64> {
    h[|h| - Min(|h|, capacity)..]
  }

  lemma RetainedWhole(c: Calibrator, h: seq<u64>)
    requires Shape(c) && Holds(c, h) && |h| < |c.residuals|
    ensures Retained(c) == h && Window(h, |c.residuals|) == h
  {
    assert h[0..] == h;
  }

  lemma RetainedFull(c: Calibrator, h: seq<u64>)
    requires Shape(c) && Holds(c, h) && |h| >= |c.residuals|
    ensures c.cursor <= |c.residuals| <= |h|
    ensures Retained(c) == h[|h| - c.cursor..] + h[|h| - |c.residuals|..|h| - c.cursor]
    ensures Window(h, |c.residuals|) == h[|h| - |c.residuals|..|h| - c.cursor] + h[|h| - c.cursor..]
  {
    assert Retained(c) == c.residuals[..c.cursor] + c.residuals[c.cursor..];
  }

  /** The retained residuals are the window, rotated at the cursor. */
  lemma RetainedRotates(c: Calibrator, h: seq<u64>) returns (older: seq<u64>, newer: seq<u64>)
    requires Shape(c) && Holds(c, h)
    ensures Retained(c) == newer + older && Window(h, |c.residuals|) == older + newer
  {
    if |h| < |c.residuals| {
      RetainedWhole(c, h);
      older, newer := [], h;
    } else {
      RetainedFull(c, h);
      older, newer := h[|h| - |c.residuals|..|h| - c.cursor], h[|h| - c.cursor..];
    }
  }

  /**
   After any number of pushes the calibrator retains exactly the last residuals, capped, and the
   sample counter counts the pushes until it saturates.
   */
  lemma RetainsTheLast(start: Calibrator, residuals: seq<u64>)
    requires Shape(start) && Holds(start, [])
    ensures var c := PushedAll(start, residuals);
            && multiset(Retained(c)) == multiset(Window(Capped(residuals, start.maximum), |start.residuals|))
            && c.length == Min(|residuals|, |start.residuals|) && c.samples == Min(|residuals|, U64_MAX)
            && (forall i :: 0 <= i < |Retained(c)| ==> Retained(c)[i] <= start.maximum)
  {
    PushedAllHolds(start, residuals);
    var c, h := PushedAll(start, residuals), Capped(residuals, start.maximum);
    var older, newer := RetainedRotates(c, h);
    assert multiset(newer + older) == multiset(older + newer);
    forall i | 0 <= i < |Retained(c)|
      ensures Retained(c)[i] <= start.maximum
    {
      assert Retained(c)[i] in multiset(Retained(c));
      assert Retained(c)[i] in Window(h, |start.residuals|);
    }
  }

  /**
   After any non-empty sequence of pushes the guard is the order statistic of the intended rank
   among the last residuals, capped, plus the slack.
   */
  lemma GuardAfterPushes(start: Calibrator, residuals: seq<u64>, g: u64)
    requires Shape(start) && Holds(start, []) && start.numerator > 0 && residuals != []
    requires AtRank(Window(Capped(residuals, start.maximum), |start.residuals|), RankAfter(start, residuals), g)
    ensures GuardIs(PushedAll(start, residuals), g)
  {
    PushedAllHolds(start, residuals);
    var c := PushedAll(start, residuals);
    RankRotates(c, Capped(residuals, start.maximum), RankAfter(start, residuals), g);
    GuardIsOrderStatistic(c, g);
  }

  /** The intended rank among the residuals retained after the pushes. */
  function RankAfter(start: Calibrator, residuals: seq<u64>): nat
    requires Shape(start) && start.numerator > 0 && residuals != []
  {
    IntendedRank(Min(|residuals|, |start.residuals|), start.numerator, start.denominator)
  }

  lemma RankRotates(c: Calibrator, h: seq<u64>, rank: nat, g: u64)
    requires Shape(c) && Holds(c, h)
    ensures AtRank(Window(h, |c.residuals|), rank, g) <==> AtRank(Retained(c), rank, g)
  {
    var older, newer := RetainedRotates(c, h);
    CountsConcat(newer, older, g);
    CountsConcat(older, newer, g);
  }

  /** A new calibrator has the empty history. */
  lemma NewHolds(capacity: u64, numerator: u8, denominator: u8, slack: u64, maximum: u64, secret: u64)
    requires New(capacity, numerator, denominator, slack, maximum, secret).Ok?
    ensures var c := New(capacity, numerator, denominator, slack, maximum, secret).value;
            Shape(c) && Holds(c, []) && Guard(c) == Ok(Min(slack, maximum)) && c.root == CalibratorRoot(c)
  {
  }

  /** A calibrator is built exactly for room, a coverage strictly between zero and one, a positive cap and a secret. */
  lemma NewExactly(capacity: u64, numerator: u8, denominator: u8, slack: u64, maximum: u64, secret: u64)
    ensures match New(capacity, numerator, denominator, slack, maximum, secret)
            case Ok(c) =>
              && capacity != 0 && 0 < numerator < denominator && maximum != 0 && secret != 0
              && |c.residuals| == capacity && (forall i :: 0 <= i < capacity ==> c.residuals[i] == 0)
              && c.length == c.cursor == c.samples == 0 && c.numerator == numerator && c.denominator == denominator
              && c.slack == slack && c.maximum == maximum && c.secret == secret
            case Err(ZeroCapacity) => capacity == 0
            case Err(fault) =>
              && fault == InvalidCoverage && capacity != 0
              && !(0 < numerator < denominator && maximum != 0 && secret != 0)
  {
  }

  method ComputeRoot(secret: u64, settings: seq<u64>, residuals: seq<u64>) returns (root: u64)
    ensures root == Fold(secret, settings + residuals)
  {
    root := AbsorbAll(secret, settings);
    root := AbsorbAll(root, residuals);
    FoldConcat(Absorb, secret, settings, residuals);
  }

  class ResidualCalibrator {
    const residuals: array<u64>
    var length: nat
    var cursor: nat
    var samples: u64
    const numerator: u8
    const denominator: u8
    const slack: u64
    const maximum: u64
    const secret: u64
    var root: u64

    ghost function View(): Calibrator
      reads this, residuals
    {
      Calibrator(residuals[..], length, cursor, samples, numerator, denominator, slack, maximum, secret, root)
    }

    ghost predicate Valid()
      reads this, residuals
    {
      Shape(View())
    }

    constructor (capacity: u64, n: u8, d: u8, s: u64, m: u64, key: u64)
      requires New(capacity, n, d, s, m, key).Ok?
      ensures Valid() && fresh(residuals)
      ensures View() == New(capacity, n, d, s, m, key).value
    {
      residuals := new u64[capacity](_ => 0);
      length, cursor, samples := 0, 0, 0;
      numerator, denominator, slack, maximum, secret := n, d, s, m, key;
      root := 0;
      new;
      assert residuals[..] == seq(capacity, _ => 0);
      Seal();
    }

    method Seal()
      requires Valid()
      modifies this
      ensures View() == Sealed(old(View()))
    {
      var settings: seq<u64> := [samples, length, cursor, numerator + 0x100 * denominator, slack, maximum];
      assert settings + residuals[..length] == CalibratorWords(View());
      root := ComputeRoot(secret, settings, residuals[..length]);
    }

    method Store(residual: u64)
      requires Valid()
      modifies this, residuals
      ensures Valid()
      ensures View() == Stored(old(View()), residual)
    {
      residuals[cursor] := Min(residual, maximum);
      Wrap(cursor, residuals.Length);
      cursor := (cursor + 1) % residuals.Length;
      length := Min(length + 1, residuals.Length);
      samples := SaturatingAdd(samples, 1);
    }

    method Push(residual: u64) returns (result: Result<u64, CalibrationFault>)
      requires Valid()
      modifies this, residuals
      ensures Valid()
      ensures View() == Pushed(old(View()), residual)
      ensures result == Guard(View())
    {
      Store(residual);
      Seal();
      result := GuardNow();
    }

    method GuardNow() returns (result: Result<u64, CalibrationFault>)
      requires Valid()
      ensures result == Guard(View())
    {
      if length == 0 {
        return Ok(Min(slack, maximum));
      }
      var sorted := Sorted(residuals[..length]);
      var count := CheckedAdd(length, 1);
      if count.None? {
        return Err(ArithmeticOverflow);
      }
      var product := CheckedMul(count.value, numerator);
      if product.None? {
        return Err(ArithmeticOverflow);
      }
      var sum := CheckedAdd(product.value, denominator - 1);
      if sum.None? {
        return Err(ArithmeticOverflow);
      }
      DivWithin(sum.value, denominator);
      var rank: u64 := sum.value / denominator;
      var index := Min(SaturatingSub(rank, 1), length - 1);
      assert residuals[..length] == residuals[..][..length];
      var total := CheckedAdd(sorted[index], slack);
      if total.None? {
        return Err(ArithmeticOverflow);
      }
      return Ok(Min(total.value, maximum));
    }
  }
}
