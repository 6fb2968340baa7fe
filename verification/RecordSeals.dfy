/** What a sealed record protects, field by field, and how secrets and tags separate the roots. */
module RecordSeals {
  import opened Machine
  import opened Bits
  import opened Mixing
  import opened QuantumCrest

  // ----- rotating a word -----

  lemma {:induction false} OrZero(a: nat)
    ensures Or(a, 0) == a
  {
    if a > 0 {
      OrZero(a / 2);
    }
  }

  /** Or-ing a number onto free low bits adds it. */
  lemma {:induction false} OrDisjoint(a: nat, b: nat, k: nat)
    requires b < Pow2(k)
    ensures Or(a * Pow2(k), b) == a * Pow2(k) + b
  {
    if k == 0 {
      OrZero(a);
    } else {
      var high := a * Pow2(k - 1);
      assert a * Pow2(k) == 2 * high;
      OrDisjoint(a, b / 2, k - 1);
      OrHalves(high, b);
    }
  }

  lemma OrHalves(high: nat, b: nat)
    ensures Or(2 * high, b) == 2 * Or(high, b / 2) + b % 2
  {
    assert 2 * high / 2 == high && 2 * high % 2 == 0;
  }

  lemma {:induction false} ShrDropsLow(high: nat, low: nat, k: nat)
    requires low < Pow2(k)
    ensures Shr(high * Pow2(k) + low, k) == high
  {
    if k > 0 {
      var x := high * Pow2(k - 1);
      assert high * Pow2(k) == 2 * x;
      assert (2 * x + low) / 2 == x + low / 2;
      ShrDropsLow(high, low / 2, k - 1);
    }
  }

  lemma JoinBounds(high: nat, low: nat, p: nat, q: nat)
    requires high < p && low < q && p * q == U64_LIMIT
    ensures 0 <= high * q <= high * q + low < U64_LIMIT
  {
    MulOrder(q, p - 1, high);
    assert q * (p - 1) == p * q - q;
    MulOrder(q, high, 0);
  }

  /** The upper part of a product leaves the word. */
  lemma UpperLeaves(high: nat, low: nat, p: nat, q: nat)
    requires high < p && low < q && p * q == U64_LIMIT
    ensures (high * q + low) * p % U64_LIMIT == low * p
  {
    JoinBounds(low, 0, q, p);
    assert (high * q + low) * p == low * p + (p * q) * high;
    Wraps(low * p, high);
  }

  lemma Factors(k: nat) returns (p: nat, q: nat)
    requires 0 < k < 64
    ensures p == Pow2(k) && q == Pow2(64 - k) && p * q == U64_LIMIT
  {
    Pow2At64();
    Pow2Sum(k, 64 - k);
    p, q := Pow2(k), Pow2(64 - k);
  }

  /** Rotating left exchanges the upper `k` bits with the lower ones. */
  lemma RotateExchanges(high: nat, low: nat, k: nat)
    requires 0 < k < 64 && high < Pow2(k) && low < Pow2(64 - k)
    ensures 0 <= high * Pow2(64 - k) + low < U64_LIMIT && 0 <= low * Pow2(k) + high < U64_LIMIT
    ensures RotateLeft(high * Pow2(64 - k) + low, k) == low * Pow2(k) + high
  {
    var p, q := Factors(k);
    JoinBounds(high, low, p, q);
    JoinBounds(low, high, q, p);
    ShrDropsLow(high, low, 64 - k);
    UpperLeaves(high, low, p, q);
    OrDisjoint(low, high, k);
  }

  lemma Splits(x: u64, k: nat) returns (high: nat, low: nat)
    requires 0 < k < 64
    ensures high < Pow2(k) && low < Pow2(64 - k) && x == high * Pow2(64 - k) + low
  {
    var p, q := Factors(k);
    high, low := SplitsAt(x, p, q);
  }

  lemma SplitsAt(x: u64, p: nat, q: nat) returns (high: nat, low: nat)
    requires q > 0 && p * q == U64_LIMIT
    ensures high < p && low < q && x == high * q + low
  {
    high, low := x / q, x % q;
    assert x == q * high + low;
    MulOrder(q, high, p);
  }

  lemma RotatesBack(x: u64, k: nat)
    requires 0 < k < 64
    ensures RotateRight(RotateLeft(x, k), k) == x
  {
    var high, low := Splits(x, k);
    RotateExchanges(high, low, k);
    RotateExchanges(low, high, 64 - k);
  }

  /** Rotating right undoes rotating left, and the other way round. */
  lemma RotationsCancel(x: u64, k: nat)
    requires 0 < k < 64
    ensures RotateRight(RotateLeft(x, k), k) == x && RotateLeft(RotateRight(x, k), k) == x
  {
    RotatesBack(x, k);
    RotatesBack(x, 64 - k);
  }

  // ----- secrets and tags -----

  /** A starting state is that of exactly one secret for each tag, and of exactly one tag for each secret. */
  lemma DomainReversible(secret: u64, tag: u64, start: u64)
    ensures Domain(secret, tag) == start <==> secret == Xor64(Settle(start), RotateLeft(tag, 23))
    ensures Domain(secret, tag) == start <==> tag == RotateRight(Xor64(Settle(start), secret), 23)
  {
    var spun := RotateLeft(tag, 23);
    StirringIsReversible(secret, spun, start);
    XorCommutes(secret, spun);
    StirringIsReversible(spun, secret, start);
    RotationsCancel(tag, 23);
    RotationsCancel(Xor64(Settle(start), secret), 23);
  }

  /** Different secrets, and different kinds of record, never start from the same state. */
  lemma DomainsApart(secret: u64, other: u64, tag: u64, kind: u64)
    ensures secret != other ==> Domain(secret, tag) != Domain(other, tag)
    ensures tag != kind ==> Domain(secret, tag) != Domain(secret, kind)
  {
    var start := Domain(secret, tag);
    DomainReversible(secret, tag, start);
    DomainReversible(other, tag, start);
    DomainReversible(secret, kind, start);
  }

  /** One list of words never folds to the same state for two kinds of record under one secret. */
  lemma KindsApart(secret: u64, words: seq<u64>)
    ensures var kinds := [0x534e_4150_5348_4f54, 0x434f_4d4d_414e_4421, 0x5245_504c_5921_2121, 0x4652_414d_4521_2121];
            forall j, k :: 0 <= j < k < 4 ==>
              Fold(Domain(secret, kinds[j]), words) != Fold(Domain(secret, kinds[k]), words)
  {
    var kinds := [0x534e_4150_5348_4f54, 0x434f_4d4d_414e_4421, 0x5245_504c_5921_2121, 0x4652_414d_4521_2121];
    AbsorbInjective();
    forall j, k | 0 <= j < k < 4
      ensures Fold(Domain(secret, kinds[j]), words) != Fold(Domain(secret, kinds[k]), words)
    {
      DomainsApart(secret, secret, kinds[j], kinds[k]);
      FoldInjective(Absorb, Domain(secret, kinds[j]), Domain(secret, kinds[k]), words);
    }
  }

  /** From a root back to the state its words lead to: each kind of record has its own tag and its own last turn of the secret. */
  lemma RootsReverse(secret: u64, s: Snapshot, c: Command, r: Reply, f: FrameCertificate, root: u64)
    requires CommandShape(c)
    ensures SnapshotRoot(secret, s) == root <==>
              Fold(Domain(secret, 0x534e_4150_5348_4f54), SnapshotWords(s)) == Xor64(Settle(root), RotateLeft(secret, 17))
    ensures CommandRoot(secret, c) == root <==>
              Fold(Domain(secret, 0x434f_4d4d_414e_4421), CommandWords(c)) == Xor64(Settle(root), RotateRight(secret, 9))
    ensures ReplyRoot(secret, r) == root <==>
              Fold(Domain(secret, 0x5245_504c_5921_2121), ReplyWords(r)) == Xor64(Settle(root), RotateLeft(secret, 31))
    ensures FrameRoot(secret, f) == root <==>
              Fold(Domain(secret, 0x4652_414d_4521_2121), FrameWords(f)) == Settle(root)
  {
    SnapshotRootFoldsItsWords(secret, s);
    StirringIsReversible(Fold(Domain(secret, SNAPSHOT_TAG), SnapshotWords(s)), RotateLeft(secret, 17), root);
    StirringIsReversible(Fold(Domain(secret, COMMAND_TAG), CommandWords(c)), RotateRight(secret, 9), root);
    StirringIsReversible(Fold(Domain(secret, REPLY_TAG), ReplyWords(r)), RotateLeft(secret, 31), root);
    AvalancheBijective(Fold(Domain(secret, FRAME_TAG), FrameWords(f)));
    AvalancheBijective(root);
  }

  // ----- one altered field -----

  /** The two agree in all absorbed fields but at most one. */
  predicate OneGpuField(a: GpuState, b: GpuState) {
    || b == a.(vendorId := b.vendorId) || b == a.(deviceId := b.deviceId) || b == a.(revision := b.revision)
    || b == a.(gspWireMajor := b.gspWireMajor) || b == a.(gspWireMinor := b.gspWireMinor)
    || b == a.(gspEpoch := b.gspEpoch)
    || b == a.(negotiatedFeatures := b.negotiatedFeatures) || b == a.(firmwareVersion := b.firmwareVersion)
    || b == a.(temperatureQ16 := b.temperatureQ16)
    || b == a.(pressureQ16 := b.pressureQ16) || b == a.(correctedFaults := b.correctedFaults)
    || b == a.(fatalFaults := b.fatalFaults)
  }

  /** The place of the first word in which they differ. */
  function GpuPlace(a: GpuState, b: GpuState): (i: nat)
    ensures i < 12
  {
    if a.vendorId != b.vendorId then 0
    else if a.deviceId != b.deviceId then 1
    else if a.revision != b.revision then 2
    else if a.gspWireMajor != b.gspWireMajor then 3
    else if a.gspWireMinor != b.gspWireMinor then 4
    else if a.gspEpoch != b.gspEpoch then 5
    else if a.negotiatedFeatures != b.negotiatedFeatures then 6
    else if a.firmwareVersion != b.firmwareVersion then 7
    else if a.temperatureQ16 != b.temperatureQ16 then 8
    else if a.pressureQ16 != b.pressureQ16 then 9
    else if a.correctedFaults != b.correctedFaults then 10
    else 11
  }

  lemma GpuApart(a: GpuState, b: GpuState)
    requires OneGpuField(a, b) && a != b
    ensures ApartAt(GpuWords(a), GpuWords(b), GpuPlace(a, b))
  {
    SignedWordInjective(a.temperatureQ16, b.temperatureQ16);
    SignedWordInjective(a.pressureQ16, b.pressureQ16);
    var i := GpuPlace(a, b);
    assert GpuWords(b) == GpuWords(a)[i := GpuWords(b)[i]];
    UpdateApart(GpuWords(a), i, GpuWords(b)[i]);
  }

  /** The two agree in all absorbed fields but at most one. */
  predicate OneBlackLabField(a: BlackLabState, b: BlackLabState) {
    || b == a.(policyEpoch := b.policyEpoch) || b == a.(risk := b.risk) || b == a.(severity := b.severity)
    || b == a.(action := b.action) || b == a.(temporalViolations := b.temporalViolations)
    || b == a.(evidenceVotes := b.evidenceVotes)
    || b == a.(planSteps := b.planSteps) || b == a.(requiredQuorum := b.requiredQuorum)
    || b == a.(ledgerEpoch := b.ledgerEpoch)
    || b == a.(ledgerRoot := b.ledgerRoot) || b == a.(evidenceRoot := b.evidenceRoot)
    || b == a.(planRoot := b.planRoot)
    || b == a.(forecastTick := b.forecastTick)
  }

  /** The place of the first word in which they differ. */
  function BlackLabPlace(a: BlackLabState, b: BlackLabState): (i: nat)
    ensures i < 13
  {
    if a.policyEpoch != b.policyEpoch then 0
    else if a.risk != b.risk then 1
    else if a.severity != b.severity then 2
    else if a.action != b.action then 3
    else if a.temporalViolations != b.temporalViolations then 4
    else if a.evidenceVotes != b.evidenceVotes then 5
    else if a.planSteps != b.planSteps then 6
    else if a.requiredQuorum != b.requiredQuorum then 7
    else if a.ledgerEpoch != b.ledgerEpoch then 8
    else if a.ledgerRoot != b.ledgerRoot then 9
    else if a.evidenceRoot != b.evidenceRoot then 10
    else if a.planRoot != b.planRoot then 11
    else 12
  }

  lemma BlackLabApart(a: BlackLabState, b: BlackLabState)
    requires OneBlackLabField(a, b) && a != b
    ensures ApartAt(BlackLabWords(a), BlackLabWords(b), BlackLabPlace(a, b))
  {
    var i := BlackLabPlace(a, b);
    assert BlackLabWords(b) == BlackLabWords(a)[i := BlackLabWords(b)[i]];
    UpdateApart(BlackLabWords(a), i, BlackLabWords(b)[i]);
  }

  /** The two agree in all absorbed fields but at most one. */
  predicate OneDisplayField(a: DisplayState, b: DisplayState) {
    || b == a.(width := b.width) || b == a.(height := b.height) || b == a.(pitch := b.pitch)
    || b == a.(format := b.format) || b == a.(refreshMillihertz := b.refreshMillihertz)
    || b == a.(beamPosition := b.beamPosition)
    || b == a.(presentSequence := b.presentSequence) || b == a.(frameBudgetTicks := b.frameBudgetTicks)
    || b == a.(predictedRenderTicks := b.predictedRenderTicks)
    || b == a.(damageTiles := b.damageTiles) || b == a.(totalTiles := b.totalTiles)
  }

  /** The place of the first word in which they differ. */
  function DisplayPlace(a: DisplayState, b: DisplayState): (i: nat)
    ensures i < 11
  {
    if a.width != b.width then 0
    else if a.height != b.height then 1
    else if a.pitch != b.pitch then 2
    else if a.format != b.format then 3
    else if a.refreshMillihertz != b.refreshMillihertz then 4
    else if a.beamPosition != b.beamPosition then 5
    else if a.presentSequence != b.presentSequence then 6
    else if a.frameBudgetTicks != b.frameBudgetTicks then 7
    else if a.predictedRenderTicks != b.predictedRenderTicks then 8
    else if a.damageTiles != b.damageTiles then 9
    else 10
  }

  lemma DisplayApart(a: DisplayState, b: DisplayState)
    requires OneDisplayField(a, b) && a != b
    ensures ApartAt(DisplayWords(a), DisplayWords(b), DisplayPlace(a, b))
  {
    var i := DisplayPlace(a, b);
    assert DisplayWords(b) == DisplayWords(a)[i := DisplayWords(b)[i]];
    UpdateApart(DisplayWords(a), i, DisplayWords(b)[i]);
  }

  /** The two agree in all absorbed fields but at most one. */
  predicate OneFrameField(a: FrameCertificate, b: FrameCertificate) {
    || b == a.(frameSequence := b.frameSequence) || b == a.(snapshotSequence := b.snapshotSequence)
    || b == a.(sceneEpoch := b.sceneEpoch)
    || b == a.(damageRoot := b.damageRoot) || b == a.(sceneRoot := b.sceneRoot)
    || b == a.(presentTick := b.presentTick)
    || b == a.(renderedTiles := b.renderedTiles) || b == a.(skippedTiles := b.skippedTiles)
    || b == a.(laneVotes := b.laneVotes)
  }

  /** The place of the first word in which they differ. */
  function FramePlace(a: FrameCertificate, b: FrameCertificate): (i: nat)
    ensures i < 9
  {
    if a.frameSequence != b.frameSequence then 0
    else if a.snapshotSequence != b.snapshotSequence then 1
    else if a.sceneEpoch != b.sceneEpoch then 2
    else if a.damageRoot != b.damageRoot then 3
    else if a.sceneRoot != b.sceneRoot then 4
    else if a.presentTick != b.presentTick then 5
    else if a.renderedTiles != b.renderedTiles then 6
    else if a.skippedTiles != b.skippedTiles then 7
    else 8
  }

  lemma FrameApart(a: FrameCertificate, b: FrameCertificate)
    requires OneFrameField(a, b) && a != b
    ensures ApartAt(FrameWords(a), FrameWords(b), FramePlace(a, b))
  {
    var i := FramePlace(a, b);
    assert FrameWords(b) == FrameWords(a)[i := FrameWords(b)[i]];
    UpdateApart(FrameWords(a), i, FrameWords(b)[i]);
  }

  /** The two agree in all absorbed fields but at most one. */
  predicate OneSnapshotHeaderField(a: Snapshot, b: Snapshot) {
    || b == a.(abiVersion := b.abiVersion) || b == a.(sequence := b.sequence) || b == a.(epoch := b.epoch)
    || b == a.(logicalTick := b.logicalTick) || b == a.(topologyEpoch := b.topologyEpoch)
    || b == a.(capabilityEpoch := b.capabilityEpoch)
    || b == a.(flags := b.flags)
  }

  /** The place of the first word in which they differ. */
  function SnapshotHeaderPlace(a: Snapshot, b: Snapshot): (i: nat)
    ensures i < 7
  {
    if a.abiVersion != b.abiVersion then 0
    else if a.sequence != b.sequence then 1
    else if a.epoch != b.epoch then 2
    else if a.logicalTick != b.logicalTick then 3
    else if a.topologyEpoch != b.topologyEpoch then 4
    else if a.capabilityEpoch != b.capabilityEpoch then 5
    else 6
  }

  lemma SnapshotHeaderApart(a: Snapshot, b: Snapshot)
    requires OneSnapshotHeaderField(a, b) && a != b
    ensures ApartAt(SnapshotHeader(a), SnapshotHeader(b), SnapshotHeaderPlace(a, b))
  {
    var i := SnapshotHeaderPlace(a, b);
    assert SnapshotHeader(b) == SnapshotHeader(a)[i := SnapshotHeader(b)[i]];
    UpdateApart(SnapshotHeader(a), i, SnapshotHeader(b)[i]);
  }

  /** The two agree in all absorbed fields but at most one. */
  predicate OneSnapshotTailField(a: Snapshot, b: Snapshot) {
    || b == a.(desktopRights := b.desktopRights) || b == a.(desktopSession := b.desktopSession)
    || b == a.(desktopGeneration := b.desktopGeneration)
  }

  /** The place of the first word in which they differ. */
  function SnapshotTailPlace(a: Snapshot, b: Snapshot): (i: nat)
    ensures i < 3
  {
    if a.desktopRights != b.desktopRights then 0
    else if a.desktopSession != b.desktopSession then 1
    else 2
  }

  lemma SnapshotTailApart(a: Snapshot, b: Snapshot)
    requires OneSnapshotTailField(a, b) && a != b
    ensures ApartAt(SnapshotTail(a), SnapshotTail(b), SnapshotTailPlace(a, b))
  {
    var i := SnapshotTailPlace(a, b);
    assert SnapshotTail(b) == SnapshotTail(a)[i := SnapshotTail(b)[i]];
    UpdateApart(SnapshotTail(a), i, SnapshotTail(b)[i]);
  }

  /** The two agree in all absorbed fields but at most one. */
  predicate OneCommandHeaderField(a: Command, b: Command) {
    || b == a.(abiVersion := b.abiVersion) || b == a.(sequence := b.sequence) || b == a.(epoch := b.epoch)
    || b == a.(session := b.session) || b == a.(generation := b.generation) || b == a.(opcode := b.opcode)
    || b == a.(flags := b.flags) || b == a.(object_ := b.object_) || b == a.(deadlineTick := b.deadlineTick)
  }

  /** The place of the first word in which they differ. */
  function CommandHeaderPlace(a: Command, b: Command): (i: nat)
    ensures i < 9
  {
    if a.abiVersion != b.abiVersion then 0
    else if a.sequence != b.sequence then 1
    else if a.epoch != b.epoch then 2
    else if a.session != b.session then 3
    else if a.generation != b.generation then 4
    else if a.opcode != b.opcode then 5
    else if a.flags != b.flags then 6
    else if a.object_ != b.object_ then 7
    else 8
  }

  lemma CommandHeaderApart(a: Command, b: Command)
    requires OneCommandHeaderField(a, b) && a != b
    ensures ApartAt(CommandHeader(a), CommandHeader(b), CommandHeaderPlace(a, b))
  {
    var i := CommandHeaderPlace(a, b);
    assert CommandHeader(b) == CommandHeader(a)[i := CommandHeader(b)[i]];
    UpdateApart(CommandHeader(a), i, CommandHeader(b)[i]);
  }

  /** The two agree in all absorbed fields but at most one. */
  predicate OneReplyHeaderField(a: Reply, b: Reply) {
    || b == a.(abiVersion := b.abiVersion) || b == a.(commandSequence := b.commandSequence)
    || b == a.(snapshotSequence := b.snapshotSequence)
    || b == a.(status := b.status) || b == a.(flags := b.flags)
  }

  /** The place of the first word in which they differ. */
  function ReplyHeaderPlace(a: Reply, b: Reply): (i: nat)
    ensures i < 5
  {
    if a.abiVersion != b.abiVersion then 0
    else if a.commandSequence != b.commandSequence then 1
    else if a.snapshotSequence != b.snapshotSequence then 2
    else if a.status != b.status then 3
    else 4
  }

  lemma ReplyHeaderApart(a: Reply, b: Reply)
    requires OneReplyHeaderField(a, b) && a != b
    ensures ApartAt(ReplyHeader(a), ReplyHeader(b), ReplyHeaderPlace(a, b))
  {
    SignedWordInjective(a.status, b.status);
    var i := ReplyHeaderPlace(a, b);
    assert ReplyHeader(b) == ReplyHeader(a)[i := ReplyHeader(b)[i]];
    UpdateApart(ReplyHeader(a), i, ReplyHeader(b)[i]);
  }

  /** Lists that differ in one place still do with the same words behind. */
  lemma ApartBefore(a: seq<u64>, b: seq<u64>, back: seq<u64>, i: nat)
    requires ApartAt(a, b, i)
    ensures ApartAt(a + back, b + back, i)
  {
    var x, y := a + back, b + back;
    assert x[..i] == a[..i] && y[..i] == b[..i];
    assert x[i + 1..] == a[i + 1..] + back && y[i + 1..] == b[i + 1..] + back;
  }

  /** The two snapshots agree but for one field that the root covers. */
  predicate OneSnapshotField(s: Snapshot, t: Snapshot) {
    || OneSnapshotHeaderField(s, t) || OneSnapshotTailField(s, t)
    || (t == s.(gpu := t.gpu) && OneGpuField(s.gpu, t.gpu))
    || (t == s.(blacklab := t.blacklab) && OneBlackLabField(s.blacklab, t.blacklab))
    || (t == s.(display := t.display) && OneDisplayField(s.display, t.display))
  }

  lemma SnapshotFrontApart(s: Snapshot, t: Snapshot)
    requires OneSnapshotHeaderField(s, t) && s != t
    ensures ApartAt(SnapshotWords(s), SnapshotWords(t), SnapshotHeaderPlace(s, t))
  {
    SnapshotHeaderApart(s, t);
    var i := SnapshotHeaderPlace(s, t);
    var h, u := SnapshotHeader(s), SnapshotHeader(t);
    ApartBefore(h, u, GpuWords(s.gpu), i);
    ApartBefore(h + GpuWords(s.gpu), u + GpuWords(s.gpu), BlackLabWords(s.blacklab), i);
    var x, y := h + GpuWords(s.gpu) + BlackLabWords(s.blacklab), u + GpuWords(s.gpu) + BlackLabWords(s.blacklab);
    ApartBefore(x, y, DisplayWords(s.display), i);
    ApartBefore(x + DisplayWords(s.display), y + DisplayWords(s.display), SnapshotTail(s), i);
  }

  lemma SnapshotBackApart(s: Snapshot, t: Snapshot)
    requires OneSnapshotTailField(s, t) && s != t
    ensures var front := SnapshotHeader(s) + GpuWords(s.gpu) + BlackLabWords(s.blacklab) + DisplayWords(s.display);
            ApartAt(SnapshotWords(s), SnapshotWords(t), |front| + SnapshotTailPlace(s, t))
  {
    var front := SnapshotHeader(s) + GpuWords(s.gpu) + BlackLabWords(s.blacklab) + DisplayWords(s.display);
    SnapshotTailApart(s, t);
    ApartBehind(front, SnapshotTail(s), SnapshotTail(t), SnapshotTailPlace(s, t));
  }

  lemma SnapshotGpuApart(s: Snapshot, t: Snapshot)
    requires t == s.(gpu := t.gpu) && OneGpuField(s.gpu, t.gpu) && s != t
    ensures ApartAt(SnapshotWords(s), SnapshotWords(t), |SnapshotHeader(s)| + GpuPlace(s.gpu, t.gpu))
  {
    GpuApart(s.gpu, t.gpu);
    var h, i := SnapshotHeader(s), |SnapshotHeader(s)| + GpuPlace(s.gpu, t.gpu);
    ApartBehind(h, GpuWords(s.gpu), GpuWords(t.gpu), GpuPlace(s.gpu, t.gpu));
    var x, y := h + GpuWords(s.gpu), h + GpuWords(t.gpu);
    ApartBefore(x, y, BlackLabWords(s.blacklab), i);
    ApartBefore(x + BlackLabWords(s.blacklab), y + BlackLabWords(s.blacklab), DisplayWords(s.display), i);
    ApartBefore(x + BlackLabWords(s.blacklab) + DisplayWords(s.display),
                y + BlackLabWords(s.blacklab) + DisplayWords(s.display), SnapshotTail(s), i);
  }

  lemma SnapshotBlackLabApart(s: Snapshot, t: Snapshot)
    requires t == s.(blacklab := t.blacklab) && OneBlackLabField(s.blacklab, t.blacklab) && s != t
    ensures var front := SnapshotHeader(s) + GpuWords(s.gpu);
            ApartAt(SnapshotWords(s), SnapshotWords(t), |front| + BlackLabPlace(s.blacklab, t.blacklab))
  {
    var front := SnapshotHeader(s) + GpuWords(s.gpu);
    BlackLabApart(s.blacklab, t.blacklab);
    var i := |front| + BlackLabPlace(s.blacklab, t.blacklab);
    ApartBehind(front, BlackLabWords(s.blacklab), BlackLabWords(t.blacklab), BlackLabPlace(s.blacklab, t.blacklab));
    var x, y := front + BlackLabWords(s.blacklab), front + BlackLabWords(t.blacklab);
    ApartBefore(x, y, DisplayWords(s.display), i);
    ApartBefore(x + DisplayWords(s.display), y + DisplayWords(s.display), SnapshotTail(s), i);
  }

  lemma SnapshotDisplayApart(s: Snapshot, t: Snapshot)
    requires t == s.(display := t.display) && OneDisplayField(s.display, t.display) && s != t
    ensures var front := SnapshotHeader(s) + GpuWords(s.gpu) + BlackLabWords(s.blacklab);
            ApartAt(SnapshotWords(s), SnapshotWords(t), |front| + DisplayPlace(s.display, t.display))
  {
    var front := SnapshotHeader(s) + GpuWords(s.gpu) + BlackLabWords(s.blacklab);
    DisplayApart(s.display, t.display);
    var i := |front| + DisplayPlace(s.display, t.display);
    ApartBehind(front, DisplayWords(s.display), DisplayWords(t.display), DisplayPlace(s.display, t.display));
    ApartBefore(front + DisplayWords(s.display), front + DisplayWords(t.display), SnapshotTail(s), i);
  }

  /** A snapshot that verifies does not verify with any one covered field altered, nor with any other root. */
  lemma AlteredSnapshotFails(secret: u64, s: Snapshot, t: Snapshot)
    requires VerifySnapshot(secret, s) && s != t && (OneSnapshotField(s, t) || t == s.(root := t.root))
    ensures !VerifySnapshot(secret, t)
  {
    if t == s.(root := t.root) {
      SnapshotRootIgnoresRoot(secret, s, t.root);
    } else {
      SnapshotRootKept(s, t);
      var i := SnapshotPlace(s, t);
      SnapshotsApart(secret, s, t, i);
    }
  }

  lemma SnapshotRootKept(s: Snapshot, t: Snapshot)
    requires OneSnapshotField(s, t)
    ensures s.root == t.root
  {
  }

  lemma SnapshotSectionPlace(s: Snapshot, t: Snapshot) returns (i: nat)
    requires s != t
    requires || (t == s.(gpu := t.gpu) && OneGpuField(s.gpu, t.gpu))
             || (t == s.(blacklab := t.blacklab) && OneBlackLabField(s.blacklab, t.blacklab))
             || (t == s.(display := t.display) && OneDisplayField(s.display, t.display))
    ensures ApartAt(SnapshotWords(s), SnapshotWords(t), i)
  {
    if t == s.(gpu := t.gpu) {
      SnapshotGpuApart(s, t);
      i := |SnapshotHeader(s)| + GpuPlace(s.gpu, t.gpu);
    } else if t == s.(blacklab := t.blacklab) {
      SnapshotBlackLabApart(s, t);
      i := |SnapshotHeader(s) + GpuWords(s.gpu)| + BlackLabPlace(s.blacklab, t.blacklab);
    } else {
      SnapshotDisplayApart(s, t);
      i := |SnapshotHeader(s) + GpuWords(s.gpu) + BlackLabWords(s.blacklab)| + DisplayPlace(s.display, t.display);
    }
  }

  lemma SnapshotPlace(s: Snapshot, t: Snapshot) returns (i: nat)
    requires OneSnapshotField(s, t) && s != t
    ensures ApartAt(SnapshotWords(s), SnapshotWords(t), i)
  {
    if OneSnapshotHeaderField(s, t) {
      SnapshotFrontApart(s, t);
      i := SnapshotHeaderPlace(s, t);
    } else if OneSnapshotTailField(s, t) {
      var front := SnapshotHeader(s) + GpuWords(s.gpu) + BlackLabWords(s.blacklab) + DisplayWords(s.display);
      SnapshotBackApart(s, t);
      i := |front| + SnapshotTailPlace(s, t);
    } else {
      i := SnapshotSectionPlace(s, t);
    }
  }

  /** The two lists agree but for place `k`. */
  predicate OneEntry<T(==)>(a: seq<T>, b: seq<T>, k: nat) {
    k < |a| == |b| && b == a[k := b[k]] && a[k] != b[k]
  }

  /** The two commands agree but for one covered field, one argument or one payload byte. */
  predicate OneCommandField(c: Command, d: Command, k: nat) {
    || OneCommandHeaderField(c, d) || d == c.(payloadLength := d.payloadLength)
    || (d == c.(arguments := d.arguments) && OneEntry(c.arguments, d.arguments, k))
    || (d == c.(payload := d.payload) && OneEntry(c.payload, d.payload, k))
  }

  lemma CommandFrontApart(c: Command, d: Command)
    requires CommandShape(c) && CommandShape(d) && OneCommandHeaderField(c, d) && c != d
    ensures ApartAt(CommandWords(c), CommandWords(d), CommandHeaderPlace(c, d))
  {
    CommandHeaderApart(c, d);
    var h, u, i := CommandHeader(c), CommandHeader(d), CommandHeaderPlace(c, d);
    ApartBefore(h, u, c.arguments, i);
    ApartBefore(h + c.arguments, u + c.arguments, [c.payloadLength], i);
    ApartBefore(h + c.arguments + [c.payloadLength], u + c.arguments + [c.payloadLength], ChunkWords(c.payload), i);
  }

  lemma CommandArgumentApart(c: Command, d: Command, k: nat)
    requires CommandShape(c) && CommandShape(d)
    requires d == c.(arguments := d.arguments) && OneEntry(c.arguments, d.arguments, k)
    ensures ApartAt(CommandWords(c), CommandWords(d), |CommandHeader(c)| + k)
  {
    var h, i := CommandHeader(c), |CommandHeader(c)| + k;
    UpdateApart(c.arguments, k, d.arguments[k]);
    ApartBehind(h, c.arguments, d.arguments, k);
    ApartBefore(h + c.arguments, h + d.arguments, [c.payloadLength], i);
    ApartBefore(h + c.arguments + [c.payloadLength], h + d.arguments + [c.payloadLength], ChunkWords(c.payload), i);
  }

  lemma CommandLengthApart(c: Command, d: Command)
    requires CommandShape(c) && CommandShape(d) && d == c.(payloadLength := d.payloadLength) && c != d
    ensures ApartAt(CommandWords(c), CommandWords(d), |CommandHeader(c) + c.arguments|)
  {
    var front := CommandHeader(c) + c.arguments;
    UpdateApart([c.payloadLength], 0, d.payloadLength);
    ApartBehind(front, [c.payloadLength], [d.payloadLength], 0);
    ApartBefore(front + [c.payloadLength], front + [d.payloadLength], ChunkWords(c.payload), |front|);
  }

  lemma CommandPayloadApart(c: Command, d: Command, k: nat)
    requires CommandShape(c) && CommandShape(d)
    requires d == c.(payload := d.payload) && OneEntry(c.payload, d.payload, k)
    ensures ApartAt(CommandWords(c), CommandWords(d), |CommandHeader(c) + c.arguments + [c.payloadLength]| + k / 8)
  {
    OneByteOneWord(c.payload, k, d.payload[k]);
    ApartBehind(CommandHeader(c) + c.arguments + [c.payloadLength], ChunkWords(c.payload), ChunkWords(d.payload), k / 8);
  }

  lemma CommandPlace(c: Command, d: Command, k: nat) returns (i: nat)
    requires CommandShape(c) && CommandShape(d) && OneCommandField(c, d, k) && c != d
    ensures ApartAt(CommandWords(c), CommandWords(d), i) && c.root == d.root
  {
    if OneCommandHeaderField(c, d) {
      CommandFrontApart(c, d);
      i := CommandHeaderPlace(c, d);
    } else if d == c.(payloadLength := d.payloadLength) {
      CommandLengthApart(c, d);
      i := |CommandHeader(c) + c.arguments|;
    } else if c.arguments != d.arguments {
      CommandArgumentApart(c, d, k);
      i := |CommandHeader(c)| + k;
    } else {
      CommandPayloadApart(c, d, k);
      i := |CommandHeader(c) + c.arguments + [c.payloadLength]| + k / 8;
    }
  }

  /** A command that verifies does not verify with any one covered field, argument or payload byte altered. */
  lemma AlteredCommandFails(secret: u64, c: Command, d: Command, k: nat)
    requires CommandShape(c) && CommandShape(d)
    requires VerifyCommand(secret, c) && c != d && (OneCommandField(c, d, k) || d == c.(root := d.root))
    ensures !VerifyCommand(secret, d)
  {
    if d == c.(root := d.root) {
      assert CommandWords(c) == CommandWords(d);
    } else {
      var i := CommandPlace(c, d, k);
      CommandsApart(secret, c, d, i);
    }
  }

  /** The two replies agree but for one covered field, one output or one covered field of the frame. */
  predicate OneReplyField(r: Reply, q: Reply, k: nat) {
    || OneReplyHeaderField(r, q)
    || (q == r.(outputs := q.outputs) && OneEntry(r.outputs, q.outputs, k))
    || (q == r.(frame := q.frame) && OneFrameField(r.frame, q.frame))
  }

  lemma ReplyFrontApart(r: Reply, q: Reply)
    requires OneReplyHeaderField(r, q) && r != q
    ensures ApartAt(ReplyWords(r), ReplyWords(q), ReplyHeaderPlace(r, q))
  {
    ReplyHeaderApart(r, q);
    var h, u, i := ReplyHeader(r), ReplyHeader(q), ReplyHeaderPlace(r, q);
    ApartBefore(h, u, r.outputs, i);
    ApartBefore(h + r.outputs, u + r.outputs, FrameWords(r.frame), i);
  }

  lemma ReplyOutputApart(r: Reply, q: Reply, k: nat)
    requires q == r.(outputs := q.outputs) && OneEntry(r.outputs, q.outputs, k)
    ensures ApartAt(ReplyWords(r), ReplyWords(q), |ReplyHeader(r)| + k)
  {
    var h := ReplyHeader(r);
    UpdateApart(r.outputs, k, q.outputs[k]);
    ApartBehind(h, r.outputs, q.outputs, k);
    ApartBefore(h + r.outputs, h + q.outputs, FrameWords(r.frame), |h| + k);
  }

  lemma ReplyPlace(r: Reply, q: Reply, k: nat) returns (i: nat)
    requires OneReplyField(r, q, k) && r != q
    ensures ApartAt(ReplyWords(r), ReplyWords(q), i) && r.root == q.root
  {
    if OneReplyHeaderField(r, q) {
      ReplyFrontApart(r, q);
      i := ReplyHeaderPlace(r, q);
    } else if r.outputs != q.outputs {
      ReplyOutputApart(r, q, k);
      i := |ReplyHeader(r)| + k;
    } else {
      FrameApart(r.frame, q.frame);
      i := |ReplyHeader(r) + r.outputs| + FramePlace(r.frame, q.frame);
      ApartBehind(ReplyHeader(r) + r.outputs, FrameWords(r.frame), FrameWords(q.frame), FramePlace(r.frame, q.frame));
    }
  }

  /** A reply that verifies does not verify with any one covered field, output or frame field altered. */
  lemma AlteredReplyFails(secret: u64, r: Reply, q: Reply, k: nat)
    requires VerifyReply(secret, r) && r != q && (OneReplyField(r, q, k) || q == r.(root := q.root))
    ensures !VerifyReply(secret, q)
  {
    if q == r.(root := q.root) {
      assert ReplyWords(r) == ReplyWords(q);
    } else {
      var i := ReplyPlace(r, q, k);
      RepliesApart(secret, r, q, i);
    }
  }

  /** A frame certificate with any one covered field altered has another root. */
  lemma AlteredFrameDiffers(secret: u64, f: FrameCertificate, g: FrameCertificate)
    requires OneFrameField(f, g) && f != g
    ensures FrameRoot(secret, f) != FrameRoot(secret, g)
  {
    FrameApart(f, g);
    FramesApart(secret, f, g, FramePlace(f, g));
  }

  // ----- when a sealed record verifies -----

  /** Sealing makes a snapshot verify exactly when these fields are in range, whatever the secret. */
  lemma SealedSnapshotVerifies(secret: u64, s: Snapshot)
    ensures VerifySnapshot(secret, SealSnapshot(secret, s)) <==>
              && 0x1_0000 <= s.abiVersion < 0x2_0000 && s.structSize >= 256
              && 0 !in {s.sequence, s.epoch, s.desktopSession} && s.desktopGeneration != 0
  {
    SealedSnapshot(secret, s, s, 0);
  }

  /** The same for a command. */
  lemma SealedCommandVerifies(secret: u64, c: Command)
    requires CommandShape(c)
    ensures VerifyCommand(secret, SealCommand(secret, c)) <==>
              && 0x1_0000 <= c.abiVersion < 0x2_0000 && c.structSize >= 272
              && 0 !in {c.sequence, c.epoch, c.session} && 0 !in {c.generation, c.opcode}
              && c.payloadLength <= 128
  {
    SealedCommand(secret, c, c, 0);
  }

  /** The same for a reply. */
  lemma SealedReplyVerifies(secret: u64, r: Reply)
    ensures VerifyReply(secret, SealReply(secret, r)) <==>
              0x1_0000 <= r.abiVersion < 0x2_0000 && r.structSize >= 176 && r.commandSequence != 0
  {
    SealedReply(secret, r, r, 0);
  }

  /** Sealing changes nothing but the root. */
  lemma SealKeeps(secret: u64, s: Snapshot, c: Command, r: Reply)
    requires CommandShape(c)
    ensures SealSnapshot(secret, s) == s.(root := SealSnapshot(secret, s).root)
    ensures SealCommand(secret, c) == c.(root := SealCommand(secret, c).root)
    ensures SealReply(secret, r) == r.(root := SealReply(secret, r).root)
  {
  }

  lemma {:induction false} ChunkCount(payload: seq<u8>)
    ensures |ChunkWords(payload)| == (|payload| + 7) / 8
    decreases |payload|
  {
    if payload != [] {
      var k := Min(8, |payload|);
      ChunkCount(payload[k..]);
    }
  }

  /** A snapshot absorbs 46 words, a command 34: nine fields, eight arguments, the length and 16 chunks of its 128 bytes. */
  lemma WordCounts(s: Snapshot, c: Command)
    requires CommandShape(c)
    ensures |SnapshotWords(s)| == 46
    ensures |c.arguments| == 8 && |c.payload| == 128 && |CommandWords(c)| == 34
  {
    ChunkCount(c.payload);
  }
}
