/** The sealed records exchanged through the Quantum Crest page, and the roots that seal them. */
module QuantumCrest {
  import opened Machine
  import opened Bits
  import opened Mixing

  type i32 = x: int | -0x8000_0000 <= x < 0x8000_0000

  const ABI_MAJOR: int := 1
  const SNAPSHOT_BYTES: u32 := 256
  const COMMAND_BYTES: u32 := 272
  const REPLY_BYTES: u32 := 176
  const PAYLOAD_BYTES: nat := 128
  const ARGUMENTS: nat := 8

  const SNAPSHOT_TAG: u64 := 0x534e_4150_5348_4f54
  const COMMAND_TAG: u64 := 0x434f_4d4d_414e_4421
  const REPLY_TAG: u64 := 0x5245_504c_5921_2121
  const FRAME_TAG: u64 := 0x4652_414d_4521_2121

  datatype GpuState = GpuState(
    vendorId: u16, deviceId: u16, revision: u8, gspWireMajor: u8, gspWireMinor: u16, gspEpoch: u32,
    negotiatedFeatures: u64, firmwareVersion: u64, temperatureQ16: i32, pressureQ16: i32,
    correctedFaults: u32, fatalFaults: u32)

  datatype BlackLabState = BlackLabState(
    policyEpoch: u64, risk: u16, severity: u8, action: u8, temporalViolations: u16, evidenceVotes: u16,
    planSteps: u16, requiredQuorum: u8, reserved: u8, ledgerEpoch: u64, ledgerRoot: u64, evidenceRoot: u64,
    planRoot: u64, forecastTick: u64)

  datatype DisplayState = DisplayState(
    width: u32, height: u32, pitch: u32, format: u32, refreshMillihertz: u32, beamPosition: u32,
    presentSequence: u64, frameBudgetTicks: u64, predictedRenderTicks: u64, damageTiles: u32, totalTiles: u32)

  datatype Snapshot = Snapshot(
    abiVersion: u32, structSize: u32, sequence: u64, epoch: u64, logicalTick: u64, topologyEpoch: u64,
    capabilityEpoch: u64, flags: u64, gpu: GpuState, blacklab: BlackLabState, display: DisplayState,
    desktopRights: u64, desktopSession: u64, desktopGeneration: u32, reserved: u32, root: u64)

  datatype Command = Command(
    abiVersion: u32, structSize: u32, sequence: u64, epoch: u64, session: u64, generation: u32, opcode: u32,
    flags: u64, object_: u64, deadlineTick: u64, arguments: seq<u64>, payloadLength: u16, reserved: seq<u8>,
    payload: seq<u8>, root: u64)

  datatype FrameCertificate = FrameCertificate(
    frameSequence: u64, snapshotSequence: u64, sceneEpoch: u64, damageRoot: u64, sceneRoot: u64,
    presentTick: u64, renderedTiles: u32, skippedTiles: u32, laneVotes: u8, reserved: seq<u8>, root: u64)

  datatype Reply = Reply(
    abiVersion: u32, structSize: u32, commandSequence: u64, snapshotSequence: u64, status: i32, flags: u32,
    outputs: seq<u64>, frame: FrameCertificate, root: u64)

  predicate CommandShape(c: Command) {
    |c.arguments| == ARGUMENTS && |c.payload| == PAYLOAD_BYTES
  }

  // ----- words -----

  function RotateLeft(x: u64, k: nat): u64
    requires 0 < k < 64
  {
    Or64(WrappingMul(x, Unit(k)), Shr(x, 64 - k))
  }

  function RotateRight(x: u64, k: nat): u64
    requires 0 < k < 64
  {
    RotateLeft(x, 64 - k)
  }

  function Domain(secret: u64, tag: u64): u64 {
    Avalanche(Xor64(secret, RotateLeft(tag, 23)))
  }

  /** A signed word as `value as u32 as u64`. */
  function SignedWord(x: i32): u64 {
    x % U32_LIMIT
  }

  /** Up to eight bytes, little-endian and zero-padded. */
  function BytesWord(bytes: seq<u8>): (w: u64)
    requires |bytes| <= 8
  {
    BytesValueBound(bytes);
    Pow2At64();
    Pow2Monotone(8 * |bytes|, 64);
    BytesValue(bytes)
  }

  function BytesValue(bytes: seq<u8>): nat {
    if bytes == [] then 0 else bytes[0] + 0x100 * BytesValue(bytes[1..])
  }

  lemma {:induction false} BytesValueBound(bytes: seq<u8>)
    ensures BytesValue(bytes) < Pow2(8 * |bytes|)
  {
    if bytes != [] {
      BytesValueBound(bytes[1..]);
      Pow2At64();
      Pow2Sum(8, 8 * |bytes| - 8);
    }
  }

  /** Equally long byte strings with the same word are the same. */
  lemma {:induction false} BytesValueInjective(a: seq<u8>, b: seq<u8>)
    requires |a| == |b| && BytesValue(a) == BytesValue(b)
    ensures a == b
  {
    if a != [] {
      assert BytesValue(a) % 0x100 == a[0] && BytesValue(b) % 0x100 == b[0];
      BytesValueInjective(a[1..], b[1..]);
      assert a == [a[0]] + a[1..] && b == [b[0]] + b[1..];
    }
  }

  /** The words of `payload.chunks(8)`. */
  function ChunkWords(payload: seq<u8>): seq<u64> {
    if payload == [] then []
    else
      var k := Min(8, |payload|);
      [BytesWord(payload[..k])] + ChunkWords(payload[k..])
  }

  function GpuWords(g: GpuState): seq<u64> {
    [g.vendorId, g.deviceId, g.revision, g.gspWireMajor, g.gspWireMinor, g.gspEpoch, g.negotiatedFeatures,
     g.firmwareVersion, SignedWord(g.temperatureQ16), SignedWord(g.pressureQ16), g.correctedFaults, g.fatalFaults]
  }

  function BlackLabWords(b: BlackLabState): seq<u64> {
    [b.policyEpoch, b.risk, b.severity, b.action, b.temporalViolations, b.evidenceVotes, b.planSteps,
     b.requiredQuorum, b.ledgerEpoch, b.ledgerRoot, b.evidenceRoot, b.planRoot, b.forecastTick]
  }

  function DisplayWords(d: DisplayState): seq<u64> {
    [d.width, d.height, d.pitch, d.format, d.refreshMillihertz, d.beamPosition, d.presentSequence,
     d.frameBudgetTicks, d.predictedRenderTicks, d.damageTiles, d.totalTiles]
  }

  function FrameWords(f: FrameCertificate): seq<u64> {
    [f.frameSequence, f.snapshotSequence, f.sceneEpoch, f.damageRoot, f.sceneRoot, f.presentTick,
     f.renderedTiles, f.skippedTiles, f.laneVotes]
  }

  function SnapshotHeader(s: Snapshot): seq<u64> {
    [s.abiVersion, s.sequence, s.epoch, s.logicalTick, s.topologyEpoch, s.capabilityEpoch, s.flags]
  }

  function SnapshotTail(s: Snapshot): seq<u64> {
    [s.desktopRights, s.desktopSession, s.desktopGeneration]
  }

  function CommandHeader(c: Command): seq<u64> {
    [c.abiVersion, c.sequence, c.epoch, c.session, c.generation, c.opcode, c.flags, c.object_, c.deadlineTick]
  }

  function ReplyHeader(r: Reply): seq<u64> {
    [r.abiVersion, r.commandSequence, r.snapshotSequence, SignedWord(r.status), r.flags]
  }

  /** Every word a snapshot's root absorbs, in order. */
  function SnapshotWords(s: Snapshot): seq<u64> {
    SnapshotHeader(s) + GpuWords(s.gpu) + BlackLabWords(s.blacklab) + DisplayWords(s.display) + SnapshotTail(s)
  }

  /** Every word a command's root absorbs, in order. */
  function CommandWords(c: Command): seq<u64>
    requires CommandShape(c)
  {
    CommandHeader(c) + c.arguments + [c.payloadLength] + ChunkWords(c.payload)
  }

  /** Every word a reply's root absorbs, in order. */
  function ReplyWords(r: Reply): seq<u64> {
    ReplyHeader(r) + r.outputs + FrameWords(r.frame)
  }

  // ----- roots -----

  /** The root of a record: its words folded from the record's own domain, with the spun secret stirred in. */
  function RootOf(secret: u64, tag: u64, spin: u64, words: seq<u64>): u64 {
    Avalanche(Xor64(Fold(Domain(secret, tag), words), spin))
  }

  function SnapshotRoot(secret: u64, s: Snapshot): u64 {
    var state := Fold(Domain(secret, SNAPSHOT_TAG), SnapshotHeader(s));
    var afterGpu := Fold(state, GpuWords(s.gpu));
    var afterBlackLab := Fold(afterGpu, BlackLabWords(s.blacklab));
    var afterDisplay := Fold(afterBlackLab, DisplayWords(s.display));
    Avalanche(Xor64(Fold(afterDisplay, SnapshotTail(s)), RotateLeft(secret, 17)))
  }

  function CommandRoot(secret: u64, c: Command): u64
    requires CommandShape(c)
  {
    RootOf(secret, COMMAND_TAG, RotateRight(secret, 9), CommandWords(c))
  }

  function ReplyRoot(secret: u64, r: Reply): u64 {
    RootOf(secret, REPLY_TAG, RotateLeft(secret, 31), ReplyWords(r))
  }

  function FrameRoot(secret: u64, f: FrameCertificate): u64 {
    Avalanche(Fold(Domain(secret, FRAME_TAG), FrameWords(f)))
  }

  /** The four sections of a snapshot fold as one sequence of words. */
  lemma SnapshotRootFoldsItsWords(secret: u64, s: Snapshot)
    ensures SnapshotRoot(secret, s) == RootOf(secret, SNAPSHOT_TAG, RotateLeft(secret, 17), SnapshotWords(s))
  {
    var start := Domain(secret, SNAPSHOT_TAG);
    var a := SnapshotHeader(s);
    var b := a + GpuWords(s.gpu);
    var c := b + BlackLabWords(s.blacklab);
    var d := c + DisplayWords(s.display);
    FoldConcat(Absorb, start, a, GpuWords(s.gpu));
    FoldConcat(Absorb, start, b, BlackLabWords(s.blacklab));
    FoldConcat(Absorb, start, c, DisplayWords(s.display));
    FoldConcat(Absorb, start, d, SnapshotTail(s));
  }

  lemma ChunkStep(state: u64, rest: seq<u8>)
    requires rest != []
    ensures var k := Min(8, |rest|);
            Fold(state, ChunkWords(rest)) == Fold(Absorb(state, BytesWord(rest[..k])), ChunkWords(rest[k..]))
  {
    var k := Min(8, |rest|);
    FoldConcat(Absorb, state, [BytesWord(rest[..k])], ChunkWords(rest[k..]));
    FoldOne(Absorb, state, [], BytesWord(rest[..k]));
    assert [] + [BytesWord(rest[..k])] == [BytesWord(rest[..k])];
  }

  method AbsorbChunks(state: u64, payload: seq<u8>) returns (r: u64)
    ensures r == Fold(state, ChunkWords(payload))
  {
    r := state;
    var i := 0;
    while i < |payload|
      invariant 0 <= i <= |payload|
      invariant Fold(r, ChunkWords(payload[i..])) == Fold(state, ChunkWords(payload))
    {
      var k := Min(8, |payload| - i);
      ChunkStep(r, payload[i..]);
      assert payload[i..][..k] == payload[i..i + k] && payload[i..][k..] == payload[i + k..];
      r := Absorb(r, BytesWord(payload[i..i + k]));
      i := i + k;
    }
  }

  method ComputeCommandRoot(secret: u64, c: Command) returns (root: u64)
    requires CommandShape(c)
    ensures root == CommandRoot(secret, c)
  {
    var start := Domain(secret, COMMAND_TAG);
    var state := AbsorbAll(start, CommandHeader(c));
    state := AbsorbAll(state, c.arguments);
    state := Absorb(state, c.payloadLength);
    state := AbsorbChunks(state, c.payload);
    FoldConcat(Absorb, start, CommandHeader(c), c.arguments);
    FoldOne(Absorb, start, CommandHeader(c) + c.arguments, c.payloadLength);
    FoldConcat(Absorb, start, CommandHeader(c) + c.arguments + [c.payloadLength], ChunkWords(c.payload));
    root := Avalanche(Xor64(state, RotateRight(secret, 9)));
  }

  method ComputeReplyRoot(secret: u64, r: Reply) returns (root: u64)
    ensures root == ReplyRoot(secret, r)
  {
    var start := Domain(secret, REPLY_TAG);
    var state := AbsorbAll(start, ReplyHeader(r));
    state := AbsorbAll(state, r.outputs);
    state := AbsorbAll(state, FrameWords(r.frame));
    FoldConcat(Absorb, start, ReplyHeader(r), r.outputs);
    FoldConcat(Absorb, start, ReplyHeader(r) + r.outputs, FrameWords(r.frame));
    root := Avalanche(Xor64(state, RotateLeft(secret, 31)));
  }

  // ----- one altered word always changes the root -----

  /** The state that the final stirring turns into `root`. */
  function Unstirred(spin: u64, root: u64): u64 {
    Xor64(Settle(root), spin)
  }

  lemma StirringIsReversible(state: u64, spin: u64, root: u64)
    ensures Avalanche(Xor64(state, spin)) == root <==> state == Unstirred(spin, root)
  {
    AvalancheBijective(Xor64(state, spin));
    AvalancheBijective(root);
    XorCancels(state, spin);
    XorCancels(Settle(root), spin);
  }

  /** Word sequences that differ in exactly one position have different roots. */
  lemma RootSensitive(secret: u64, tag: u64, spin: u64, a: seq<u64>, b: seq<u64>, i: nat)
    requires ApartAt(a, b, i)
    ensures RootOf(secret, tag, spin, a) != RootOf(secret, tag, spin, b)
  {
    var start := Domain(secret, tag);
    FoldSensitive(start, a, b, i);
    StirringIsReversible(Fold(start, a), spin, RootOf(secret, tag, spin, a));
    StirringIsReversible(Fold(start, b), spin, RootOf(secret, tag, spin, a));
  }

  /** With every other word fixed, a root is the root of exactly one value of word `i`. */
  lemma RootFixesEachWord(secret: u64, tag: u64, spin: u64, words: seq<u64>, i: nat, root: u64) returns (w: u64)
    requires i < |words|
    ensures RootOf(secret, tag, spin, words) == root <==> words[i] == w
    ensures forall v: u64 {:trigger words[i := v]} :: RootOf(secret, tag, spin, words[i := v]) == root <==> v == w
  {
    var start := Domain(secret, tag);
    w := ExactlyOneWord(start, words, i, Unstirred(spin, root));
    StirringIsReversible(Fold(start, words), spin, root);
    forall v: u64 {:trigger words[i := v]}
      ensures RootOf(secret, tag, spin, words[i := v]) == root <==> v == w
    {
      var changed := words[i := v];
      assert changed[..i] == words[..i] && changed[i + 1..] == words[i + 1..];
      var x := ExactlyOneWord(start, changed, i, Unstirred(spin, root));
      StirringIsReversible(Fold(start, changed), spin, root);
    }
  }

  lemma SnapshotsApart(secret: u64, s: Snapshot, t: Snapshot, i: nat)
    requires ApartAt(SnapshotWords(s), SnapshotWords(t), i)
    ensures SnapshotRoot(secret, s) != SnapshotRoot(secret, t)
  {
    SnapshotRootFoldsItsWords(secret, s);
    SnapshotRootFoldsItsWords(secret, t);
    RootSensitive(secret, SNAPSHOT_TAG, RotateLeft(secret, 17), SnapshotWords(s), SnapshotWords(t), i);
  }

  lemma CommandsApart(secret: u64, c: Command, d: Command, i: nat)
    requires CommandShape(c) && CommandShape(d)
    requires ApartAt(CommandWords(c), CommandWords(d), i)
    ensures CommandRoot(secret, c) != CommandRoot(secret, d)
  {
    RootSensitive(secret, COMMAND_TAG, RotateRight(secret, 9), CommandWords(c), CommandWords(d), i);
  }

  lemma RepliesApart(secret: u64, r: Reply, q: Reply, i: nat)
    requires ApartAt(ReplyWords(r), ReplyWords(q), i)
    ensures ReplyRoot(secret, r) != ReplyRoot(secret, q)
  {
    RootSensitive(secret, REPLY_TAG, RotateLeft(secret, 31), ReplyWords(r), ReplyWords(q), i);
  }

  lemma FramesApart(secret: u64, f: FrameCertificate, g: FrameCertificate, i: nat)
    requires ApartAt(FrameWords(f), FrameWords(g), i)
    ensures FrameRoot(secret, f) != FrameRoot(secret, g)
  {
    var start := Domain(secret, FRAME_TAG);
    FoldSensitive(start, FrameWords(f), FrameWords(g), i);
    AvalancheBijective(Fold(start, FrameWords(f)));
    AvalancheBijective(Fold(start, FrameWords(g)));
  }

  // ----- payload bytes -----

  /** Changing one payload byte changes the word of its chunk and no other. */
  lemma {:induction false} OneByteOneWord(p: seq<u8>, k: nat, b: u8)
    requires k < |p| && p[k] != b
    ensures ApartAt(ChunkWords(p), ChunkWords(p[k := b]), k / 8)
    decreases |p|
  {
    var q, n := p[k := b], Min(8, |p|);
    if k < n {
      assert q[n..] == p[n..];
      assert p[..n][k] != q[..n][k];
      if BytesValue(p[..n]) == BytesValue(q[..n]) {
        BytesValueInjective(p[..n], q[..n]);
      }
    } else {
      assert q[..n] == p[..n] && q[n..] == p[n..][k - n := b];
      OneByteOneWord(p[n..], k - n, b);
      ApartBehind([BytesWord(p[..n])], ChunkWords(p[n..]), ChunkWords(q[n..]), (k - n) / 8);
      assert n == 8 && (k - n) / 8 + 1 == k / 8;
    }
  }

  lemma ApartBehind(front: seq<u64>, a: seq<u64>, b: seq<u64>, i: nat)
    requires ApartAt(a, b, i)
    ensures ApartAt(front + a, front + b, |front| + i)
  {
    var x, y, n := front + a, front + b, |front| + i;
    assert x[..n] == front + a[..i] && y[..n] == front + b[..i];
    assert x[n + 1..] == a[i + 1..] && y[n + 1..] == b[i + 1..];
  }

  /** A command with any one payload byte altered has a different root, also past `payloadLength`. */
  lemma PayloadByteIsSealed(secret: u64, c: Command, k: nat, b: u8)
    requires CommandShape(c) && k < PAYLOAD_BYTES && c.payload[k] != b
    ensures CommandRoot(secret, c.(payload := c.payload[k := b])) != CommandRoot(secret, c)
  {
    var d := c.(payload := c.payload[k := b]);
    OneByteOneWord(c.payload, k, b);
    var front := CommandHeader(c) + c.arguments + [c.payloadLength];
    ApartBehind(front, ChunkWords(c.payload), ChunkWords(d.payload), k / 8);
    CommandsApart(secret, c, d, |front| + k / 8);
  }

  // ----- sealing and verifying -----

  predicate SnapshotWellFormed(s: Snapshot) {
    && s.abiVersion / 0x1_0000 == ABI_MAJOR && SNAPSHOT_BYTES <= s.structSize
    && s.sequence != 0 && s.epoch != 0 && s.desktopSession != 0 && s.desktopGeneration != 0
  }

  predicate CommandWellFormed(c: Command) {
    && c.abiVersion / 0x1_0000 == ABI_MAJOR && COMMAND_BYTES <= c.structSize
    && c.sequence != 0 && c.epoch != 0 && c.session != 0 && c.generation != 0 && c.opcode != 0
    && c.payloadLength <= PAYLOAD_BYTES
  }

  predicate ReplyWellFormed(r: Reply) {
    r.abiVersion / 0x1_0000 == ABI_MAJOR && REPLY_BYTES <= r.structSize && r.commandSequence != 0
  }

  predicate VerifySnapshot(secret: u64, s: Snapshot) {
    SnapshotWellFormed(s) && s.root == SnapshotRoot(secret, s)
  }

  predicate VerifyCommand(secret: u64, c: Command)
    requires CommandShape(c)
  {
    CommandWellFormed(c) && c.root == CommandRoot(secret, c)
  }

  predicate VerifyReply(secret: u64, r: Reply) {
    ReplyWellFormed(r) && r.root == ReplyRoot(secret, r)
  }

  function SealSnapshot(secret: u64, s: Snapshot): Snapshot {
    var cleared := s.(root := 0);
    cleared.(root := SnapshotRoot(secret, cleared))
  }

  function SealCommand(secret: u64, c: Command): Command
    requires CommandShape(c)
  {
    var cleared := c.(root := 0);
    cleared.(root := CommandRoot(secret, cleared))
  }

  function SealReply(secret: u64, r: Reply): Reply {
    var cleared := r.(root := 0);
    cleared.(root := ReplyRoot(secret, cleared))
  }

  /** A sealed snapshot verifies exactly when its fields are well formed; with one absorbed word altered it never does. */
  lemma SealedSnapshot(secret: u64, s: Snapshot, t: Snapshot, i: nat)
    ensures VerifySnapshot(secret, SealSnapshot(secret, s)) <==> SnapshotWellFormed(s)
    ensures ApartAt(SnapshotWords(s), SnapshotWords(t), i) && t.root == SealSnapshot(secret, s).root
      ==> !VerifySnapshot(secret, t)
  {
    var sealed := SealSnapshot(secret, s);
    SnapshotRootIgnoresRoot(secret, s, 0);
    SnapshotRootIgnoresRoot(secret, s, sealed.root);
    if ApartAt(SnapshotWords(s), SnapshotWords(t), i) {
      SnapshotsApart(secret, s, t, i);
    }
  }

  lemma SnapshotRootIgnoresRoot(secret: u64, s: Snapshot, root: u64)
    ensures SnapshotRoot(secret, s.(root := root)) == SnapshotRoot(secret, s)
  {
    var t := s.(root := root);
    assert SnapshotWords(t) == SnapshotWords(s);
    SnapshotRootFoldsItsWords(secret, s);
    SnapshotRootFoldsItsWords(secret, t);
  }

  lemma SealedCommand(secret: u64, c: Command, d: Command, i: nat)
    requires CommandShape(c) && CommandShape(d)
    ensures VerifyCommand(secret, SealCommand(secret, c)) <==> CommandWellFormed(c)
    ensures ApartAt(CommandWords(c), CommandWords(d), i) && d.root == SealCommand(secret, c).root
      ==> !VerifyCommand(secret, d)
  {
    assert forall root: u64 {:trigger c.(root := root)} :: CommandWords(c.(root := root)) == CommandWords(c);
    if ApartAt(CommandWords(c), CommandWords(d), i) {
      CommandsApart(secret, c, d, i);
    }
  }

  lemma SealedReply(secret: u64, r: Reply, q: Reply, i: nat)
    ensures VerifyReply(secret, SealReply(secret, r)) <==> ReplyWellFormed(r)
    ensures ApartAt(ReplyWords(r), ReplyWords(q), i) && q.root == SealReply(secret, r).root
      ==> !VerifyReply(secret, q)
  {
    assert forall root: u64 {:trigger r.(root := root)} :: ReplyWords(r.(root := root)) == ReplyWords(r);
    if ApartAt(ReplyWords(r), ReplyWords(q), i) {
      RepliesApart(secret, r, q, i);
    }
  }

  /** A sealed command with one payload byte altered never verifies. */
  lemma AlteredPayloadFails(secret: u64, c: Command, k: nat, b: u8)
    requires CommandShape(c) && k < PAYLOAD_BYTES && c.payload[k] != b
    ensures !VerifyCommand(secret, SealCommand(secret, c).(payload := c.payload[k := b]))
  {
    var sealed := SealCommand(secret, c);
    PayloadByteIsSealed(secret, sealed, k, b);
    assert CommandWords(sealed) == CommandWords(c) == CommandWords(c.(root := 0));
    var altered := sealed.(payload := c.payload[k := b]);
    assert altered.root == CommandRoot(secret, sealed);
  }

  // ----- exactly what a root covers -----

  lemma SignedWordInjective(x: i32, y: i32)
    ensures SignedWord(x) == SignedWord(y) <==> x == y
  {
    assert SignedWord(x) == if x < 0 then x + U32_LIMIT else x;
    assert SignedWord(y) == if y < 0 then y + U32_LIMIT else y;
  }

  lemma GpuCovered(g: GpuState, h: GpuState)
    ensures GpuWords(g) == GpuWords(h) <==> g == h
  {
    SignedWordInjective(g.temperatureQ16, h.temperatureQ16);
    SignedWordInjective(g.pressureQ16, h.pressureQ16);
    if GpuWords(g) == GpuWords(h) {
      var v, w := GpuWords(g), GpuWords(h);
      assert v[0] == w[0] && v[1] == w[1] && v[2] == w[2] && v[3] == w[3] && v[4] == w[4] && v[5] == w[5];
      assert v[6] == w[6] && v[7] == w[7] && v[8] == w[8] && v[9] == w[9] && v[10] == w[10] && v[11] == w[11];
    }
  }

  lemma BlackLabCovered(b: BlackLabState, d: BlackLabState)
    ensures BlackLabWords(b) == BlackLabWords(d) <==> b.(reserved := 0) == d.(reserved := 0)
  {
    if BlackLabWords(b) == BlackLabWords(d) {
      var v, w := BlackLabWords(b), BlackLabWords(d);
      assert v[0] == w[0] && v[1] == w[1] && v[2] == w[2] && v[3] == w[3] && v[4] == w[4] && v[5] == w[5] && v[6] == w[6];
      assert v[7] == w[7] && v[8] == w[8] && v[9] == w[9] && v[10] == w[10] && v[11] == w[11] && v[12] == w[12];
    }
    assert BlackLabWords(b.(reserved := 0)) == BlackLabWords(b);
    assert BlackLabWords(d.(reserved := 0)) == BlackLabWords(d);
  }

  lemma DisplayCovered(d: DisplayState, e: DisplayState)
    ensures DisplayWords(d) == DisplayWords(e) <==> d == e
  {
    if DisplayWords(d) == DisplayWords(e) {
      var v, w := DisplayWords(d), DisplayWords(e);
      assert v[0] == w[0] && v[1] == w[1] && v[2] == w[2] && v[3] == w[3] && v[4] == w[4] && v[5] == w[5];
      assert v[6] == w[6] && v[7] == w[7] && v[8] == w[8] && v[9] == w[9] && v[10] == w[10];
    }
  }

  lemma FrameCovered(f: FrameCertificate, g: FrameCertificate)
    ensures FrameWords(f) == FrameWords(g) <==> f.(reserved := [], root := 0) == g.(reserved := [], root := 0)
  {
    if FrameWords(f) == FrameWords(g) {
      var v, w := FrameWords(f), FrameWords(g);
      assert v[0] == w[0] && v[1] == w[1] && v[2] == w[2] && v[3] == w[3] && v[4] == w[4];
      assert v[5] == w[5] && v[6] == w[6] && v[7] == w[7] && v[8] == w[8];
    }
    assert FrameWords(f.(reserved := [], root := 0)) == FrameWords(f);
    assert FrameWords(g.(reserved := [], root := 0)) == FrameWords(g);
  }

  /** Concatenations of equally long parts are equal exactly when the parts are. */
  lemma PartsEqual(a: seq<u64>, b: seq<u64>, c: seq<u64>, d: seq<u64>)
    requires |a| == |c|
    ensures a + b == c + d <==> a == c && b == d
  {
    if a + b == c + d {
      assert a == (a + b)[..|a|] && c == (c + d)[..|c|];
      assert b == (a + b)[|a|..] && d == (c + d)[|c|..];
    }
  }

  /** The record without the fields its root does not cover. */
  function SnapshotCore(s: Snapshot): Snapshot {
    s.(structSize := 0, reserved := 0, root := 0, blacklab := s.blacklab.(reserved := 0))
  }

  function CommandCore(c: Command): Command {
    c.(structSize := 0, reserved := [], root := 0)
  }

  function ReplyCore(r: Reply): Reply {
    r.(structSize := 0, root := 0, frame := r.frame.(reserved := [], root := 0))
  }

  predicate SameEnds(s: Snapshot, t: Snapshot) {
    SnapshotHeader(s) == SnapshotHeader(t) && SnapshotTail(s) == SnapshotTail(t)
  }

  lemma SnapshotEnds(s: Snapshot, t: Snapshot)
    ensures SameEnds(s, t) <==> (SnapshotCore(s).(gpu := t.gpu, blacklab := t.blacklab, display := t.display)
                              == SnapshotCore(t).(gpu := t.gpu, blacklab := t.blacklab, display := t.display))
  {
    if SameEnds(s, t) {
      var v, w := SnapshotHeader(s), SnapshotHeader(t);
      assert v[0] == w[0] && v[1] == w[1] && v[2] == w[2] && v[3] == w[3] && v[4] == w[4] && v[5] == w[5] && v[6] == w[6];
      var x, y := SnapshotTail(s), SnapshotTail(t);
      assert x[0] == y[0] && x[1] == y[1] && x[2] == y[2];
    }
  }

  lemma SnapshotParts(s: Snapshot, t: Snapshot)
    ensures SnapshotWords(s) == SnapshotWords(t) <==>
              && SameEnds(s, t) && GpuWords(s.gpu) == GpuWords(t.gpu)
              && BlackLabWords(s.blacklab) == BlackLabWords(t.blacklab) && DisplayWords(s.display) == DisplayWords(t.display)
  {
    var a, b := SnapshotHeader(s), SnapshotHeader(t);
    PartsEqual(a, GpuWords(s.gpu), b, GpuWords(t.gpu));
    var c, d := a + GpuWords(s.gpu), b + GpuWords(t.gpu);
    PartsEqual(c, BlackLabWords(s.blacklab), d, BlackLabWords(t.blacklab));
    var e, f := c + BlackLabWords(s.blacklab), d + BlackLabWords(t.blacklab);
    PartsEqual(e, DisplayWords(s.display), f, DisplayWords(t.display));
    PartsEqual(e + DisplayWords(s.display), SnapshotTail(s), f + DisplayWords(t.display), SnapshotTail(t));
  }

  /** Snapshots absorb the same words exactly when they agree but for declared size, reserved fields and root. */
  lemma SnapshotCovered(s: Snapshot, t: Snapshot)
    ensures SnapshotWords(s) == SnapshotWords(t) <==> SnapshotCore(s) == SnapshotCore(t)
  {
    SnapshotParts(s, t);
    SnapshotEnds(s, t);
    GpuCovered(s.gpu, t.gpu);
    BlackLabCovered(s.blacklab, t.blacklab);
    DisplayCovered(s.display, t.display);
  }

  lemma {:induction false} ChunksCovered(p: seq<u8>, q: seq<u8>)
    requires |p| == |q|
    ensures ChunkWords(p) == ChunkWords(q) <==> p == q
    ensures |ChunkWords(p)| == |ChunkWords(q)|
  {
    if p != [] {
      var n := Min(8, |p|);
      ChunksCovered(p[n..], q[n..]);
      if ChunkWords(p) == ChunkWords(q) {
        assert ChunkWords(p)[0] == ChunkWords(q)[0] && ChunkWords(p)[1..] == ChunkWords(q)[1..];
        BytesValueInjective(p[..n], q[..n]);
        assert p == p[..n] + p[n..] && q == q[..n] + q[n..];
      }
    }
  }

  lemma CommandHeaderCovered(c: Command, d: Command)
    ensures CommandHeader(c) == CommandHeader(d) <==> (CommandCore(c).(arguments := [], payloadLength := 0, payload := [])
                                                   == CommandCore(d).(arguments := [], payloadLength := 0, payload := []))
  {
    if CommandHeader(c) == CommandHeader(d) {
      var v, w := CommandHeader(c), CommandHeader(d);
      assert v[0] == w[0] && v[1] == w[1] && v[2] == w[2] && v[3] == w[3] && v[4] == w[4];
      assert v[5] == w[5] && v[6] == w[6] && v[7] == w[7] && v[8] == w[8];
    }
    assert CommandHeader(CommandCore(c)) == CommandHeader(c) && CommandHeader(CommandCore(d)) == CommandHeader(d);
  }

  /** The same for commands. */
  lemma CommandCovered(c: Command, d: Command)
    requires CommandShape(c) && CommandShape(d)
    ensures CommandWords(c) == CommandWords(d) <==> CommandCore(c) == CommandCore(d)
  {
    var x, y := CommandHeader(c) + c.arguments, CommandHeader(d) + d.arguments;
    PartsEqual(CommandHeader(c), c.arguments, CommandHeader(d), d.arguments);
    PartsEqual(x, [c.payloadLength], y, [d.payloadLength]);
    PartsEqual(x + [c.payloadLength], ChunkWords(c.payload), y + [d.payloadLength], ChunkWords(d.payload));
    ChunksCovered(c.payload, d.payload);
    CommandHeaderCovered(c, d);
    assert [c.payloadLength] == [d.payloadLength] <==> c.payloadLength == d.payloadLength;
  }

  lemma ReplyHeaderCovered(r: Reply, q: Reply)
    ensures ReplyHeader(r) == ReplyHeader(q) <==>
              && r.abiVersion == q.abiVersion && r.commandSequence == q.commandSequence
              && r.snapshotSequence == q.snapshotSequence && r.status == q.status && r.flags == q.flags
  {
    SignedWordInjective(r.status, q.status);
    if ReplyHeader(r) == ReplyHeader(q) {
      var v, w := ReplyHeader(r), ReplyHeader(q);
      assert v[0] == w[0] && v[1] == w[1] && v[2] == w[2] && v[3] == w[3] && v[4] == w[4];
    }
  }

  /** The same for replies, where the root of the frame is left uncovered too. */
  lemma ReplyCovered(r: Reply, q: Reply)
    requires |r.outputs| == |q.outputs|
    ensures ReplyWords(r) == ReplyWords(q) <==> ReplyCore(r) == ReplyCore(q)
  {
    PartsEqual(ReplyHeader(r), r.outputs, ReplyHeader(q), q.outputs);
    PartsEqual(ReplyHeader(r) + r.outputs, FrameWords(r.frame), ReplyHeader(q) + q.outputs, FrameWords(q.frame));
    ReplyHeaderCovered(r, q);
    FrameCovered(r.frame, q.frame);
  }

  /** So declared sizes, reserved fields and the root of a reply's frame can change unnoticed. */
  lemma UncoveredFields(secret: u64, s: Snapshot, t: Snapshot, c: Command, d: Command, r: Reply, q: Reply)
    requires CommandShape(c) && CommandShape(d) && |r.outputs| == |q.outputs|
    ensures SnapshotCore(s) == SnapshotCore(t) ==> SnapshotRoot(secret, s) == SnapshotRoot(secret, t)
    ensures CommandCore(c) == CommandCore(d) ==> CommandRoot(secret, c) == CommandRoot(secret, d)
    ensures ReplyCore(r) == ReplyCore(q) ==> ReplyRoot(secret, r) == ReplyRoot(secret, q)
  {
    SnapshotCovered(s, t);
    SnapshotRootFoldsItsWords(secret, s);
    SnapshotRootFoldsItsWords(secret, t);
    CommandCovered(c, d);
    ReplyCovered(r, q);
  }
}
