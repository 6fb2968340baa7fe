/** Canonical HTTPS origins and requests, and the lease under which a request crosses the IPC boundary. */
module Hypermedia {
  import opened Machine

  const MAX_HOST: nat := 48
  const MAX_PATH: nat := 128
  const MAX_REQUEST_BYTES: u16 := 2048
  const MAX_RESPONSE_BYTES: u16 := 32768
  const MAX_SEGMENTS: u8 := 32
  const IPC_VERSION: u16 := 1

  const DOT: u8 := 46
  const HYPHEN: u8 := 45
  const SLASH: u8 := 47
  const HASH: u8 := 35

  /** `https://` */
  const SCHEME: seq<u8> := [104, 116, 116, 112, 115, 58, 47, 47]

  datatype HypermediaError =
    | NotHttps | InvalidHost | InvalidPath | InvalidBudget | InvalidLease | LeaseExpired | LeaseMismatch

  datatype Budget = Budget(requestBytes: u16, responseBytes: u16, maxSegments: u8, yieldEvery: u8)

  predicate BudgetValid(b: Budget) {
    && 0 < b.requestBytes <= MAX_REQUEST_BYTES && 0 < b.responseBytes <= MAX_RESPONSE_BYTES
    && 0 < b.maxSegments <= MAX_SEGMENTS && 0 < b.yieldEvery <= b.maxSegments
  }

  /** A buffer of the given size that starts with `bytes` and is zero after them. */
  function Padded(bytes: seq<u8>, size: nat): (p: seq<u8>)
    requires |bytes| <= size
    ensures |p| == size && p[..|bytes|] == bytes && forall i :: |bytes| <= i < size ==> p[i] == 0
  {
    bytes + seq(size - |bytes|, _ => 0)
  }

  // ----- origins -----

  predicate IsUpper(b: u8) { 65 <= b <= 90 }

  predicate HostByte(b: u8) {
    48 <= b <= 57 || 97 <= b <= 122 || IsUpper(b) || b == HYPHEN || b == DOT
  }

  function LowerByte(b: u8): u8 {
    if IsUpper(b) then b + 32 else b
  }

  function Lower(s: seq<u8>): (t: seq<u8>)
    ensures |t| == |s| && forall i :: 0 <= i < |s| ==> t[i] == LowerByte(s[i])
  {
    seq(|s|, i requires 0 <= i < |s| => LowerByte(s[i]))
  }

  /** The parts between the dots. */
  function Labels(host: seq<u8>): (labels: seq<seq<u8>>)
    ensures labels != []
  {
    if host == [] then [[]]
    else
      var rest := Labels(host[..|host| - 1]);
      var last := |rest| - 1;
      if host[|host| - 1] == DOT then rest + [[]] else rest[last := rest[last] + [host[|host| - 1]]]
  }

  /** At most 48 bytes of letters, digits, hyphens and dots, no label empty, no hyphen at either end. */
  predicate HostOk(host: seq<u8>) {
    && 0 < |host| <= MAX_HOST
    && (forall i :: 0 <= i < |host| ==> HostByte(host[i]))
    && (forall k :: 0 <= k < |Labels(host)| ==> Labels(host)[k] != [])
    && host[0] != HYPHEN && host[|host| - 1] != HYPHEN
  }

  datatype HttpsOrigin = HttpsOrigin(host: seq<u8>, hostLength: u8)

  predicate OriginShape(o: HttpsOrigin) {
    |o.host| == MAX_HOST && o.hostLength <= MAX_HOST
  }

  function HostOf(o: HttpsOrigin): seq<u8>
    requires OriginShape(o)
  {
    o.host[..o.hostLength]
  }

  function Origin(host: seq<u8>): (r: Result<HttpsOrigin, HypermediaError>)
    ensures r.Ok? ==> OriginShape(r.value)
  {
    if HostOk(host) then Ok(HttpsOrigin(Padded(Lower(host), MAX_HOST), |host|)) else Err(InvalidHost)
  }

  /** No label but the last is empty: what the scan over the bytes has checked so far. */
  predicate EarlierLabelsOk(labels: seq<seq<u8>>) {
    forall k :: 0 <= k < |labels| - 1 ==> labels[k] != []
  }

  lemma LabelsPush(host: seq<u8>, b: u8)
    ensures var labels := Labels(host);
            var last := |labels| - 1;
            Labels(host + [b]) == if b == DOT then labels + [[]] else labels[last := labels[last] + [b]]
  {
    assert (host + [b])[..|host|] == host;
  }

  /** An empty label never goes away again. */
  lemma {:induction false} EmptyLabelStays(host: seq<u8>, n: nat)
    requires n <= |host| && !EarlierLabelsOk(Labels(host[..n]))
    ensures !EarlierLabelsOk(Labels(host))
    decreases |host| - n
  {
    if n == |host| {
      assert host[..n] == host;
    } else {
      var before := Labels(host[..n]);
      assert host[..n + 1] == host[..n] + [host[n]];
      LabelsPush(host[..n], host[n]);
      var after := Labels(host[..n + 1]);
      var k :| 0 <= k < |before| - 1 && before[k] == [];
      assert after[k] == [];
      EmptyLabelStays(host, n + 1);
    }
  }

  /** A dot after a dot, or at the start, leaves an empty label behind. */
  lemma DotAfterDot(host: seq<u8>, n: nat)
    requires n < |host| && host[n] == DOT && Labels(host[..n])[|Labels(host[..n])| - 1] == []
    ensures !HostOk(host)
  {
    var before := Labels(host[..n]);
    assert host[..n + 1] == host[..n] + [host[n]];
    LabelsPush(host[..n], host[n]);
    assert Labels(host[..n + 1])[|before| - 1] == [];
    EmptyLabelStays(host, n + 1);
  }

  /** The scan accepts exactly the described hosts, and returns their lower-case form padded with zeros. */
  method NewOrigin(host: seq<u8>) returns (result: Result<HttpsOrigin, HypermediaError>)
    ensures result == Origin(host)
  {
    if host == [] || |host| > MAX_HOST {
      return Err(InvalidHost);
    }
    var previousDot := true;
    for n := 0 to |host|
      invariant forall i :: 0 <= i < n ==> HostByte(host[i])
      invariant EarlierLabelsOk(Labels(host[..n]))
      invariant previousDot <==> Labels(host[..n])[|Labels(host[..n])| - 1] == []
    {
      if !HostByte(host[n]) {
        return Err(InvalidHost);
      }
      if host[n] == DOT && previousDot {
        DotAfterDot(host, n);
        return Err(InvalidHost);
      }
      assert host[..n + 1] == host[..n] + [host[n]];
      LabelsPush(host[..n], host[n]);
      previousDot := host[n] == DOT;
    }
    assert host[..|host|] == host;
    if previousDot || host[0] == HYPHEN || host[|host| - 1] == HYPHEN {
      return Err(InvalidHost);
    }
    var output := LowerInto(host);
    return Ok(HttpsOrigin(output, |host|));
  }

  // Copies the lower-case bytes into a zeroed buffer.
  method LowerInto(host: seq<u8>) returns (buffer: seq<u8>)
    requires |host| <= MAX_HOST
    ensures buffer == Padded(Lower(host), MAX_HOST)
  {
    var output := new u8[MAX_HOST](_ => 0);
    for i := 0 to |host|
      invariant output[..i] == Lower(host)[..i]
      invariant forall j :: i <= j < MAX_HOST ==> output[j] == 0
    {
      output[i] := LowerByte(host[i]);
    }
    buffer := output[..];
  }

  lemma {:induction false} LabelsOfLower(host: seq<u8>)
    requires forall i :: 0 <= i < |host| ==> HostByte(host[i])
    ensures |Labels(Lower(host))| == |Labels(host)|
    ensures forall k :: 0 <= k < |Labels(host)| ==> |Labels(Lower(host))[k]| == |Labels(host)[k]|
  {
    if host != [] {
      var n := |host| - 1;
      LabelsOfLower(host[..n]);
      assert Lower(host)[..n] == Lower(host[..n]);
    }
  }

  /** Canonicalisation is idempotent: the host of an accepted origin is accepted and gives the same origin. */
  lemma OriginIdempotent(host: seq<u8>)
    requires Origin(host).Ok?
    ensures HostOf(Origin(host).value) == Lower(host)
    ensures Origin(HostOf(Origin(host).value)) == Origin(host)
  {
    LabelsOfLower(host);
    assert Lower(Lower(host)) == Lower(host);
    forall k | 0 <= k < |Labels(Lower(host))|
      ensures Labels(Lower(host))[k] != []
    {
      assert |Labels(Lower(host))[k]| == |Labels(host)[k]|;
    }
  }

  lemma {:induction false} OneLabel(x: seq<u8>)
    requires DOT !in x
    ensures Labels(x) == [x]
  {
    if x != [] {
      var n := |x| - 1;
      OneLabel(x[..n]);
      assert x[..n] + [x[n]] == x;
    }
  }

  lemma {:induction false} LabelsJoin(x: seq<u8>, y: seq<u8>)
    requires DOT !in x && DOT !in y
    ensures Labels(x + [DOT] + y) == [x, y]
    decreases |y|
  {
    var host := x + [DOT];
    if y == [] {
      OneLabel(x);
      LabelsPush(x, DOT);
      assert host + y == host;
    } else {
      var n := |y| - 1;
      LabelsJoin(x, y[..n]);
      LabelsPush(host + y[..n], y[n]);
      assert host + y[..n] + [y[n]] == host + y && y[..n] + [y[n]] == y;
    }
  }

  /** A label may end or begin with a hyphen inside the host: only the two ends of the host are checked. */
  lemma InnerHyphensAccepted(x: seq<u8>, y: seq<u8>)
    requires x != [] && y != [] && |x| + 1 + |y| <= MAX_HOST && DOT !in x && DOT !in y
    requires forall i :: 0 <= i < |x| ==> HostByte(x[i])
    requires forall i :: 0 <= i < |y| ==> HostByte(y[i])
    requires x[0] != HYPHEN && y[|y| - 1] != HYPHEN
    ensures Origin(x + [DOT] + y).Ok?
  {
    LabelsJoin(x, y);
  }

  /** The host `a-.-b`. */
  lemma HyphenHostAccepted()
    ensures Origin([97, HYPHEN] + [DOT] + [HYPHEN, 98]).Ok?
  {
    InnerHyphensAccepted([97, HYPHEN], [HYPHEN, 98]);
  }

  // ----- requests -----

  datatype HttpsRequest = HttpsRequest(origin: HttpsOrigin, path: seq<u8>, pathLength: u8, budget: Budget)

  predicate PathByte(b: u8) {
    33 <= b <= 126 && b != HASH
  }

  /** An absolute path of at most 128 graphic bytes without a fragment. */
  predicate PathOk(path: seq<u8>) {
    0 < |path| <= MAX_PATH && path[0] == SLASH && forall i :: 0 <= i < |path| ==> PathByte(path[i])
  }

  function Request(origin: HttpsOrigin, path: seq<u8>, budget: Budget): Result<HttpsRequest, HypermediaError> {
    if path == [] || |path| > MAX_PATH || path[0] != SLASH || !BudgetValid(budget) then
      Err(if BudgetValid(budget) then InvalidPath else InvalidBudget)
    else if exists i :: 0 <= i < |path| && !PathByte(path[i]) then Err(InvalidPath)
    else Ok(HttpsRequest(origin, Padded(path, MAX_PATH), |path|, budget))
  }

  /** A request is built exactly from a valid path and budget, and a bad budget is reported before a bad path. */
  lemma RequestExactly(origin: HttpsOrigin, path: seq<u8>, budget: Budget)
    ensures Request(origin, path, budget).Ok? <==> PathOk(path) && BudgetValid(budget)
    ensures Request(origin, path, budget) == Err(InvalidBudget) <==> !BudgetValid(budget)
  {
  }

  predicate RequestShape(r: HttpsRequest) {
    OriginShape(r.origin) && |r.path| == MAX_PATH && r.pathLength <= MAX_PATH
  }

  function PathOf(r: HttpsRequest): seq<u8>
    requires RequestShape(r)
  {
    r.path[..r.pathLength]
  }

  /** The request was built from an accepted host, path and budget. */
  ghost predicate Built(r: HttpsRequest) {
    exists host: seq<u8>, path: seq<u8> ::
      Origin(host).Ok? && Request(Origin(host).value, path, r.budget) == Ok(r)
  }

  /** Position of the first slash, or the length. */
  function FirstSlash(s: seq<u8>): (k: nat)
    ensures k <= |s|
    ensures k < |s| ==> s[k] == SLASH
    ensures forall j :: 0 <= j < k ==> s[j] != SLASH
  {
    if s == [] then 0
    else if s[0] == SLASH then 0
    else
      assert forall j :: 0 < j < |s| ==> s[j] == s[1..][j - 1];
      1 + FirstSlash(s[1..])
  }

  function ParseLocation(location: seq<u8>, budget: Budget): Result<HttpsRequest, HypermediaError> {
    if !(SCHEME <= location) then Err(NotHttps)
    else
      var remainder := location[|SCHEME|..];
      var split := FirstSlash(remainder);
      match Origin(remainder[..split])
      case Err(e) => Err(e)
      case Ok(origin) =>
        Request(origin, if split == |remainder| then [SLASH] else remainder[split..], budget)
  }

  lemma HostHasNoSlash(host: seq<u8>)
    requires HostOk(host)
    ensures SLASH !in host
  {
  }

  lemma SplitsAt(host: seq<u8>, path: seq<u8>)
    requires SLASH !in host && (path == [] || path[0] == SLASH)
    ensures FirstSlash(host + path) == |host|
    ensures (host + path)[..|host|] == host && (host + path)[|host|..] == path
  {
    var s, k := host + path, FirstSlash(host + path);
    forall j | 0 <= j < |host|
      ensures s[j] != SLASH
    {
      assert s[j] == host[j] && host[j] in host;
    }
    assert path != [] ==> s[|host|] == path[0];
  }

  lemma Unprefixed(rest: seq<u8>)
    ensures SCHEME <= SCHEME + rest && (SCHEME + rest)[|SCHEME|..] == rest
  {
  }

  lemma ParseConcat(host: seq<u8>, path: seq<u8>, budget: Budget)
    requires HostOk(host) && (path == [] || path[0] == SLASH)
    ensures ParseLocation(SCHEME + (host + path), budget) ==
              Request(Origin(host).value, if path == [] then [SLASH] else path, budget)
  {
    HostHasNoSlash(host);
    Unprefixed(host + path);
    SplitsAt(host, path);
  }

  /** Parsing `https://`, the host and the path of any built request gives the request back. */
  lemma LocationRoundTrip(r: HttpsRequest)
    requires Built(r)
    ensures RequestShape(r)
    ensures ParseLocation(SCHEME + (HostOf(r.origin) + PathOf(r)), r.budget) == Ok(r)
  {
    var host, path :| Origin(host).Ok? && Request(Origin(host).value, path, r.budget) == Ok(r);
    OriginIdempotent(host);
    RequestExactly(r.origin, path, r.budget);
    assert PathOf(r) == path;
    ParseConcat(HostOf(r.origin), path, r.budget);
  }

  /** A location is accepted exactly when it is the scheme, an acceptable host and an acceptable or missing path. */
  lemma LocationExactly(location: seq<u8>, budget: Budget)
    ensures ParseLocation(location, budget).Ok? <==>
              && BudgetValid(budget) && SCHEME <= location
              && var remainder := location[|SCHEME|..];
                 var k := FirstSlash(remainder);
                 HostOk(remainder[..k]) && (k == |remainder| || PathOk(remainder[k..]))
  {
    if SCHEME <= location {
      var remainder := location[|SCHEME|..];
      var k := FirstSlash(remainder);
      if HostOk(remainder[..k]) {
        RequestExactly(Origin(remainder[..k]).value, if k == |remainder| then [SLASH] else remainder[k..], budget);
      }
    }
  }

  /** Whatever parses is a built request. */
  lemma ParsedIsBuilt(location: seq<u8>, budget: Budget)
    requires ParseLocation(location, budget).Ok?
    ensures Built(ParseLocation(location, budget).value)
  {
    var remainder := location[|SCHEME|..];
    var k := FirstSlash(remainder);
    var path := if k == |remainder| then [SLASH] else remainder[k..];
    assert Origin(remainder[..k]).Ok? && Request(Origin(remainder[..k]).value, path, budget).Ok?;
  }

  // ----- leases and the IPC record -----

  datatype HttpLease = HttpLease(capability: u64, generation: u32, origin: HttpsOrigin, budget: Budget, expiryEpoch: u64)

  datatype HttpIpcRequest = HttpIpcRequest(
    version: u16, requestBytes: u16, responseBytes: u16, maxSegments: u8, yieldEvery: u8, capability: u64,
    generation: u32, sequence: u32, expiryEpoch: u64, hostLength: u8, pathLength: u8, reserved: seq<u8>,
    host: seq<u8>, path: seq<u8>)

  predicate WireShape(w: HttpIpcRequest) {
    |w.reserved| == 2 && |w.host| == MAX_HOST && |w.path| == MAX_PATH
  }

  function Permits(lease: HttpLease, r: HttpsRequest, epoch: u64): Option<HypermediaError> {
    if lease.capability == 0 || lease.generation == 0 then Some(InvalidLease)
    else if epoch >= lease.expiryEpoch then Some(LeaseExpired)
    else if r.origin != lease.origin || r.budget.requestBytes > lease.budget.requestBytes
            || r.budget.responseBytes > lease.budget.responseBytes
            || r.budget.maxSegments > lease.budget.maxSegments || r.budget.yieldEvery > lease.budget.yieldEvery
    then Some(LeaseMismatch)
    else None
  }

  /** The lease covers the request: it is a real lease, still runs, names the origin, and no budget entry exceeds its own. */
  predicate Covers(lease: HttpLease, r: HttpsRequest, epoch: u64) {
    && lease.capability != 0 && lease.generation != 0 && epoch < lease.expiryEpoch && r.origin == lease.origin
    && r.budget.requestBytes <= lease.budget.requestBytes && r.budget.responseBytes <= lease.budget.responseBytes
    && r.budget.maxSegments <= lease.budget.maxSegments && r.budget.yieldEvery <= lease.budget.yieldEvery
  }

  /** A request is permitted exactly when the lease covers it; otherwise the lease, then its expiry, then the request is blamed. */
  lemma PermitsExactly(lease: HttpLease, r: HttpsRequest, epoch: u64)
    ensures Permits(lease, r, epoch) == None <==> Covers(lease, r, epoch)
    ensures Permits(lease, r, epoch) == Some(InvalidLease) <==> lease.capability == 0 || lease.generation == 0
    ensures Permits(lease, r, epoch) == Some(LeaseExpired) <==>
              lease.capability != 0 && lease.generation != 0 && lease.expiryEpoch <= epoch
    ensures Permits(lease, r, epoch) == Some(LeaseMismatch) <==>
              && lease.capability != 0 && lease.generation != 0 && epoch < lease.expiryEpoch
              && !Covers(lease, r, epoch)
  {
  }

  function ToIpc(lease: HttpLease, r: HttpsRequest, epoch: u64, sequence: u32): Result<HttpIpcRequest, HypermediaError>
    requires RequestShape(r)
  {
    var fault := Permits(lease, r, epoch);
    if fault.Some? then Err(fault.value)
    else
      Ok(HttpIpcRequest(IPC_VERSION, r.budget.requestBytes, r.budget.responseBytes, r.budget.maxSegments,
                        r.budget.yieldEvery, lease.capability, lease.generation, sequence, lease.expiryEpoch,
                        r.origin.hostLength, r.pathLength, [0, 0],
                        Padded(HostOf(r.origin), MAX_HOST), Padded(PathOf(r), MAX_PATH)))
  }

  function WireRequest(w: HttpIpcRequest): Result<HttpsRequest, HypermediaError>
    requires WireShape(w)
  {
    if w.version != IPC_VERSION || w.reserved != [0, 0] || w.hostLength == 0 || w.hostLength > MAX_HOST
       || w.pathLength == 0 || w.pathLength > MAX_PATH
    then Err(InvalidLease)
    else
      match Origin(w.host[..w.hostLength])
      case Err(e) => Err(e)
      case Ok(origin) =>
        Request(origin, w.path[..w.pathLength], Budget(w.requestBytes, w.responseBytes, w.maxSegments, w.yieldEvery))
  }

  function AuthorizeIpc(lease: HttpLease, w: HttpIpcRequest, epoch: u64): Result<HttpsRequest, HypermediaError>
    requires WireShape(w)
  {
    if w.version != IPC_VERSION || w.capability != lease.capability || w.generation != lease.generation
       || w.expiryEpoch != lease.expiryEpoch
    then Err(LeaseMismatch)
    else
      match WireRequest(w)
      case Err(e) => Err(e)
      case Ok(r) =>
        var fault := Permits(lease, r, epoch);
        if fault.Some? then Err(fault.value) else Ok(r)
  }

  /** A built request is its own canonical form: rebuilding it from its visible parts gives it back, padding included. */
  lemma BuiltIsCanonical(r: HttpsRequest)
    requires Built(r)
    ensures RequestShape(r) && BudgetValid(r.budget) && 0 < r.origin.hostLength && 0 < r.pathLength
    ensures Origin(HostOf(r.origin)) == Ok(r.origin)
    ensures Request(r.origin, PathOf(r), r.budget) == Ok(r)
    ensures Padded(HostOf(r.origin), MAX_HOST) == r.origin.host && Padded(PathOf(r), MAX_PATH) == r.path
  {
    var host, path :| Origin(host).Ok? && Request(Origin(host).value, path, r.budget) == Ok(r);
    OriginIdempotent(host);
    assert PathOf(r) == path;
  }

  /**
   For any lease and any built request it covers, the IPC record carries the lease's numbers and the
   request's parts, and authorising it returns the request; a request it does not cover gets no record.
   */
  lemma IpcRoundTrip(lease: HttpLease, r: HttpsRequest, epoch: u64, sequence: u32)
    requires Built(r)
    ensures RequestShape(r)
    ensures ToIpc(lease, r, epoch, sequence) ==
              if Covers(lease, r, epoch) then
                Ok(HttpIpcRequest(1, r.budget.requestBytes, r.budget.responseBytes, r.budget.maxSegments,
                                  r.budget.yieldEvery, lease.capability, lease.generation, sequence,
                                  lease.expiryEpoch, r.origin.hostLength, r.pathLength, [0, 0], r.origin.host, r.path))
              else Err(Permits(lease, r, epoch).value)
    ensures Covers(lease, r, epoch) ==>
              var w := ToIpc(lease, r, epoch, sequence).value;
              WireShape(w) && AuthorizeIpc(lease, w, epoch) == Ok(r)
  {
    BuiltIsCanonical(r);
    PermitsExactly(lease, r, epoch);
    if Covers(lease, r, epoch) {
      var w := ToIpc(lease, r, epoch, sequence).value;
      assert w.host[..w.hostLength] == HostOf(r.origin);
      assert w.path[..w.pathLength] == PathOf(r);
    }
  }

  /** Whatever is authorised is a built request within the lease, whatever padding the record carried. */
  lemma AuthorizedIsPermitted(lease: HttpLease, w: HttpIpcRequest, epoch: u64)
    requires WireShape(w) && AuthorizeIpc(lease, w, epoch).Ok?
    ensures var r := AuthorizeIpc(lease, w, epoch).value;
            && Built(r) && r.origin == lease.origin && epoch < lease.expiryEpoch
            && r.budget.requestBytes <= lease.budget.requestBytes && r.budget.responseBytes <= lease.budget.responseBytes
            && r.budget.maxSegments <= lease.budget.maxSegments && r.budget.yieldEvery <= lease.budget.yieldEvery
            && w.capability == lease.capability && w.generation == lease.generation && w.expiryEpoch == lease.expiryEpoch
  {
    assert Origin(w.host[..w.hostLength]).Ok?;
  }

  /** Authorising, writing the record again and authorising that changes nothing: the rewritten record is canonical. */
  lemma AuthorizedIsStable(lease: HttpLease, w: HttpIpcRequest, epoch: u64)
    requires WireShape(w) && AuthorizeIpc(lease, w, epoch).Ok?
    ensures var r := AuthorizeIpc(lease, w, epoch).value;
            RequestShape(r) && ToIpc(lease, r, epoch, w.sequence).Ok?
            && WireShape(ToIpc(lease, r, epoch, w.sequence).value)
            && AuthorizeIpc(lease, ToIpc(lease, r, epoch, w.sequence).value, epoch) == Ok(r)
  {
    AuthorizedIsPermitted(lease, w, epoch);
    IpcRoundTrip(lease, AuthorizeIpc(lease, w, epoch).value, epoch, w.sequence);
  }
}
