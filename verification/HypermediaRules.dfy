/** The rules for hosts, paths, budgets and IPC records, byte by byte and number by number. */
module HypermediaRules {
  import opened Machine
  import opened Hypermedia

  /** Upper- or lower-case ASCII letters and digits. */
  predicate Alphanumeric(b: u8) {
    'a' <= b as char <= 'z' || 'A' <= b as char <= 'Z' || '0' <= b as char <= '9'
  }

  /** One to 48 letters, digits, hyphens and dots; no hyphen at either end; and every dot between two other bytes. */
  predicate HostRule(host: seq<u8>) {
    && 1 <= |host| <= 48
    && (forall i :: 0 <= i < |host| ==> Alphanumeric(host[i]) || host[i] as char in {'-', '.'})
    && host[0] as char !in {'-', '.'} && host[|host| - 1] as char !in {'-', '.'}
    && forall i :: 0 < i < |host| ==> host[i - 1] as char != '.' || host[i] as char != '.'
  }

  /** No label but possibly the last is empty exactly when no dot comes first or after another dot. */
  lemma {:induction false} LabelsByDots(host: seq<u8>)
    ensures Labels(host)[|Labels(host)| - 1] == [] <==> host == [] || host[|host| - 1] == 46
    ensures EarlierLabelsOk(Labels(host)) <==>
              forall i :: 0 <= i < |host| && host[i] == 46 ==> i > 0 && host[i - 1] != 46
  {
    if host != [] {
      var n := |host| - 1;
      var rest := Labels(host[..n]);
      LabelsByDots(host[..n]);
      assert host == host[..n] + [host[n]];
      LabelsPush(host[..n], host[n]);
      EarlierPushed(rest, host[n]);
    }
  }

  lemma EarlierPushed(labels: seq<seq<u8>>, b: u8)
    requires labels != []
    ensures EarlierLabelsOk(labels + [[]]) <==> EarlierLabelsOk(labels) && labels[|labels| - 1] != []
    ensures EarlierLabelsOk(labels[|labels| - 1 := labels[|labels| - 1] + [b]]) <==> EarlierLabelsOk(labels)
  {
    var last := |labels| - 1;
    var longer, grown := labels + [[]], labels[last := labels[last] + [b]];
    assert forall k :: 0 <= k <= last ==> longer[k] == labels[k];
    assert forall k :: 0 <= k < last ==> grown[k] == labels[k];
    if EarlierLabelsOk(longer) {
      assert longer[last] != [];
      assert forall k :: 0 <= k < last ==> labels[k] == longer[k];
    }
    if EarlierLabelsOk(grown) {
      assert forall k :: 0 <= k < last ==> labels[k] == grown[k];
    }
  }

  /** A host is accepted exactly by this rule. */
  lemma HostExactly(host: seq<u8>)
    ensures Origin(host).Ok? <==> HostRule(host)
    ensures Origin(host).Err? ==> Origin(host) == Err(InvalidHost)
  {
    LabelsByDots(host);
    var labels := Labels(host);
    assert (forall k :: 0 <= k < |labels| ==> labels[k] != []) <==>
      EarlierLabelsOk(labels) && labels[|labels| - 1] != [];
  }

  /** The same byte, or the two cases of one letter. */
  predicate SameLetter(a: u8, b: u8) {
    || a == b
    || ('A' <= a as char <= 'Z' && b == a + 32)
    || ('A' <= b as char <= 'Z' && a == b + 32)
  }

  lemma LowerExactly(b: u8)
    ensures !('A' <= LowerByte(b) as char <= 'Z') && SameLetter(LowerByte(b), b)
  {
  }

  lemma SameLowerExactly(a: u8, b: u8)
    ensures LowerByte(a) == LowerByte(b) <==> SameLetter(a, b)
  {
  }

  /** Canonical hosts have no upper-case letter, and differ from the host given only in the case of letters. */
  lemma CanonicalHost(x: seq<u8>)
    requires Origin(x).Ok?
    ensures var host := HostOf(Origin(x).value);
            && |host| == |x|
            && forall i :: 0 <= i < |x| ==> !('A' <= host[i] as char <= 'Z') && SameLetter(host[i], x[i])
  {
    OriginIdempotent(x);
    forall i | 0 <= i < |x|
      ensures !('A' <= Lower(x)[i] as char <= 'Z') && SameLetter(Lower(x)[i], x[i])
    {
      LowerExactly(x[i]);
    }
  }

  lemma LowerAgreesExactly(x: seq<u8>, y: seq<u8>)
    ensures Lower(x) == Lower(y) <==> |x| == |y| && forall i :: 0 <= i < |x| ==> SameLetter(x[i], y[i])
  {
    if |x| == |y| {
      forall i | 0 <= i < |x|
        ensures Lower(x)[i] == Lower(y)[i] <==> SameLetter(x[i], y[i])
      {
        SameLowerExactly(x[i], y[i]);
      }
    }
  }

  /** Two accepted hosts have the same origin exactly when they are the same but for the case of letters. */
  lemma OriginsAgreeExactly(x: seq<u8>, y: seq<u8>)
    requires Origin(x).Ok? && Origin(y).Ok?
    ensures Origin(x) == Origin(y) <==> |x| == |y| && forall i :: 0 <= i < |x| ==> SameLetter(x[i], y[i])
  {
    OriginIdempotent(x);
    OriginIdempotent(y);
    LowerAgreesExactly(x, y);
  }

  /** One to 128 visible ASCII bytes other than the number sign, the first a slash. */
  predicate PathRule(path: seq<u8>) {
    && 1 <= |path| <= 128 && path[0] as char == '/'
    && forall i :: 0 <= i < |path| ==> '!' <= path[i] as char <= '~' && path[i] as char != '#'
  }

  predicate BudgetRule(b: Budget) {
    && 1 <= b.requestBytes <= 2048 && 1 <= b.responseBytes <= 32768
    && 1 <= b.maxSegments <= 32 && 1 <= b.yieldEvery <= b.maxSegments
  }

  /** A request is built exactly by these rules; it keeps its parts, and the budget is blamed before the path. */
  lemma RequestRules(origin: HttpsOrigin, path: seq<u8>, budget: Budget)
    ensures match Request(origin, path, budget)
            case Ok(r) =>
              && PathRule(path) && BudgetRule(budget)
              && r.origin == origin && r.budget == budget
              && r.pathLength == |path| && |r.path| == 128 && r.path[..|path|] == path
              && forall i :: |path| <= i < 128 ==> r.path[i] == 0
            case Err(e) =>
              if BudgetRule(budget) then e == InvalidPath && !PathRule(path) else e == InvalidBudget
  {
  }

  /** The location begins with `https://`. */
  predicate Https(location: seq<u8>) {
    |location| >= 8 && forall i :: 0 <= i < 8 ==> location[i] as char == "https://"[i]
  }

  lemma SchemeIsHttps(location: seq<u8>)
    ensures SCHEME <= location <==> Https(location)
  {
    if Https(location) {
      assert location[0] == 104 && location[1] == 116 && location[2] == 116 && location[3] == 112;
      assert location[4] == 115 && location[5] == 58 && location[6] == 47 && location[7] == 47;
      assert SCHEME == location[..8];
    }
  }

  /**
   Why a location is refused: its scheme, then the host before the first slash, then the budget, then
   the path from that slash on. A location without a path asks for the slash alone.
   */
  lemma LocationFaults(location: seq<u8>, budget: Budget)
    ensures var result := ParseLocation(location, budget);
            if !Https(location) then result == Err(NotHttps)
            else
              var rest := location[8..];
              var k := FirstSlash(rest);
              if !HostRule(rest[..k]) then result == Err(InvalidHost)
              else if !BudgetRule(budget) then result == Err(InvalidBudget)
              else if k < |rest| && !PathRule(rest[k..]) then result == Err(InvalidPath)
              else
                && result.Ok? && Ok(result.value.origin) == Origin(rest[..k]) && RequestShape(result.value)
                && PathOf(result.value) == if k == |rest| then [47] else rest[k..]
  {
    SchemeIsHttps(location);
    if Https(location) {
      var rest := location[8..];
      var k := FirstSlash(rest);
      HostExactly(rest[..k]);
      if HostRule(rest[..k]) {
        RequestRules(Origin(rest[..k]).value, if k == |rest| then [47] else rest[k..], budget);
      }
    }
  }

  /** Everything a record must show to be authorised. */
  predicate RecordRule(lease: HttpLease, w: HttpIpcRequest, epoch: u64)
    requires WireShape(w)
  {
    && w.version == 1 && w.reserved == [0, 0]
    && w.capability == lease.capability && w.generation == lease.generation && w.expiryEpoch == lease.expiryEpoch
    && lease.capability != 0 && lease.generation != 0 && epoch < lease.expiryEpoch
    && w.hostLength <= 48 && HostRule(w.host[..w.hostLength])
    && w.pathLength <= 128 && PathRule(w.path[..w.pathLength])
    && BudgetRule(Budget(w.requestBytes, w.responseBytes, w.maxSegments, w.yieldEvery))
    && Origin(w.host[..w.hostLength]) == Ok(lease.origin)
    && w.requestBytes <= lease.budget.requestBytes && w.responseBytes <= lease.budget.responseBytes
    && w.maxSegments <= lease.budget.maxSegments && w.yieldEvery <= lease.budget.yieldEvery
  }

  lemma AuthorizedByRule(lease: HttpLease, w: HttpIpcRequest, epoch: u64)
    requires WireShape(w) && RecordRule(lease, w, epoch)
    ensures AuthorizeIpc(lease, w, epoch).Ok?
  {
    RequestRules(lease.origin, w.path[..w.pathLength], Budget(w.requestBytes, w.responseBytes, w.maxSegments, w.yieldEvery));
    PermitsExactly(lease, WireRequest(w).value, epoch);
  }

  lemma RuleFromAuthorized(lease: HttpLease, w: HttpIpcRequest, epoch: u64)
    requires WireShape(w) && AuthorizeIpc(lease, w, epoch).Ok?
    ensures RecordRule(lease, w, epoch)
  {
    HostExactly(w.host[..w.hostLength]);
    RequestRules(Origin(w.host[..w.hostLength]).value, w.path[..w.pathLength],
                 Budget(w.requestBytes, w.responseBytes, w.maxSegments, w.yieldEvery));
    PermitsExactly(lease, WireRequest(w).value, epoch);
  }

  /** A record is authorised exactly by these rules, and a request cut from it carries its host, path and budget. */
  lemma AuthorizesExactly(lease: HttpLease, w: HttpIpcRequest, epoch: u64)
    requires WireShape(w)
    ensures AuthorizeIpc(lease, w, epoch).Ok? <==> RecordRule(lease, w, epoch)
    ensures AuthorizeIpc(lease, w, epoch).Ok? ==>
              var r := AuthorizeIpc(lease, w, epoch).value;
              && r.origin == lease.origin
              && r.pathLength == w.pathLength <= 128 == |r.path| && r.path[..r.pathLength] == w.path[..w.pathLength]
              && r.budget == Budget(w.requestBytes, w.responseBytes, w.maxSegments, w.yieldEvery)
  {
    if AuthorizeIpc(lease, w, epoch).Ok? {
      RuleFromAuthorized(lease, w, epoch);
      RequestRules(lease.origin, w.path[..w.pathLength], AuthorizeIpc(lease, w, epoch).value.budget);
    } else if RecordRule(lease, w, epoch) {
      AuthorizedByRule(lease, w, epoch);
    }
  }

  /** The fault of a refused record: its numbers, its layout, its host, its budget, its path, and last what the lease permits. */
  lemma AuthorizeFaults(lease: HttpLease, w: HttpIpcRequest, epoch: u64)
    requires WireShape(w) && AuthorizeIpc(lease, w, epoch).Err?
    ensures var fault := AuthorizeIpc(lease, w, epoch).error;
            if w.version != 1 || w.capability != lease.capability || w.generation != lease.generation
               || w.expiryEpoch != lease.expiryEpoch
            then fault == LeaseMismatch
            else if w.reserved != [0, 0] || !(1 <= w.hostLength <= 48) || !(1 <= w.pathLength <= 128)
            then fault == InvalidLease
            else if !HostRule(w.host[..w.hostLength]) then fault == InvalidHost
            else if !BudgetRule(Budget(w.requestBytes, w.responseBytes, w.maxSegments, w.yieldEvery))
            then fault == InvalidBudget
            else if !PathRule(w.path[..w.pathLength]) then fault == InvalidPath
            else if w.capability == 0 || w.generation == 0 then fault == InvalidLease
            else if epoch >= w.expiryEpoch then fault == LeaseExpired
            else fault == LeaseMismatch
  {
    if 1 <= w.hostLength <= 48 && 1 <= w.pathLength <= 128 {
      HostExactly(w.host[..w.hostLength]);
      if HostRule(w.host[..w.hostLength]) {
        RequestRules(Origin(w.host[..w.hostLength]).value, w.path[..w.pathLength],
                     Budget(w.requestBytes, w.responseBytes, w.maxSegments, w.yieldEvery));
      }
    }
  }
}
