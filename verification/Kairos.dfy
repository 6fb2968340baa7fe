/** The validated machine topology, and splitting work over its NUMA domains. */
module Kairos {
  import opened Machine

  datatype KairosError = InvalidTopology

  /** The sizes of the fixed arrays, which the wire format chooses. */
  datatype Limits = Limits(cpus: nat, domains: nat, members: nat)

  datatype RawCpu = RawCpu(logicalId: u16, numaDomain: u16, enabled: u8)

  datatype RawDomain = RawDomain(id: u16, kind: u8, parentValid: u8, parentId: u16, memberCount: u16, members: seq<u16>)

  datatype RawTopology = RawTopology(cpuCount: nat, domainCount: nat, cpus: seq<RawCpu>, domains: seq<RawDomain>)

  datatype Cpu = Cpu(logicalId: u16, numaDomain: u16, enabled: bool)

  datatype DomainKind = MachineDomain | Numa

  datatype Domain = Domain(id: u16, kind: DomainKind, parent: Option<u16>, members: seq<u16>)

  datatype Snapshot = Snapshot(cpus: seq<Cpu>, domains: seq<Domain>)

  /** The arrays of a reply have their fixed sizes. */
  predicate Sized(r: RawTopology, m: Limits) {
    && |r.cpus| == m.cpus && |r.domains| == m.domains
    && forall i :: 0 <= i < m.domains ==> |r.domains[i].members| == m.members
  }

  // ----- validation -----

  function CpuOf(raw: RawCpu): Cpu {
    Cpu(raw.logicalId, raw.numaDomain, raw.enabled != 0)
  }

  function DomainOf(raw: RawDomain): Domain
    requires raw.memberCount <= |raw.members|
  {
    Domain(raw.id, if raw.kind == 1 then Numa else MachineDomain,
           if raw.parentValid != 0 then Some(raw.parentId) else None, raw.members[..raw.memberCount])
  }

  predicate Distinct(s: seq<u16>) {
    forall i, j :: 0 <= i < j < |s| ==> s[i] != s[j]
  }

  predicate KnownCpu(cpus: seq<Cpu>, id: u16) {
    exists i :: 0 <= i < |cpus| && cpus[i].logicalId == id
  }

  predicate KnownDomain(domains: seq<Domain>, id: u16) {
    exists i :: 0 <= i < |domains| && domains[i].id == id
  }

  /** No two CPUs, and no two domains, have the same number. */
  predicate UniqueCpus(cpus: seq<Cpu>) {
    forall i, j :: 0 <= i < j < |cpus| ==> cpus[i].logicalId != cpus[j].logicalId
  }

  predicate UniqueDomains(domains: seq<Domain>) {
    forall i, j :: 0 <= i < j < |domains| ==> domains[i].id != domains[j].id
  }

  predicate MembersOk(cpus: seq<Cpu>, d: Domain) {
    Distinct(d.members) && forall k :: 0 <= k < |d.members| ==> KnownCpu(cpus, d.members[k])
  }

  predicate ParentOk(domains: seq<Domain>, d: Domain) {
    d.parent.Some? ==> KnownDomain(domains, d.parent.value)
  }

  /** What a snapshot guarantees to every other operation. */
  predicate Consistent(s: Snapshot) {
    && s.cpus != [] && s.domains != []
    && UniqueCpus(s.cpus) && UniqueDomains(s.domains)
    && (forall i {:trigger s.domains[i]} :: 0 <= i < |s.domains| ==>
          MembersOk(s.cpus, s.domains[i]) && ParentOk(s.domains, s.domains[i]))
  }

  /** The counts and the fields of a reply are in range, so that it denotes a topology. */
  predicate InRange(r: RawTopology, m: Limits)
    requires Sized(r, m)
  {
    && 0 < r.cpuCount <= m.cpus && 0 < r.domainCount <= m.domains
    && forall i {:trigger r.domains[i]} :: 0 <= i < r.domainCount ==>
         r.domains[i].memberCount <= m.members && r.domains[i].kind <= 1
  }

  function CpusOf(raw: seq<RawCpu>): (cpus: seq<Cpu>)
    ensures |cpus| == |raw| && forall i :: 0 <= i < |raw| ==> cpus[i] == CpuOf(raw[i])
  {
    seq(|raw|, i requires 0 <= i < |raw| => CpuOf(raw[i]))
  }

  function DomainsOf(raw: seq<RawDomain>): (domains: seq<Domain>)
    requires forall i {:trigger raw[i]} :: 0 <= i < |raw| ==> raw[i].memberCount <= |raw[i].members|
    ensures |domains| == |raw| && forall i :: 0 <= i < |raw| ==> domains[i] == DomainOf(raw[i])
  {
    seq(|raw|, i requires 0 <= i < |raw| => DomainOf(raw[i]))
  }

  /** The topology a reply in range denotes. */
  function Denoted(r: RawTopology, m: Limits): Snapshot
    requires Sized(r, m) && InRange(r, m)
  {
    Snapshot(CpusOf(r.cpus[..r.cpuCount]), DomainsOf(r.domains[..r.domainCount]))
  }

  method ReadCpus(raw: seq<RawCpu>) returns (ok: bool, cpus: seq<Cpu>)
    ensures ok <==> UniqueCpus(CpusOf(raw))
    ensures ok ==> cpus == CpusOf(raw)
  {
    cpus := [];
    for i := 0 to |raw|
      invariant cpus == CpusOf(raw)[..i]
      invariant UniqueCpus(cpus)
    {
      if KnownCpu(cpus, raw[i].logicalId) {
        assert exists j :: 0 <= j < i && CpusOf(raw)[j].logicalId == CpusOf(raw)[i].logicalId;
        return false, [];
      }
      cpus := cpus + [CpuOf(raw[i])];
    }
    ok := true;
  }

  method ReadDomains(raw: seq<RawDomain>, cpus: seq<Cpu>, limit: nat) returns (ok: bool, domains: seq<Domain>)
    requires forall i {:trigger raw[i]} :: 0 <= i < |raw| ==> |raw[i].members| == limit
    ensures ok <==>
      && (forall i {:trigger raw[i]} :: 0 <= i < |raw| ==> raw[i].memberCount <= limit && raw[i].kind <= 1)
      && UniqueDomains(DomainsOf(raw))
      && (forall i {:trigger raw[i]} :: 0 <= i < |raw| ==> MembersOk(cpus, DomainOf(raw[i])))
    ensures ok ==> domains == DomainsOf(raw)
  {
    domains := [];
    for i := 0 to |raw|
      invariant |domains| == i
      invariant forall j {:trigger raw[j]} :: 0 <= j < i ==>
        && raw[j].memberCount <= limit && raw[j].kind <= 1
        && domains[j] == DomainOf(raw[j]) && MembersOk(cpus, DomainOf(raw[j]))
      invariant UniqueDomains(domains)
    {
      if raw[i].memberCount > limit || raw[i].kind > 1 {
        return false, [];
      }
      if KnownDomain(domains, raw[i].id) {
        var j :| 0 <= j < |domains| && domains[j].id == raw[i].id;
        assert raw[j].memberCount <= limit && DomainOf(raw[j]).id == DomainOf(raw[i]).id;
        return false, [];
      }
      if !MembersOk(cpus, DomainOf(raw[i])) {
        return false, [];
      }
      domains := domains + [DomainOf(raw[i])];
    }
    ok := true;
  }

  /** A reply is accepted exactly when it is in range and denotes a consistent topology, which is then returned. */
  method FromRaw(r: RawTopology, m: Limits) returns (result: Result<Snapshot, KairosError>)
    requires Sized(r, m)
    ensures result == if InRange(r, m) && Consistent(Denoted(r, m)) then Ok(Denoted(r, m)) else Err(InvalidTopology)
  {
    if r.cpuCount == 0 || r.domainCount == 0 || r.cpuCount > m.cpus || r.domainCount > m.domains {
      return Err(InvalidTopology);
    }
    var unique, cpus := ReadCpus(r.cpus[..r.cpuCount]);
    if !unique {
      return Err(InvalidTopology);
    }
    var raw := r.domains[..r.domainCount];
    var ok, domains := ReadDomains(raw, cpus, m.members);
    RangeByDomain(r, m);
    if !ok {
      return Err(InvalidTopology);
    }
    assert InRange(r, m) && Denoted(r, m) == Snapshot(cpus, domains);
    assert forall i {:trigger domains[i]} :: 0 <= i < |domains| ==> domains[i] == DomainOf(raw[i]);
    if exists i :: 0 <= i < |domains| && !ParentOk(domains, domains[i]) {
      return Err(InvalidTopology);
    }
    return Ok(Snapshot(cpus, domains));
  }

  lemma RangeByDomain(r: RawTopology, m: Limits)
    requires Sized(r, m) && 0 < r.cpuCount <= m.cpus && 0 < r.domainCount <= m.domains
    ensures var raw := r.domains[..r.domainCount];
            && (InRange(r, m) <==>
                  forall i {:trigger raw[i]} :: 0 <= i < |raw| ==> raw[i].memberCount <= m.members && raw[i].kind <= 1)
            && (InRange(r, m) && Consistent(Denoted(r, m)) ==>
                  UniqueDomains(DomainsOf(raw)) && UniqueCpus(CpusOf(r.cpus[..r.cpuCount]))
                  && forall i {:trigger raw[i]} :: 0 <= i < |raw| ==>
                       MembersOk(CpusOf(r.cpus[..r.cpuCount]), DomainOf(raw[i])))
  {
    var raw := r.domains[..r.domainCount];
    assert forall i :: 0 <= i < |raw| ==> raw[i] == r.domains[i];
    if InRange(r, m) {
      var s := Denoted(r, m);
      assert forall i {:trigger raw[i]} :: 0 <= i < |raw| ==> s.domains[i] == DomainOf(raw[i]);
    }
  }

  // ----- weights -----

  predicate EnabledCpu(cpus: seq<Cpu>, id: u16) {
    exists i :: 0 <= i < |cpus| && cpus[i].logicalId == id && cpus[i].enabled
  }

  function EnabledAmong(cpus: seq<Cpu>, members: seq<u16>): (n: nat)
    ensures n <= |members|
  {
    if members == [] then 0
    else EnabledAmong(cpus, members[..|members| - 1]) + if EnabledCpu(cpus, members[|members| - 1]) then 1 else 0
  }

  /** A NUMA domain with at least one enabled member, and how many it has. */
  datatype Share = Share(id: u16, weight: nat)

  function SharesOf(cpus: seq<Cpu>, domains: seq<Domain>): (shares: seq<Share>)
    ensures |shares| <= |domains|
    ensures forall k :: 0 <= k < |shares| ==> shares[k].weight > 0
  {
    if domains == [] then []
    else
      var d := domains[|domains| - 1];
      var before := SharesOf(cpus, domains[..|domains| - 1]);
      var weight := EnabledAmong(cpus, d.members);
      if d.kind == Numa && weight > 0 then before + [Share(d.id, weight)] else before
  }

  /** The count is that of the set of enabled members, since a consistent domain lists each member once. */
  lemma {:induction false} EnabledCountsTheSet(cpus: seq<Cpu>, members: seq<u16>)
    requires Distinct(members)
    ensures EnabledAmong(cpus, members) == |set id | id in members && EnabledCpu(cpus, id)|
  {
    var all := set id | id in members && EnabledCpu(cpus, id);
    if members == [] {
      assert all == {};
    } else {
      var rest, last := members[..|members| - 1], members[|members| - 1];
      EnabledCountsTheSet(cpus, rest);
      var fewer := set id | id in rest && EnabledCpu(cpus, id);
      assert last !in fewer;
      assert members == rest + [last];
      if EnabledCpu(cpus, last) {
        assert all == fewer + {last};
      } else {
        assert all == fewer;
      }
    }
  }

  function WeightSum(shares: seq<Share>): nat {
    if shares == [] then 0 else WeightSum(shares[..|shares| - 1]) + shares[|shares| - 1].weight
  }

  // ----- which domains share -----

  /** The places in a domain's member list that name an enabled CPU. */
  function EnabledPlaces(cpus: seq<Cpu>, d: Domain): set<nat> {
    set k | 0 <= k < |d.members| && exists c :: 0 <= c < |cpus| && cpus[c].logicalId == d.members[k] && cpus[c].enabled
  }

  /** Every enabled member of every NUMA domain, as the place of the domain and the place in its list. */
  function EnabledPairs(cpus: seq<Cpu>, domains: seq<Domain>): set<(nat, nat)> {
    set i, k | 0 <= i < |domains| && domains[i].kind == Numa && k in EnabledPlaces(cpus, domains[i]) :: (i, k)
  }

  lemma {:induction false} PlacesCounted(cpus: seq<Cpu>, d: Domain)
    ensures EnabledAmong(cpus, d.members) == |EnabledPlaces(cpus, d)|
    decreases |d.members|
  {
    var places := EnabledPlaces(cpus, d);
    if d.members == [] {
      assert places == {};
    } else {
      var n := |d.members| - 1;
      var shorter := d.(members := d.members[..n]);
      PlacesCounted(cpus, shorter);
      if EnabledCpu(cpus, d.members[n]) {
        assert places == EnabledPlaces(cpus, shorter) + {n};
      } else {
        assert places == EnabledPlaces(cpus, shorter);
      }
    }
  }

  /** The pairs of one domain. */
  function PairsOf(i: nat, places: set<nat>): set<(nat, nat)> {
    set k | k in places :: (i, k)
  }

  lemma {:induction false} PairsCounted(i: nat, places: set<nat>)
    ensures |PairsOf(i, places)| == |places|
  {
    if places == {} {
      assert PairsOf(i, places) == {};
    } else {
      var k :| k in places;
      PairsCounted(i, places - {k});
      assert PairsOf(i, places) == PairsOf(i, places - {k}) + {(i, k)};
    }
  }

  lemma PairsGrow(cpus: seq<Cpu>, domains: seq<Domain>)
    requires domains != []
    ensures var n, d := |domains| - 1, domains[|domains| - 1];
            |EnabledPairs(cpus, domains)| ==
              |EnabledPairs(cpus, domains[..n])| + if d.kind == Numa then |EnabledPlaces(cpus, d)| else 0
  {
    var n, d := |domains| - 1, domains[|domains| - 1];
    var before, last := EnabledPairs(cpus, domains[..n]), PairsOf(n, EnabledPlaces(cpus, d));
    if d.kind == Numa {
      assert EnabledPairs(cpus, domains) == before + last;
      assert before !! last;
      PairsCounted(n, EnabledPlaces(cpus, d));
    } else {
      assert EnabledPairs(cpus, domains) == before;
    }
  }

  /** The domain shares in the work. */
  predicate Shares(cpus: seq<Cpu>, d: Domain) {
    d.kind == Numa && EnabledPlaces(cpus, d) != {}
  }

  /** `owners` are the places of the domains that share in the work, in order. */
  ghost predicate Owners(cpus: seq<Cpu>, domains: seq<Domain>, owners: seq<nat>) {
    && (forall j, k :: 0 <= j < k < |owners| ==> owners[j] < owners[k])
    && (forall k :: 0 <= k < |owners| ==> owners[k] < |domains| && Shares(cpus, domains[owners[k]]))
    && (forall i: nat :: i < |domains| && Shares(cpus, domains[i]) ==> i in owners)
  }

  lemma OwnersLonger(cpus: seq<Cpu>, domains: seq<Domain>, owners: seq<nat>)
    requires domains != [] && Owners(cpus, domains[..|domains| - 1], owners)
    requires !Shares(cpus, domains[|domains| - 1])
    ensures Owners(cpus, domains, owners)
  {
    var n := |domains| - 1;
    assert forall k :: 0 <= k < |owners| ==> domains[..n][owners[k]] == domains[owners[k]];
    forall i: nat | i < |domains| && Shares(cpus, domains[i])
      ensures i in owners
    {
      assert domains[..n][i] == domains[i];
    }
  }

  lemma OwnersMore(cpus: seq<Cpu>, domains: seq<Domain>, owners: seq<nat>)
    requires domains != [] && Owners(cpus, domains[..|domains| - 1], owners)
    requires Shares(cpus, domains[|domains| - 1])
    ensures Owners(cpus, domains, owners + [|domains| - 1])
  {
    var n, more := |domains| - 1, owners + [|domains| - 1];
    assert forall k :: 0 <= k < |owners| ==> more[k] == owners[k] && domains[..n][owners[k]] == domains[owners[k]];
    forall i: nat | i < |domains| && Shares(cpus, domains[i])
      ensures i in more
    {
      if i == n {
        assert more[|owners|] == n;
      } else {
        assert domains[..n][i] == domains[i] && i in owners;
      }
    }
  }

  /** The share has the number and the count of enabled members of this domain. */
  predicate DescribesAt(cpus: seq<Cpu>, domains: seq<Domain>, owner: nat, share: Share) {
    owner < |domains| && share == Share(domains[owner].id, |EnabledPlaces(cpus, domains[owner])|)
  }

  ghost predicate Describes(cpus: seq<Cpu>, domains: seq<Domain>, owners: seq<nat>, shares: seq<Share>) {
    |owners| == |shares| && forall k :: 0 <= k < |shares| ==> DescribesAt(cpus, domains, owners[k], shares[k])
  }

  lemma DescribesLonger(cpus: seq<Cpu>, domains: seq<Domain>, owners: seq<nat>, shares: seq<Share>)
    requires domains != [] && Describes(cpus, domains[..|domains| - 1], owners, shares)
    ensures Describes(cpus, domains, owners, shares)
  {
    var before := domains[..|domains| - 1];
    forall k | 0 <= k < |shares|
      ensures DescribesAt(cpus, domains, owners[k], shares[k])
    {
      assert DescribesAt(cpus, before, owners[k], shares[k]) && before[owners[k]] == domains[owners[k]];
    }
  }

  lemma DescribesMore(cpus: seq<Cpu>, domains: seq<Domain>, owners: seq<nat>, shares: seq<Share>, i: nat, share: Share)
    requires Describes(cpus, domains, owners, shares) && DescribesAt(cpus, domains, i, share)
    ensures Describes(cpus, domains, owners + [i], shares + [share])
  {
    forall k | 0 <= k < |shares| + 1
      ensures DescribesAt(cpus, domains, (owners + [i])[k], (shares + [share])[k])
    {
      assert k < |shares| ==> DescribesAt(cpus, domains, owners[k], shares[k]);
    }
  }

  lemma {:induction false} SharesHaveOwners(cpus: seq<Cpu>, domains: seq<Domain>) returns (owners: seq<nat>)
    ensures Owners(cpus, domains, owners) && Describes(cpus, domains, owners, SharesOf(cpus, domains))
  {
    if domains == [] {
      owners := [];
    } else {
      var n, d := |domains| - 1, domains[|domains| - 1];
      var before := SharesHaveOwners(cpus, domains[..n]);
      PlacesCounted(cpus, d);
      DescribesLonger(cpus, domains, before, SharesOf(cpus, domains[..n]));
      if Shares(cpus, d) {
        DescribesMore(cpus, domains, before, SharesOf(cpus, domains[..n]), n, Share(d.id, |EnabledPlaces(cpus, d)|));
        OwnersMore(cpus, domains, before);
        owners := before + [n];
      } else {
        OwnersLonger(cpus, domains, before);
        owners := before;
      }
    }
  }

  /** The weights add up to the number of enabled members of all NUMA domains. */
  lemma {:induction false} WeightsCounted(cpus: seq<Cpu>, domains: seq<Domain>)
    ensures WeightSum(SharesOf(cpus, domains)) == |EnabledPairs(cpus, domains)|
  {
    if domains == [] {
      assert EnabledPairs(cpus, domains) == {};
    } else {
      var n, d := |domains| - 1, domains[|domains| - 1];
      WeightsCounted(cpus, domains[..n]);
      PlacesCounted(cpus, d);
      PairsGrow(cpus, domains);
      assert d.kind == Numa && EnabledAmong(cpus, d.members) > 0 ==>
        SharesOf(cpus, domains)[..|SharesOf(cpus, domains[..n])|] == SharesOf(cpus, domains[..n]);
    }
  }

  // ----- splitting -----

  /** What a domain of weight `w` out of `e` gets before the remainder is handed out. */
  function Chunk(total: nat, e: nat, w: nat): nat
    requires e > 0
  {
    QuotientNonNegative(total % e * w, e);
    (total / e) * w + (total % e) * w / e
  }

  lemma QuotientNonNegative(a: int, b: int)
    requires a >= 0 && b > 0
    ensures a / b >= 0
  {
  }

  lemma ChunkIsFloor(total: nat, e: nat, w: nat)
    requires e > 0
    ensures Chunk(total, e, w) == total * w / e
    ensures Chunk(total, e, w) * e <= total * w < (Chunk(total, e, w) + 1) * e
  {
    var q, r := total / e, total % e;
    assert total == q * e + r;
    assert total * w == q * w * e + r * w;
    var f := r * w / e;
    assert r * w == f * e + r * w % e;
    assert total * w == (q * w + f) * e + r * w % e;
    FloorUnique(total * w, e, q * w + f);
    assert (q * w + f + 1) * e == (q * w + f) * e + e;
  }

  lemma FloorUnique(a: nat, b: nat, q: int)
    requires b > 0 && q * b <= a < q * b + b
    ensures a / b == q
  {
    var p := a / b;
    assert a == p * b + a % b;
    MulOrder(b, q, p + 1);
    MulOrder(b, p, q + 1);
    assert b * (p + 1) == p * b + b;
    assert b * (q + 1) == q * b + b;
  }

  function ChunkSum(total: nat, e: nat, shares: seq<Share>): nat
    requires e > 0
  {
    if shares == [] then 0
    else ChunkSum(total, e, shares[..|shares| - 1]) + Chunk(total, e, shares[|shares| - 1].weight)
  }

  /** Rounding down loses less than one unit per share. */
  lemma {:induction false} ChunkSumBounds(total: nat, e: nat, shares: seq<Share>)
    requires e > 0
    ensures ChunkSum(total, e, shares) * e <= total * WeightSum(shares)
    ensures shares != [] ==> total * WeightSum(shares) < (ChunkSum(total, e, shares) + |shares|) * e
    ensures shares == [] ==> WeightSum(shares) == 0 && ChunkSum(total, e, shares) == 0
  {
    if shares != [] {
      var rest, w := shares[..|shares| - 1], shares[|shares| - 1].weight;
      ChunkSumBounds(total, e, rest);
      ChunkIsFloor(total, e, w);
      SumStep(ChunkSum(total, e, rest), Chunk(total, e, w), |rest|, e, total, WeightSum(rest), w);
    }
  }

  lemma SumStep(a: nat, b: nat, n: nat, e: nat, total: nat, before: nat, w: nat)
    requires a * e <= total * before <= (a + n) * e
    requires b * e <= total * w < (b + 1) * e
    ensures (a + b) * e <= total * (before + w) < (a + b + n + 1) * e
  {
    assert (a + b) * e == a * e + b * e;
    assert total * (before + w) == total * before + total * w;
    assert (a + b + n + 1) * e == (a + n) * e + (b + 1) * e;
  }

  lemma FactorOrders(a: nat, b: nat, e: nat)
    requires e > 0
    ensures a * e <= b * e ==> a <= b
    ensures a * e < b * e ==> a < b
  {
    MulOrder(e, a, b + 1);
    assert e * (b + 1) == b * e + e;
    MulOrder(e, a, b);
    assert e * a == a * e && e * b == b * e;
  }

  /** The remainder is smaller than the number of shares, so it is never handed to an unused entry. */
  lemma RemainderFits(total: nat, shares: seq<Share>)
    requires WeightSum(shares) > 0
    ensures 0 <= total - ChunkSum(total, WeightSum(shares), shares) < |shares|
  {
    var e := WeightSum(shares);
    var c := ChunkSum(total, e, shares);
    ChunkSumBounds(total, e, shares);
    FactorOrders(c, total, e);
    FactorOrders(total, c + |shares|, e);
  }

  lemma {:induction false} WeightWithin(shares: seq<Share>, k: nat)
    requires k < |shares|
    ensures shares[k].weight <= WeightSum(shares)
  {
    if k < |shares| - 1 {
      WeightWithin(shares[..|shares| - 1], k);
    }
  }

  /** Neither product of the splitting grows beyond the total or the squared number of enabled members. */
  lemma ProductsStaySmall(total: nat, shares: seq<Share>, k: nat)
    requires k < |shares| && WeightSum(shares) > 0
    ensures var e, w := WeightSum(shares), shares[k].weight;
            0 <= total / e * w <= total && 0 <= total % e * w < e * e
  {
    WeightWithin(shares, k);
    SplitBounds(total, WeightSum(shares), shares[k].weight);
  }

  lemma SplitBounds(total: nat, e: nat, w: nat)
    requires e > 0 && w <= e
    ensures 0 <= total / e * w <= total && 0 <= total % e * w < e * e
  {
    var q, r := total / e, total % e;
    QuotientNonNegative(total, e);
    assert total == e * q + r;
    ProductBounds(total, e, w, q, r);
  }

  lemma ProductBounds(total: nat, e: nat, w: nat, q: nat, r: nat)
    requires total == e * q + r && r < e && w <= e
    ensures 0 <= q * w <= total && 0 <= r * w < e * e
  {
    MulAtLeast(q, e, w);
    MulAtLeast(q, w, 0);
    MulAtLeast(r, e, w);
    MulAtLeast(r, w, 0);
    MulAtLeast(e, e - 1, r);
    assert e * (e - 1) == e * e - e;
  }

  datatype WorkSlice = WorkSlice(domainId: u16, start: nat, end: nat)

  /** The slices follow each other from 0 to `total` without gap or overlap. */
  predicate Tiles(slices: seq<WorkSlice>, total: nat) {
    && slices != [] && slices[0].start == 0 && slices[|slices| - 1].end == total
    && (forall k :: 0 <= k < |slices| ==> slices[k].start <= slices[k].end)
    && (forall k :: 0 < k < |slices| ==> slices[k].start == slices[k - 1].end)
  }

  /** The share of entry `k`: its floor, and one more for the first entries, as many as the remainder. */
  function Portion(total: nat, shares: seq<Share>, k: nat): nat
    requires WeightSum(shares) > 0 && k < |shares|
  {
    var e := WeightSum(shares);
    Chunk(total, e, shares[k].weight) + if k < total - ChunkSum(total, e, shares) then 1 else 0
  }

  /** Each share gets one slice, in order, of the size its portion says. */
  ghost predicate Proportional(slices: seq<WorkSlice>, total: nat, shares: seq<Share>)
    requires WeightSum(shares) > 0
  {
    && |slices| == |shares|
    && forall k {:trigger slices[k]} :: 0 <= k < |slices| ==>
         slices[k].domainId == shares[k].id && slices[k].end - slices[k].start == Portion(total, shares, k)
  }

  method CollectShares(s: Snapshot) returns (shares: seq<Share>)
    ensures shares == SharesOf(s.cpus, s.domains)
  {
    shares := [];
    for i := 0 to |s.domains|
      invariant shares == SharesOf(s.cpus, s.domains[..i])
    {
      assert s.domains[..i + 1][..i] == s.domains[..i];
      var domain := s.domains[i];
      if domain.kind == Numa {
        var weight := EnabledMemberCount(s, domain);
        if weight != 0 {
          shares := shares + [Share(domain.id, weight)];
        }
      }
    }
    assert s.domains[..|s.domains|] == s.domains;
  }

  method EnabledMemberCount(s: Snapshot, d: Domain) returns (n: nat)
    ensures n == EnabledAmong(s.cpus, d.members)
  {
    n := 0;
    for i := 0 to |d.members|
      invariant n == EnabledAmong(s.cpus, d.members[..i])
    {
      assert d.members[..i + 1][..i] == d.members[..i];
      if EnabledCpu(s.cpus, d.members[i]) {
        n := n + 1;
      }
    }
    assert d.members[..|d.members|] == d.members;
  }

  method EnabledTotal(shares: seq<Share>) returns (enabled: nat)
    ensures enabled == WeightSum(shares)
  {
    enabled := 0;
    for k := 0 to |shares|
      invariant enabled == WeightSum(shares[..k])
    {
      assert shares[..k + 1][..k] == shares[..k];
      enabled := enabled + shares[k].weight;
    }
    assert shares[..|shares|] == shares;
  }

  // The chunk of every share, in the first entries of an array with room for every domain.
  method ComputeChunks(total: nat, shares: seq<Share>, room: nat) returns (chunks: array<nat>)
    requires WeightSum(shares) > 0 && |shares| <= room
    ensures fresh(chunks) && chunks.Length == room
    ensures forall k :: 0 <= k < |shares| ==> chunks[k] == Portion(total, shares, k)
  {
    var enabled := EnabledTotal(shares);
    chunks := new nat[room](_ => 0);
    var given := 0;
    for k := 0 to |shares|
      invariant given == ChunkSum(total, enabled, shares[..k])
      invariant forall j :: 0 <= j < k ==> chunks[j] == Chunk(total, enabled, shares[j].weight)
    {
      assert shares[..k + 1][..k] == shares[..k];
      chunks[k] := Chunk(total, enabled, shares[k].weight);
      given := given + chunks[k];
    }
    assert shares[..|shares|] == shares;
    RemainderFits(total, shares);
    AddOnes(chunks, total - given);
  }

  // The remainder goes to the first entries, one each.
  method AddOnes(chunks: array<nat>, extra: nat)
    requires extra <= chunks.Length
    modifies chunks
    ensures forall j :: 0 <= j < chunks.Length ==> chunks[j] == old(chunks[j]) + if j < extra then 1 else 0
  {
    for k := 0 to extra
      invariant forall j :: 0 <= j < chunks.Length ==> chunks[j] == old(chunks[j]) + if j < k then 1 else 0
    {
      chunks[k] := chunks[k] + 1;
    }
  }

  function PortionSum(total: nat, shares: seq<Share>, k: nat): nat
    requires WeightSum(shares) > 0 && k <= |shares|
  {
    if k == 0 then 0 else PortionSum(total, shares, k - 1) + Portion(total, shares, k - 1)
  }

  lemma {:induction false} PortionSumSplits(total: nat, shares: seq<Share>, k: nat)
    requires WeightSum(shares) > 0 && k <= |shares|
    ensures var e := WeightSum(shares);
            PortionSum(total, shares, k) == ChunkSum(total, e, shares[..k]) + Min(k, total - ChunkSum(total, e, shares))
  {
    RemainderFits(total, shares);
    if k > 0 {
      PortionSumSplits(total, shares, k - 1);
      assert shares[..k][..k - 1] == shares[..k - 1];
    }
  }

  /** The portions add up to the whole. */
  lemma PortionsAddUp(total: nat, shares: seq<Share>)
    requires WeightSum(shares) > 0
    ensures PortionSum(total, shares, |shares|) == total
  {
    PortionSumSplits(total, shares, |shares|);
    RemainderFits(total, shares);
    assert shares[..|shares|] == shares;
  }

  function SizeSum(sizes: seq<nat>): nat {
    if sizes == [] then 0 else SizeSum(sizes[..|sizes| - 1]) + sizes[|sizes| - 1]
  }

  lemma {:induction false} SizesArePortions(total: nat, shares: seq<Share>, sizes: seq<nat>)
    requires WeightSum(shares) > 0 && |sizes| <= |shares|
    requires forall k :: 0 <= k < |sizes| ==> sizes[k] == Portion(total, shares, k)
    ensures SizeSum(sizes) == PortionSum(total, shares, |sizes|)
  {
    if sizes != [] {
      SizesArePortions(total, shares, sizes[..|sizes| - 1]);
    }
  }

  // One slice per size, each starting where the one before ends.
  method LayOut(shares: seq<Share>, sizes: seq<nat>) returns (slices: seq<WorkSlice>)
    requires |sizes| == |shares| && sizes != []
    ensures Tiles(slices, SizeSum(sizes)) && |slices| == |shares|
    ensures forall k {:trigger slices[k]} :: 0 <= k < |slices| ==>
      slices[k].domainId == shares[k].id && slices[k].end - slices[k].start == sizes[k]
  {
    var cursor := 0;
    slices := [];
    for k := 0 to |shares|
      invariant |slices| == k && cursor == SizeSum(sizes[..k])
      invariant forall j {:trigger slices[j]} :: 0 <= j < k ==>
        slices[j].domainId == shares[j].id && slices[j].end - slices[j].start == sizes[j]
      invariant k > 0 ==> Tiles(slices, cursor)
    {
      assert sizes[..k + 1][..k] == sizes[..k];
      var end := cursor + sizes[k];
      slices := slices + [WorkSlice(shares[k].id, cursor, end)];
      cursor := end;
    }
    assert sizes[..|sizes|] == sizes;
  }

  lemma SizesAddUp(total: nat, shares: seq<Share>, sizes: seq<nat>)
    requires WeightSum(shares) > 0 && |sizes| == |shares|
    requires forall k :: 0 <= k < |sizes| ==> sizes[k] == Portion(total, shares, k)
    ensures SizeSum(sizes) == total
  {
    SizesArePortions(total, shares, sizes);
    PortionsAddUp(total, shares);
  }

  method SplitWork(total: nat, shares: seq<Share>, room: nat) returns (slices: seq<WorkSlice>)
    requires WeightSum(shares) > 0 && 0 < |shares| <= room
    ensures |slices| == |shares| && Tiles(slices, total) && Proportional(slices, total, shares)
  {
    var chunks := ComputeChunks(total, shares, room);
    var sizes := chunks[..|shares|];
    SizesAddUp(total, shares, sizes);
    slices := LayOut(shares, sizes);
  }

  /**
   One slice for each of these domains, in order, under its number; each as long as the floor of its
   share of the total, by enabled members, and the first few of them one longer.
   */
  ghost predicate SlicedFor(s: Snapshot, total: nat, slices: seq<WorkSlice>, owners: seq<nat>, extra: nat) {
    && Owners(s.cpus, s.domains, owners) && |slices| == |owners|
    && var e := |EnabledPairs(s.cpus, s.domains)|;
       e > 0 && forall k {:trigger slices[k]} :: 0 <= k < |slices| ==>
         && slices[k].domainId == s.domains[owners[k]].id
         && slices[k].end - slices[k].start ==
              total * |EnabledPlaces(s.cpus, s.domains[owners[k]])| / e + if k < extra then 1 else 0
  }

  lemma SlicedByShares(s: Snapshot, total: nat, slices: seq<WorkSlice>) returns (owners: seq<nat>, extra: nat)
    requires WeightSum(SharesOf(s.cpus, s.domains)) > 0
    requires Proportional(slices, total, SharesOf(s.cpus, s.domains))
    ensures SlicedFor(s, total, slices, owners, extra)
  {
    var shares := SharesOf(s.cpus, s.domains);
    owners := SharesHaveOwners(s.cpus, s.domains);
    WeightsCounted(s.cpus, s.domains);
    RemainderFits(total, shares);
    extra := total - ChunkSum(total, WeightSum(shares), shares);
    forall k | 0 <= k < |slices|
      ensures DescribesAt(s.cpus, s.domains, owners[k], shares[k])
      ensures slices[k].end - slices[k].start ==
              total * shares[k].weight / WeightSum(shares) + if k < extra then 1 else 0
    {
      ChunkIsFloor(total, WeightSum(shares), shares[k].weight);
    }
  }

  /**
   The slices tile the work. When some NUMA domain has an enabled member, each such domain gets its
   proportion rounded down or one more, in domain order; otherwise one slice takes everything.
   */
  method PartitionWork(s: Snapshot, total: nat) returns (slices: seq<WorkSlice>)
    ensures Tiles(slices, total)
    ensures EnabledPairs(s.cpus, s.domains) == {} ==> slices == [WorkSlice(0, 0, total)]
    ensures EnabledPairs(s.cpus, s.domains) != {} ==>
              exists owners: seq<nat>, extra: nat :: SlicedFor(s, total, slices, owners, extra)
    ensures var shares := SharesOf(s.cpus, s.domains);
            shares != [] ==> WeightSum(shares) > 0 && Proportional(slices, total, shares)
  {
    var shares := CollectShares(s);
    WeightsCounted(s.cpus, s.domains);
    if shares == [] {
      return [WorkSlice(0, 0, total)];
    }
    assert WeightSum(shares) >= shares[|shares| - 1].weight > 0;
    slices := SplitWork(total, shares, |s.domains|);
    ghost var owners, extra := SlicedByShares(s, total, slices);
  }

  /** No slice is off its exact proportion by a whole unit or more. */
  lemma SlicesAreFair(slices: seq<WorkSlice>, total: nat, shares: seq<Share>, k: nat)
    requires WeightSum(shares) > 0 && Proportional(slices, total, shares) && k < |slices|
    ensures var size := slices[k].end - slices[k].start;
            && total * shares[k].weight / WeightSum(shares) <= size <= total * shares[k].weight / WeightSum(shares) + 1
            && (size == total * shares[k].weight / WeightSum(shares)
                <==> k >= total - ChunkSum(total, WeightSum(shares), shares))
  {
    assert slices[k].domainId == shares[k].id;
    ChunkIsFloor(total, WeightSum(shares), shares[k].weight);
  }
}
