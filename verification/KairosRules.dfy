/** Which topology replies are accepted and what becomes of their fields, in terms of the reply itself. */
module KairosRules {
  import opened Machine
  import opened Kairos

  /** The reply has a CPU, or a domain, of this number. */
  predicate ListsCpu(r: RawTopology, id: u16)
    requires r.cpuCount <= |r.cpus|
  {
    exists c :: 0 <= c < r.cpuCount && r.cpus[c].logicalId == id
  }

  predicate ListsDomain(r: RawTopology, id: u16)
    requires r.domainCount <= |r.domains|
  {
    exists j :: 0 <= j < r.domainCount && r.domains[j].id == id
  }

  /** The members a domain lists are distinct and known to the reply. */
  predicate MemberRule(r: RawTopology, d: RawDomain)
    requires d.memberCount <= |d.members| && r.cpuCount <= |r.cpus|
  {
    && (forall j, k :: 0 <= j < k < d.memberCount ==> d.members[j] != d.members[k])
    && (forall k :: 0 <= k < d.memberCount ==> ListsCpu(r, d.members[k]))
  }

  /** What domain `i` of a reply must show. */
  predicate DomainRule(r: RawTopology, m: Limits, i: nat)
    requires Sized(r, m) && r.cpuCount <= m.cpus && r.domainCount <= m.domains && i < r.domainCount
  {
    var d := r.domains[i];
    && d.kind in {0, 1} && d.memberCount <= m.members && MemberRule(r, d)
    && (d.parentValid != 0 ==> ListsDomain(r, d.parentId))
  }

  /** Both counts are in range, numbers of CPUs and of domains are unique, and every domain is as it must be. */
  predicate ReplyRule(r: RawTopology, m: Limits)
    requires Sized(r, m)
  {
    && 1 <= r.cpuCount <= m.cpus && 1 <= r.domainCount <= m.domains
    && (forall i, j :: 0 <= i < j < r.cpuCount ==> r.cpus[i].logicalId != r.cpus[j].logicalId)
    && (forall i, j :: 0 <= i < j < r.domainCount ==> r.domains[i].id != r.domains[j].id)
    && forall i :: 0 <= i < r.domainCount ==> DomainRule(r, m, i)
  }

  /** The fields of the topology a reply in range denotes. */
  lemma FieldsKept(r: RawTopology, m: Limits)
    requires Sized(r, m) && InRange(r, m)
    ensures var s := Denoted(r, m);
            && |s.cpus| == r.cpuCount <= m.cpus && |s.domains| == r.domainCount <= m.domains
            && (forall i {:trigger s.cpus[i]} {:trigger r.cpus[i]} :: 0 <= i < r.cpuCount ==>
                  && s.cpus[i].logicalId == r.cpus[i].logicalId && s.cpus[i].numaDomain == r.cpus[i].numaDomain
                  && (s.cpus[i].enabled <==> r.cpus[i].enabled != 0))
            && (forall i {:trigger s.domains[i]} {:trigger r.domains[i]} :: 0 <= i < r.domainCount ==>
                  && s.domains[i].id == r.domains[i].id
                  && (s.domains[i].kind == Numa <==> r.domains[i].kind == 1)
                  && s.domains[i].parent == (if r.domains[i].parentValid == 0 then None else Some(r.domains[i].parentId))
                  && r.domains[i].memberCount <= |r.domains[i].members|
                  && s.domains[i].members == r.domains[i].members[..r.domains[i].memberCount])
  {
    var s := Denoted(r, m);
    assert forall i :: 0 <= i < r.cpuCount ==> r.cpus[..r.cpuCount][i] == r.cpus[i];
    assert forall i :: 0 <= i < r.domainCount ==> r.domains[..r.domainCount][i] == r.domains[i];
  }

  lemma KnownExactly(r: RawTopology, m: Limits)
    requires Sized(r, m) && InRange(r, m)
    ensures var s := Denoted(r, m);
            && (forall id: u16 :: KnownCpu(s.cpus, id) <==> ListsCpu(r, id))
            && (forall id: u16 :: KnownDomain(s.domains, id) <==> ListsDomain(r, id))
  {
    FieldsKept(r, m);
    var s := Denoted(r, m);
    forall id: u16
      ensures KnownCpu(s.cpus, id) <==> ListsCpu(r, id)
      ensures KnownDomain(s.domains, id) <==> ListsDomain(r, id)
    {
      if c :| 0 <= c < r.cpuCount && r.cpus[c].logicalId == id {
        assert s.cpus[c].logicalId == id;
      }
      if j :| 0 <= j < r.domainCount && r.domains[j].id == id {
        assert s.domains[j].id == id;
      }
    }
  }

  lemma RuleFromMembers(r: RawTopology, m: Limits, i: nat)
    requires Sized(r, m) && InRange(r, m) && i < r.domainCount
    requires MembersOk(Denoted(r, m).cpus, DomainOf(r.domains[i]))
    ensures MemberRule(r, r.domains[i])
  {
    KnownExactly(r, m);
    var d, members := r.domains[i], DomainOf(r.domains[i]).members;
    forall k | 0 <= k < d.memberCount
      ensures ListsCpu(r, d.members[k])
    {
      assert KnownCpu(Denoted(r, m).cpus, members[k]);
    }
    forall j, k | 0 <= j < k < d.memberCount
      ensures d.members[j] != d.members[k]
    {
      assert members[j] != members[k];
    }
  }

  lemma MembersFromRule(r: RawTopology, m: Limits, i: nat)
    requires Sized(r, m) && InRange(r, m) && i < r.domainCount && MemberRule(r, r.domains[i])
    ensures MembersOk(Denoted(r, m).cpus, DomainOf(r.domains[i]))
  {
    KnownExactly(r, m);
    var d, members := r.domains[i], DomainOf(r.domains[i]).members;
    assert forall k :: 0 <= k < |members| ==> members[k] == d.members[k];
    forall k | 0 <= k < |members|
      ensures KnownCpu(Denoted(r, m).cpus, members[k])
    {
      assert ListsCpu(r, d.members[k]);
    }
  }

  lemma DomainExactly(r: RawTopology, m: Limits, i: nat)
    requires Sized(r, m) && InRange(r, m) && i < r.domainCount
    ensures var s := Denoted(r, m);
            i < |s.domains| && (MembersOk(s.cpus, s.domains[i]) && ParentOk(s.domains, s.domains[i]) <==> DomainRule(r, m, i))
  {
    FieldsKept(r, m);
    KnownExactly(r, m);
    assert Denoted(r, m).domains[i] == DomainOf(r.domains[i]) by {
      assert r.domains[..r.domainCount][i] == r.domains[i];
    }
    if MembersOk(Denoted(r, m).cpus, DomainOf(r.domains[i])) {
      RuleFromMembers(r, m, i);
    }
    if MemberRule(r, r.domains[i]) {
      MembersFromRule(r, m, i);
    }
  }

  lemma RuleInRange(r: RawTopology, m: Limits)
    requires Sized(r, m) && ReplyRule(r, m)
    ensures InRange(r, m)
  {
    forall i {:trigger r.domains[i]} | 0 <= i < r.domainCount
      ensures r.domains[i].memberCount <= m.members && r.domains[i].kind <= 1
    {
      assert DomainRule(r, m, i);
    }
  }

  lemma RuleFromTopology(r: RawTopology, m: Limits)
    requires Sized(r, m) && InRange(r, m) && Consistent(Denoted(r, m))
    ensures ReplyRule(r, m)
  {
    FieldsKept(r, m);
    NumbersUnique(r, m);
    var s := Denoted(r, m);
    forall i | 0 <= i < r.domainCount
      ensures DomainRule(r, m, i)
    {
      assert MembersOk(s.cpus, s.domains[i]) && ParentOk(s.domains, s.domains[i]);
      DomainExactly(r, m, i);
    }
  }

  lemma TopologyFromRule(r: RawTopology, m: Limits)
    requires Sized(r, m) && InRange(r, m) && ReplyRule(r, m)
    ensures Consistent(Denoted(r, m))
  {
    FieldsKept(r, m);
    NumbersUnique(r, m);
    var s := Denoted(r, m);
    forall i {:trigger s.domains[i]} | 0 <= i < |s.domains|
      ensures MembersOk(s.cpus, s.domains[i]) && ParentOk(s.domains, s.domains[i])
    {
      assert DomainRule(r, m, i);
      DomainExactly(r, m, i);
    }
  }

  /** A reply is accepted exactly when it follows the rule. */
  lemma AcceptsExactly(r: RawTopology, m: Limits)
    requires Sized(r, m)
    ensures InRange(r, m) && Consistent(Denoted(r, m)) <==> ReplyRule(r, m)
  {
    if ReplyRule(r, m) {
      RuleInRange(r, m);
      TopologyFromRule(r, m);
    }
    if InRange(r, m) && Consistent(Denoted(r, m)) {
      RuleFromTopology(r, m);
    }
  }

  lemma NumbersUnique(r: RawTopology, m: Limits)
    requires Sized(r, m) && InRange(r, m)
    ensures UniqueCpus(Denoted(r, m).cpus) <==>
              forall i, j :: 0 <= i < j < r.cpuCount ==> r.cpus[i].logicalId != r.cpus[j].logicalId
    ensures UniqueDomains(Denoted(r, m).domains) <==>
              forall i, j :: 0 <= i < j < r.domainCount ==> r.domains[i].id != r.domains[j].id
  {
    FieldsKept(r, m);
  }

  /** An accepted member counts for its domain exactly when the record of its CPU has a nonzero `enabled` byte. */
  lemma EnabledExactly(r: RawTopology, m: Limits, i: nat, k: nat)
    requires Sized(r, m) && ReplyRule(r, m) && i < r.domainCount && k < r.domains[i].memberCount
    ensures InRange(r, m) && i < |Denoted(r, m).domains|
    ensures k < |r.domains[i].members|
    ensures k in EnabledPlaces(Denoted(r, m).cpus, Denoted(r, m).domains[i]) <==>
              exists c :: 0 <= c < r.cpuCount && r.cpus[c].logicalId == r.domains[i].members[k] && r.cpus[c].enabled != 0
  {
    AcceptsExactly(r, m);
    FieldsKept(r, m);
    var s := Denoted(r, m);
    assert s.domains[i].members[k] == r.domains[i].members[k];
    if c :| 0 <= c < r.cpuCount && r.cpus[c].logicalId == r.domains[i].members[k] && r.cpus[c].enabled != 0 {
      assert s.cpus[c].enabled;
    }
  }
}
