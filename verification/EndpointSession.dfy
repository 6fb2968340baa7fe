/** The endpoint session that admits one numbered request at a time, and its runs. */
module EndpointSessions {
  import opened Machine
  import opened Hypermedia

  const ENDPOINT_VERSION: u16 := 1
  const ENDPOINT_OWNER: u8 := 3

  datatype EndpointError =
    | BadLease | WrongOwner | Expired | Revoked | InvalidRequest | WrongEndpoint | WrongMapping | WrongGeneration
    | BadSequence | Busy | NotInFlight

  datatype Lease = Lease(version: u16, owner: u8, reserved: u8, endpoint: u64, mapping: u64,
                         generation: u32, mappingGeneration: u32, expiryEpoch: u64)

  datatype Envelope = Envelope(version: u16, reserved: u16, endpoint: u64, mapping: u64,
                               generation: u32, mappingGeneration: u32, request: HttpIpcRequest)

  datatype Session = Session(lease: Lease, nextSequence: u32, inFlight: bool, revoked: bool)

  predicate ValidFor(l: Lease, epoch: u64) {
    && l.version == ENDPOINT_VERSION && l.owner == ENDPOINT_OWNER && l.reserved == 0 && l.endpoint != 0 && l.mapping != 0
    && l.generation != 0 && l.mappingGeneration != 0 && epoch < l.expiryEpoch
  }

  function FromBroker(endpoint: u64, mapping: u64, generation: u32, mappingGeneration: u32, expiryEpoch: u64):
    Result<Lease, EndpointError>
  {
    if endpoint == 0 || mapping == 0 || generation == 0 || mappingGeneration == 0 || expiryEpoch == 0 then Err(BadLease)
    else Ok(Lease(ENDPOINT_VERSION, ENDPOINT_OWNER, 0, endpoint, mapping, generation, mappingGeneration, expiryEpoch))
  }

  function New(lease: Lease): Session {
    Session(lease, 1, false, false)
  }

  function AuthorizeRequest(l: Lease, request: HttpIpcRequest, epoch: u64): Result<Envelope, EndpointError> {
    if l.version != ENDPOINT_VERSION || l.reserved != 0 then Err(BadLease)
    else if l.owner != ENDPOINT_OWNER then Err(WrongOwner)
    else if epoch >= l.expiryEpoch then Err(Expired)
    else if request.version != IPC_VERSION || request.sequence == 0 then Err(InvalidRequest)
    else Ok(Envelope(ENDPOINT_VERSION, 0, l.endpoint, l.mapping, l.generation, l.mappingGeneration, request))
  }

  function Prepare(s: Session, request: HttpIpcRequest, epoch: u64): Result<Envelope, EndpointError> {
    if s.revoked then Err(Revoked)
    else if s.inFlight then Err(Busy)
    else if request.sequence != s.nextSequence then Err(BadSequence)
    else AuthorizeRequest(s.lease, request, epoch)
  }

  function EnvelopeFault(s: Session, e: Envelope): Option<EndpointError> {
    if e.version != ENDPOINT_VERSION || e.reserved != 0 then Some(InvalidRequest)
    else if e.endpoint != s.lease.endpoint then Some(WrongEndpoint)
    else if e.mapping != s.lease.mapping then Some(WrongMapping)
    else if e.generation != s.lease.generation then Some(WrongGeneration)
    else if e.mappingGeneration != s.lease.mappingGeneration then Some(WrongGeneration)
    else if e.request.sequence != s.nextSequence then Some(BadSequence)
    else None
  }

  function Commit(s: Session, e: Envelope): (Session, Result<(), EndpointError>) {
    if s.revoked then (s, Err(Revoked))
    else
      var fault := EnvelopeFault(s, e);
      if fault.Some? then (s, Err(fault.value))
      else if s.inFlight then (s, Err(Busy))
      else (s.(inFlight := true), Ok(()))
  }

  /** `n.wrapping_add(1).max(1)` */
  function Successor(n: u32): u32 {
    Max((n + 1) % U32_LIMIT, 1)
  }

  function Complete(s: Session, sequence: u32): (Session, Result<(), EndpointError>) {
    if !s.inFlight then (s, Err(NotInFlight))
    else if sequence != s.nextSequence then (s, Err(BadSequence))
    else (s.(inFlight := false, nextSequence := Successor(s.nextSequence)), Ok(()))
  }

  function Revoke(s: Session): Session {
    s.(revoked := true, inFlight := false)
  }

  // ----- preparing and committing -----

  /** An idle session commits exactly the envelopes it could have prepared itself, apart from the request they carry. */
  lemma CommitsExactly(s: Session, e: Envelope)
    ensures Commit(s, e).1.Ok? <==>
              && !s.revoked && !s.inFlight && e.request.sequence == s.nextSequence
              && e == Envelope(ENDPOINT_VERSION, 0, s.lease.endpoint, s.lease.mapping, s.lease.generation,
                               s.lease.mappingGeneration, e.request)
  {
  }

  /** Whatever a session prepares it also commits, and then nothing else until it completes. */
  lemma PreparedCommits(s: Session, request: HttpIpcRequest, epoch: u64, other: Envelope)
    requires Prepare(s, request, epoch).Ok?
    ensures var e := Prepare(s, request, epoch).value;
            && Commit(s, e) == (s.(inFlight := true), Ok(()))
            && Commit(Commit(s, e).0, other).1.Err?
            && Complete(Commit(s, e).0, request.sequence).1.Ok?
  {
  }

  /**
   The broker issues a lease exactly for nonzero numbers, and it then carries them. A session on it
   prepares a request exactly while it is idle, the request has the number that is next, and the lease
   runs; the envelope carries the lease's numbers and the request itself.
   */
  lemma PreparesExactly(s: Session, request: HttpIpcRequest, epoch: u64, endpoint: u64, mapping: u64,
                        generation: u32, mappingGeneration: u32, expiryEpoch: u64)
    ensures var issued := FromBroker(endpoint, mapping, generation, mappingGeneration, expiryEpoch);
            && (issued.Ok? <==> 0 !in {endpoint, mapping, expiryEpoch} && 0 !in {generation, mappingGeneration})
            && (issued.Err? ==> issued == Err(BadLease))
            && (issued.Ok? && s.lease == issued.value ==>
                  && (ValidFor(s.lease, epoch) <==> epoch < expiryEpoch)
                  && (Prepare(s, request, epoch).Ok? <==>
                        && !s.revoked && !s.inFlight && epoch < expiryEpoch
                        && request.sequence == s.nextSequence != 0 && request.version == 1)
                  && (Prepare(s, request, epoch).Ok? ==>
                        Prepare(s, request, epoch).value ==
                          Envelope(1, 0, endpoint, mapping, generation, mappingGeneration, request)))
  {
  }

  /** A lease is valid exactly when the broker would issue it, and before it expires. */
  lemma ValidExactly(l: Lease, epoch: u64)
    ensures ValidFor(l, epoch) <==>
              && epoch < l.expiryEpoch
              && FromBroker(l.endpoint, l.mapping, l.generation, l.mappingGeneration, l.expiryEpoch) == Ok(l)
  {
  }

  /**
   Why a request is not prepared: the session first, then the lease, then the request. A lease of
   another layout is bad, one of another owner is the wrong one, and one past its last epoch has expired.
   */
  lemma PrepareFaults(s: Session, request: HttpIpcRequest, epoch: u64)
    ensures match Prepare(s, request, epoch)
            case Ok(_) => !s.revoked && !s.inFlight && request.sequence == s.nextSequence
            case Err(Revoked) => s.revoked
            case Err(Busy) => !s.revoked && s.inFlight
            case Err(BadSequence) => !s.revoked && !s.inFlight && request.sequence != s.nextSequence
            case Err(BadLease) => s.lease.version != 1 || s.lease.reserved != 0
            case Err(WrongOwner) => s.lease.version == 1 && s.lease.reserved == 0 && s.lease.owner != 3
            case Err(Expired) =>
              s.lease.version == 1 && s.lease.reserved == 0 && s.lease.owner == 3 && s.lease.expiryEpoch <= epoch
            case Err(fault) =>
              && fault == InvalidRequest && (request.version != 1 || request.sequence == 0)
              && s.lease.version == 1 && s.lease.reserved == 0 && s.lease.owner == 3 && epoch < s.lease.expiryEpoch
    ensures Prepare(s, request, epoch) == Err(Revoked) <==> s.revoked
    ensures Prepare(s, request, epoch) == Err(Busy) <==> !s.revoked && s.inFlight
  {
  }

  /** Completing fails without a request in flight, or with another number than its own; success frees the session for the next. */
  lemma CompletesExactly(s: Session, sequence: u32)
    ensures var (s', result) := Complete(s, sequence);
            && (result == Err(NotInFlight) <==> !s.inFlight)
            && (result == Err(BadSequence) <==> s.inFlight && sequence != s.nextSequence)
            && (result.Err? ==> s' == s && result.error in {NotInFlight, BadSequence})
            && (result.Ok? ==>
                  !s'.inFlight && s'.revoked == s.revoked && s'.lease == s.lease
                  && s'.nextSequence == if s.nextSequence == 0xffff_ffff then 1 else s.nextSequence + 1)
  {
  }

  /** The envelope is addressed to this lease. */
  predicate Addressed(l: Lease, e: Envelope) {
    && e.version == 1 && e.reserved == 0 && e.endpoint == l.endpoint && e.mapping == l.mapping
    && e.generation == l.generation && e.mappingGeneration == l.mappingGeneration
  }

  /** Which fault a refused envelope gets: revocation goes first, then the address, then the number, and a busy session last. */
  lemma CommitFaults(s: Session, e: Envelope)
    ensures var result := Commit(s, e).1;
            && (result == Err(Revoked) <==> s.revoked)
            && (result == Err(BadSequence) <==>
                  !s.revoked && Addressed(s.lease, e) && e.request.sequence != s.nextSequence)
            && (result == Err(Busy) <==>
                  !s.revoked && Addressed(s.lease, e) && e.request.sequence == s.nextSequence && s.inFlight)
            && (result in {Err(InvalidRequest), Err(WrongEndpoint), Err(WrongMapping), Err(WrongGeneration)} <==>
                  !s.revoked && !Addressed(s.lease, e))
            && (result.Err? ==> Commit(s, e).0 == s)
  {
  }

  /** Among the wrong addresses, the first wrong field names the fault. */
  lemma AddressFaults(s: Session, e: Envelope)
    requires !s.revoked && !Addressed(s.lease, e)
    ensures Commit(s, e).1 ==
              if e.version != 1 || e.reserved != 0 then Err(InvalidRequest)
              else if e.endpoint != s.lease.endpoint then Err(WrongEndpoint)
              else if e.mapping != s.lease.mapping then Err(WrongMapping)
              else Err(WrongGeneration)
  {
  }

  class ArgusEndpointSession {
    const lease: Lease
    var nextSequence: u32
    var inFlight: bool
    var revoked: bool

    ghost function View(): Session
      reads this
    {
      Session(lease, nextSequence, inFlight, revoked)
    }

    constructor (l: Lease)
      ensures View() == New(l)
    {
      lease, nextSequence, inFlight, revoked := l, 1, false, false;
    }

    method PrepareRequest(request: HttpIpcRequest, epoch: u64) returns (result: Result<Envelope, EndpointError>)
      ensures result == Prepare(View(), request, epoch)
    {
      if revoked {
        return Err(Revoked);
      }
      if inFlight {
        return Err(Busy);
      }
      if request.sequence != nextSequence {
        return Err(BadSequence);
      }
      return AuthorizeRequest(lease, request, epoch);
    }

    method CommitEnvelope(e: Envelope) returns (result: Result<(), EndpointError>)
      modifies this
      ensures (View(), result) == Commit(old(View()), e)
    {
      if revoked {
        return Err(Revoked);
      }
      var fault := EnvelopeFault(Session(lease, nextSequence, inFlight, revoked), e);
      if fault.Some? {
        return Err(fault.value);
      }
      if inFlight {
        return Err(Busy);
      }
      inFlight := true;
      return Ok(());
    }

    method CompleteRequest(sequence: u32) returns (result: Result<(), EndpointError>)
      modifies this
      ensures (View(), result) == Complete(old(View()), sequence)
    {
      if !inFlight {
        return Err(NotInFlight);
      }
      if sequence != nextSequence {
        return Err(BadSequence);
      }
      inFlight := false;
      nextSequence := Successor(nextSequence);
      return Ok(());
    }

    method RevokeLease()
      modifies this
      ensures View() == Revoke(old(View()))
    {
      revoked := true;
      inFlight := false;
    }
  }

  // ----- runs -----

  datatype Event = DoCommit(envelope: Envelope) | DoComplete(sequence: u32) | DoRevoke

  /** A session with its history: the envelopes committed and the numbers completed, in order. */
  datatype System = System(session: Session, committed: seq<Envelope>, completed: seq<u32>)

  function Next(s: System, e: Event): System {
    match e
    case DoCommit(envelope) =>
      var (session, result) := Commit(s.session, envelope);
      System(session, if result.Ok? then s.committed + [envelope] else s.committed, s.completed)
    case DoComplete(sequence) =>
      var (session, result) := Complete(s.session, sequence);
      System(session, s.committed, if result.Ok? then s.completed + [sequence] else s.completed)
    case DoRevoke => s.(session := Revoke(s.session))
  }

  function RunOf(lease: Lease, events: seq<Event>): System {
    if events == [] then System(New(lease), [], [])
    else Next(RunOf(lease, events[..|events| - 1]), events[|events| - 1])
  }

  /** The number of the `k`-th request: 1, 2, 3, ... up to 2^32 - 1, and then 1 again. */
  function Numbered(k: nat): u32 {
    k % (U32_LIMIT - 1) + 1
  }

  lemma NumberedNext(k: nat)
    ensures Successor(Numbered(k)) == Numbered(k + 1)
  {
  }

  ghost predicate Inv(s: System) {
    && s.session.nextSequence == Numbered(|s.completed|)
    && (forall k :: 0 <= k < |s.completed| ==> s.completed[k] == Numbered(k))
    && (forall k :: 0 <= k < |s.committed| ==> s.committed[k].request.sequence == Numbered(k))
    && |s.completed| <= |s.committed| <= |s.completed| + 1
    && (s.session.revoked ==> !s.session.inFlight)
    && (!s.session.revoked ==> (s.session.inFlight <==> |s.committed| == |s.completed| + 1))
  }

  lemma StepKeeps(s: System, e: Event)
    requires Inv(s)
    ensures Inv(Next(s, e))
  {
    NumberedNext(|s.completed|);
  }

  lemma {:induction false} RunsKeepInvariant(lease: Lease, events: seq<Event>)
    ensures Inv(RunOf(lease, events))
  {
    if events != [] {
      RunsKeepInvariant(lease, events[..|events| - 1]);
      StepKeeps(RunOf(lease, events[..|events| - 1]), events[|events| - 1]);
    }
  }

  /**
   In every run the requests are committed and completed as 1, 2, 3, ... without gaps, wrapping past
   zero, and at most one is committed and not completed.
   */
  lemma NumbersInOrder(lease: Lease, events: seq<Event>)
    ensures var s := RunOf(lease, events);
            && (forall k :: 0 <= k < |s.completed| ==> s.completed[k] == Numbered(k))
            && (forall k :: 0 <= k < |s.committed| ==> s.committed[k].request.sequence == Numbered(k))
            && |s.completed| <= |s.committed| <= |s.completed| + 1
            && (s.session.inFlight ==> |s.committed| == |s.completed| + 1)
  {
    RunsKeepInvariant(lease, events);
  }

  lemma NumberedApart(j: nat, k: nat)
    requires j < k < j + U32_LIMIT - 1
    ensures Numbered(j) != Numbered(k)
  {
    var m := U32_LIMIT - 1;
    assert j == m * (j / m) + j % m && k == m * (k / m) + k % m;
  }

  /** In every run no envelope commits twice before the numbers wrap. */
  lemma NoReplay(lease: Lease, events: seq<Event>, j: nat, k: nat)
    requires j < k < j + U32_LIMIT - 1 && k < |RunOf(lease, events).committed|
    ensures RunOf(lease, events).committed[j] != RunOf(lease, events).committed[k]
  {
    RunsKeepInvariant(lease, events);
    NumberedApart(j, k);
  }

  lemma RunExtends(lease: Lease, events: seq<Event>, e: Event)
    ensures RunOf(lease, events + [e]) == Next(RunOf(lease, events), e)
  {
    assert (events + [e])[..|events|] == events;
  }

  /** A session counts as revoked exactly when some event revoked it; a commit or completion never lifts that. */
  lemma {:induction false} RevokedExactly(lease: Lease, events: seq<Event>)
    ensures RunOf(lease, events).session.revoked <==> DoRevoke in events
    ensures RunOf(lease, events).session.lease == lease
  {
    if events != [] {
      var n := |events| - 1;
      RevokedExactly(lease, events[..n]);
      RunExtends(lease, events[..n], events[n]);
      assert events == events[..n] + [events[n]];
    }
  }

  /**
   In every run the next envelope commits exactly when nothing was revoked, every committed request
   completed, and it is addressed to the lease with the next number; and a number completes exactly
   when nothing was revoked and it is that of the one request committed and not completed.
   */
  lemma NextAccepted(lease: Lease, events: seq<Event>, e: Envelope, sequence: u32)
    ensures var s := RunOf(lease, events);
            && (RunOf(lease, events + [DoCommit(e)]).committed == s.committed + [e] <==>
                  && DoRevoke !in events && |s.committed| == |s.completed|
                  && Addressed(lease, e) && e.request.sequence == Numbered(|s.completed|))
            && (RunOf(lease, events + [DoComplete(sequence)]).completed == s.completed + [sequence] <==>
                  && DoRevoke !in events && |s.committed| == |s.completed| + 1
                  && sequence == Numbered(|s.completed|))
  {
    RunsKeepInvariant(lease, events);
    RevokedExactly(lease, events);
    RunExtends(lease, events, DoCommit(e));
    RunExtends(lease, events, DoComplete(sequence));
  }

  lemma {:induction false} RevokedStays(lease: Lease, events: seq<Event>, more: seq<Event>)
    requires RunOf(lease, events).session.revoked
    ensures RunOf(lease, events + more) == RunOf(lease, events)
    decreases |more|
  {
    if more == [] {
      assert events + more == events;
    } else {
      var n := |more| - 1;
      RevokedStays(lease, events, more[..n]);
      assert (events + more)[..|events + more| - 1] == events + more[..n];
      RunsKeepInvariant(lease, events);
    }
  }

  /**
   Once a run revokes, whatever follows, no request is committed or completed any more: preparing and
   committing report the revocation, and completing finds nothing in flight.
   */
  lemma RevocationIsFinal(lease: Lease, events: seq<Event>, more: seq<Event>)
    ensures var s, t := RunOf(lease, events), RunOf(lease, events + [DoRevoke] + more);
            && t.committed == s.committed && t.completed == s.completed
            && (forall e: Envelope :: Commit(t.session, e) == (t.session, Err(Revoked)))
            && (forall request: HttpIpcRequest, epoch: u64 :: Prepare(t.session, request, epoch) == Err(Revoked))
            && (forall sequence: u32 :: Complete(t.session, sequence) == (t.session, Err(NotInFlight)))
  {
    var now := events + [DoRevoke];
    RunExtends(lease, events, DoRevoke);
    RevokedExactly(lease, now);
    assert now[|events|] == DoRevoke;
    RevokedStays(lease, now, more);
    RunsKeepInvariant(lease, now);
  }
}
