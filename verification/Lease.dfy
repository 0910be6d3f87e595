/** The replicated lease authority: fencing epochs per session, and what they guarantee
    over whole runs. Instants and durations are integers; the clock reading that the
    source takes inside `acquire` and `renew` is an input of each request. */
module Lease {
  import opened Wrappers

  type SessionId = nat
  type NodeId = seq<nat>

  datatype LeaseOp =
    | Acquire(holder: NodeId, ttl: int)
    | Renew(holder: NodeId, epoch: nat, ttl: int)
    | Release(holder: NodeId, epoch: nat)

  datatype LeaseRequest = LeaseRequest(requestId: nat, sessionId: SessionId, op: LeaseOp)

  datatype LeaseResult =
    | Granted(epoch: nat, expiresAt: int)
    | Renewed(expiresAt: int)
    | Denied(currentHolder: NodeId, currentEpoch: nat)
    | NotLeader(leaderHint: Option<NodeId>)

  /** The answer to a request carries the request's id. */
  datatype LeaseResponse = LeaseResponse(requestId: nat, result: LeaseResult)

  datatype LeaseEntry = LeaseEntry(holder: NodeId, epoch: nat, expiresAt: int) {
    predicate HasExpired(t: int) { expiresAt <= t }
  }

  /** The default instant, which a successful release reports. */
  const UNIX_EPOCH := 0

  datatype LeaseSnapshot = LeaseSnapshot(leases: map<SessionId, LeaseEntry>, epochs: map<SessionId, nat>)

  const NO_LEASES := LeaseSnapshot(map[], map[])

  function EpochOf(s: LeaseSnapshot, session: SessionId): nat {
    if session in s.epochs then s.epochs[session] else 0
  }

  /** Entry of `session` that a holder presenting `holder` and `epoch` may act on. */
  predicate Holds(s: LeaseSnapshot, session: SessionId, holder: NodeId, epoch: nat) {
    session in s.leases && s.leases[session].holder == holder && s.leases[session].epoch == epoch
  }

  function Refusal(s: LeaseSnapshot, session: SessionId, holder: NodeId): LeaseResult {
    if session in s.leases then Denied(s.leases[session].holder, s.leases[session].epoch) else Denied(holder, 0)
  }

  /** One request at the clock reading `now`. */
  function Handled(s: LeaseSnapshot, request: LeaseRequest, now: int): (LeaseSnapshot, LeaseResult) {
    var session := request.sessionId;
    match request.op
    case Acquire(holder, ttl) =>
      if session in s.leases && !s.leases[session].HasExpired(now) then (s, Refusal(s, session, holder))
      else
        var epoch := EpochOf(s, session) + 1;
        (LeaseSnapshot(s.leases[session := LeaseEntry(holder, epoch, now + ttl)], s.epochs[session := epoch]),
         Granted(epoch, now + ttl))
    case Renew(holder, epoch, ttl) =>
      if Holds(s, session, holder, epoch) then
        (s.(leases := s.leases[session := LeaseEntry(holder, epoch, now + ttl)]), Renewed(now + ttl))
      else (s, Refusal(s, session, holder))
    case Release(holder, epoch) =>
      if Holds(s, session, holder, epoch) then (s.(leases := s.leases - {session}), Renewed(UNIX_EPOCH))
      else (s, Refusal(s, session, holder))
  }

  class LeaseAuthority {
    var leases: map<SessionId, LeaseEntry>
    var epochs: map<SessionId, nat>

    ghost function State(): LeaseSnapshot
      reads this
    {
      LeaseSnapshot(leases, epochs)
    }

    constructor ()
      ensures State() == NO_LEASES
    {
      leases := map[];
      epochs := map[];
    }

    method HandleRequest(request: LeaseRequest, now: int) returns (response: LeaseResponse)
      modifies this
      ensures response.requestId == request.requestId
      ensures (State(), response.result) == Handled(old(State()), request, now)
    {
      var result;
      match request.op {
        case Acquire(holder, ttl) => result := AcquireLease(request.sessionId, holder, ttl, now);
        case Renew(holder, epoch, ttl) => result := RenewLease(request.sessionId, holder, epoch, ttl, now);
        case Release(holder, epoch) => result := ReleaseLease(request.sessionId, holder, epoch);
      }
      response := LeaseResponse(request.requestId, result);
    }

    method ReleaseLease(session: SessionId, holder: NodeId, epoch: nat) returns (result: LeaseResult)
      modifies this
      ensures forall id, now ::
              (State(), result) == Handled(old(State()), LeaseRequest(id, session, Release(holder, epoch)), now)
    {
      if session in leases {
        var lease := leases[session];
        if lease.holder == holder && lease.epoch == epoch {
          leases := leases - {session};
          return Renewed(UNIX_EPOCH);
        }
        return Denied(lease.holder, lease.epoch);
      }
      result := Denied(holder, 0);
    }

    method RenewLease(session: SessionId, holder: NodeId, epoch: nat, ttl: int, now: int) returns (result: LeaseResult)
      modifies this
      ensures forall id ::
              (State(), result) == Handled(old(State()), LeaseRequest(id, session, Renew(holder, epoch, ttl)), now)
    {
      if session !in leases {
        result := Denied(holder, 0);
      } else if leases[session].holder == holder && leases[session].epoch == epoch {
        leases := leases[session := leases[session].(expiresAt := now + ttl)];
        result := Renewed(leases[session].expiresAt);
      } else {
        result := Denied(leases[session].holder, leases[session].epoch);
      }
    }

    method AcquireLease(session: SessionId, holder: NodeId, ttl: int, now: int) returns (result: LeaseResult)
      modifies this
      ensures forall id ::
              (State(), result) == Handled(old(State()), LeaseRequest(id, session, Acquire(holder, ttl)), now)
    {
      if session in leases && !leases[session].HasExpired(now) {
        return Denied(leases[session].holder, leases[session].epoch);
      }
      epochs := epochs[session := if session in epochs then epochs[session] + 1 else 1];
      var entry := LeaseEntry(holder, epochs[session], now + ttl);
      leases := leases[session := entry];
      result := Granted(epochs[session], now + ttl);
    }

    method Snapshot() returns (snapshot: LeaseSnapshot)
      ensures snapshot == State()
    {
      snapshot := LeaseSnapshot(leases, epochs);
    }

    method Restore(snapshot: LeaseSnapshot)
      modifies this
      ensures State() == snapshot
    {
      leases := snapshot.leases;
      epochs := snapshot.epochs;
    }
  }

  // -------------------------------------------------------------------- runs

  /** A request as applied: with the clock reading taken for it. */
  datatype Applied = Applied(request: LeaseRequest, now: int)

  function StateAfter(run: seq<Applied>): LeaseSnapshot {
    if run == [] then NO_LEASES
    else
      var last := run[|run| - 1];
      Handled(StateAfter(run[..|run| - 1]), last.request, last.now).0
  }

  /** The answer given to the request at position `i`. */
  function ResultAt(run: seq<Applied>, i: nat): LeaseResult
    requires i < |run|
  {
    Handled(StateAfter(run[..i]), run[i].request, run[i].now).1
  }

  ghost predicate NonDecreasing(run: seq<Applied>) {
    forall i, j :: 0 <= i < j < |run| ==> run[i].now <= run[j].now
  }

  /** A period during which one holder had one epoch of a session, as the requests and the
      answers tell it: from its grant until its last recorded expiry, or until it was
      released if that came first. */
  datatype Tenure = Tenure(holder: NodeId, epoch: nat, start: int, until: int, released: bool)

  function WithLast(tenures: seq<Tenure>, last: Tenure): seq<Tenure>
    requires tenures != []
  {
    tenures[|tenures| - 1 := last]
  }

  /** What one answered request adds to the history of a session. */
  function Recorded(tenures: seq<Tenure>, op: LeaseOp, now: int, result: LeaseResult): seq<Tenure> {
    match (op, result)
    case (Acquire(holder, _), Granted(epoch, expiresAt)) => tenures + [Tenure(holder, epoch, now, expiresAt, false)]
    case (Renew(_, _, _), Renewed(expiresAt)) =>
      if tenures == [] then [] else WithLast(tenures, tenures[|tenures| - 1].(until := expiresAt))
    case (Release(_, _), Renewed(_)) =>
      if tenures == [] then [] else
        var last := tenures[|tenures| - 1];
        WithLast(tenures, last.(until := if now < last.until then now else last.until, released := true))
    case _ => tenures
  }

  function Tenures(run: seq<Applied>, session: SessionId): seq<Tenure> {
    if run == [] then []
    else
      var n := |run| - 1;
      var before := Tenures(run[..n], session);
      if run[n].request.sessionId == session then Recorded(before, run[n].request.op, run[n].now, ResultAt(run, n))
      else before
  }

  /** The state is what the history says: as many epochs as grants, and an entry exactly
      for the latest grant that has not been released, with its last recorded expiry. */
  ghost predicate Explains(tenures: seq<Tenure>, s: LeaseSnapshot, session: SessionId) {
    && EpochOf(s, session) == |tenures|
    && (forall i :: 0 <= i < |tenures| ==> tenures[i].epoch == i + 1)
    && (session in s.leases <==> tenures != [] && !tenures[|tenures| - 1].released)
    && (session in s.leases ==>
          var last := tenures[|tenures| - 1];
          s.leases[session] == LeaseEntry(last.holder, last.epoch, last.until))
  }

  lemma ExplainsOneMore(tenures: seq<Tenure>, s: LeaseSnapshot, a: Applied, session: SessionId)
    requires Explains(tenures, s, session)
    ensures var (s', result) := Handled(s, a.request, a.now);
            var tenures' := Recorded(tenures, a.request.op, a.now, result);
            Explains(if a.request.sessionId == session then tenures' else tenures, s', session)
  {
  }

  /** Grants of a session are numbered 1, 2, 3, ... without gaps, whatever the clock does,
      and the state never disagrees with the history. */
  lemma {:induction false} EpochsAreGapless(run: seq<Applied>, session: SessionId)
    ensures Explains(Tenures(run, session), StateAfter(run), session)
  {
    if run != [] {
      var front, last := run[..|run| - 1], run[|run| - 1];
      EpochsAreGapless(front, session);
      ExplainsOneMore(Tenures(front, session), StateAfter(front), last, session);
    }
  }

  /** A renewal or a release succeeds exactly for the holder and epoch of the latest grant
      of the session, provided that grant has not been released. */
  lemma OnlyLatestUnreleasedGrantActs(run: seq<Applied>, i: nat)
    requires i < |run| && !run[i].request.op.Acquire?
    ensures var op, tenures := run[i].request.op, Tenures(run[..i], run[i].request.sessionId);
            ResultAt(run, i).Renewed? <==>
              && tenures != []
              && var latest := tenures[|tenures| - 1];
                 !latest.released && latest.holder == op.holder && latest.epoch == op.epoch
  {
    EpochsAreGapless(run[..i], run[i].request.sessionId);
  }

  /** A grant is given exactly when the previous tenure, if any, was released or its last
      recorded expiry had passed; it carries the next epoch. */
  lemma GrantNeedsEndedTenure(run: seq<Applied>, i: nat)
    requires i < |run| && run[i].request.op.Acquire?
    ensures var tenures := Tenures(run[..i], run[i].request.sessionId);
            && (ResultAt(run, i).Granted? <==>
                 tenures == [] || tenures[|tenures| - 1].released || tenures[|tenures| - 1].until <= run[i].now)
            && (ResultAt(run, i).Granted? ==> ResultAt(run, i).epoch == |tenures| + 1)
  {
    EpochsAreGapless(run[..i], run[i].request.sessionId);
  }

  /** Tenures start in the past, released ones ended there, and each ends before the next
      one starts. */
  ghost predicate Disjoint(tenures: seq<Tenure>, now: int) {
    && (forall i :: 0 <= i < |tenures| ==> tenures[i].start <= now && (tenures[i].released ==> tenures[i].until <= now))
    && (forall i, j :: 0 <= i < j < |tenures| ==> tenures[i].until <= tenures[j].start)
  }

  lemma DisjointLater(tenures: seq<Tenure>, now: int, later: int)
    requires Disjoint(tenures, now) && now <= later
    ensures Disjoint(tenures, later)
  {
  }

  /** A tenure that starts once the last one has ended is apart from all. */
  lemma DisjointGrant(tenures: seq<Tenure>, next: Tenure, now: int)
    requires Disjoint(tenures, now) && next.start == now && !next.released
    requires tenures != [] ==> tenures[|tenures| - 1].until <= now
    ensures Disjoint(tenures + [next], now)
  {
    var n := |tenures|;
    forall i | 0 <= i < n ensures tenures[i].until <= now {
      if i < n - 1 {
        assert tenures[i].until <= tenures[n - 1].start;
      }
    }
  }

  /** Only the end of the last tenure is ever moved. */
  lemma DisjointLast(tenures: seq<Tenure>, last: Tenure, now: int)
    requires Disjoint(tenures, now) && tenures != []
    requires last.start == tenures[|tenures| - 1].start && (last.released ==> last.until <= now)
    ensures Disjoint(WithLast(tenures, last), now)
  {
  }

  lemma DisjointOneMore(tenures: seq<Tenure>, s: LeaseSnapshot, a: Applied, now: int)
    requires Explains(tenures, s, a.request.sessionId) && Disjoint(tenures, now) && now <= a.now
    ensures Disjoint(Recorded(tenures, a.request.op, a.now, Handled(s, a.request, a.now).1), a.now)
  {
    var result := Handled(s, a.request, a.now).1;
    DisjointLater(tenures, now, a.now);
    match a.request.op
    case Acquire(holder, _) =>
      if result.Granted? {
        DisjointGrant(tenures, Tenure(holder, result.epoch, a.now, result.expiresAt, false), a.now);
      }
    case Renew(_, _, _) =>
      if result.Renewed? {
        DisjointLast(tenures, tenures[|tenures| - 1].(until := result.expiresAt), a.now);
      }
    case Release(_, _) =>
      if result.Renewed? {
        var last := tenures[|tenures| - 1];
        var until := if a.now < last.until then a.now else last.until;
        DisjointLast(tenures, last.(until := until, released := true), a.now);
      }
  }

  /** Over every run with non-decreasing clock readings, the validity windows of different
      epochs of a session never overlap. */
  lemma {:induction false} WindowsNeverOverlap(run: seq<Applied>, session: SessionId, now: int)
    requires NonDecreasing(run)
    requires run != [] ==> run[|run| - 1].now <= now
    ensures Disjoint(Tenures(run, session), now)
  {
    if run != [] {
      var front, last := run[..|run| - 1], run[|run| - 1];
      WindowsNeverOverlap(front, session, last.now);
      if last.request.sessionId == session {
        EpochsAreGapless(front, session);
        DisjointOneMore(Tenures(front, session), StateAfter(front), last, last.now);
      }
    }
  }

  // ------------------------------------------ runs told by requests and readings

  /** The request at position `i` changed the lease of its session. */
  predicate Succeeds(run: seq<Applied>, i: nat)
    requires i < |run|
  {
    !ResultAt(run, i).Denied?
  }

  /** The request at `i` set the lease of its session, and no request between `i` and `j`
      changed it again. */
  ghost predicate StandsUntil(run: seq<Applied>, i: nat, j: nat)
    requires i < j <= |run|
  {
    && !run[i].request.op.Release? && Succeeds(run, i)
    && forall k: nat :: i < k < j && run[k].request.sessionId == run[i].request.sessionId ==> !Succeeds(run, k)
  }

  lemma OneRequestLater(run: seq<Applied>, j: nat)
    requires j < |run|
    ensures StateAfter(run[..j + 1]) == Handled(StateAfter(run[..j]), run[j].request, run[j].now).0
  {
    assert run[..j + 1][..j] == run[..j];
  }

  /** The lease is what `a` asks for: held by its sender, for its term from its reading. */
  predicate IsAsAsked(s: LeaseSnapshot, a: Applied)
    requires !a.request.op.Release?
  {
    && a.request.sessionId in s.leases
    && s.leases[a.request.sessionId].holder == a.request.op.holder
    && s.leases[a.request.sessionId].expiresAt == a.now + a.request.op.ttl
  }

  lemma SuccessIsAsAsked(s: LeaseSnapshot, a: Applied)
    requires !a.request.op.Release? && !Handled(s, a.request, a.now).1.Denied?
    ensures IsAsAsked(Handled(s, a.request, a.now).0, a)
  {
  }

  lemma OthersLeaveLease(s: LeaseSnapshot, a: Applied, b: Applied)
    requires !a.request.op.Release? && IsAsAsked(s, a)
    requires b.request.sessionId != a.request.sessionId || Handled(s, b.request, b.now).1.Denied?
    ensures IsAsAsked(Handled(s, b.request, b.now).0, a)
  {
  }

  /** A lease stands as its last successful acquisition or renewal asked for it. */
  lemma {:induction false} LeaseStandsAsAsked(run: seq<Applied>, i: nat, j: nat)
    requires i < j <= |run| && StandsUntil(run, i, j)
    ensures IsAsAsked(StateAfter(run[..j]), run[i])
    decreases j
  {
    var last: nat := j - 1;
    OneRequestLater(run, last);
    if i == last {
      SuccessIsAsAsked(StateAfter(run[..i]), run[i]);
    } else {
      assert run[last].request.sessionId == run[i].request.sessionId ==> !Succeeds(run, last);
      LeaseStandsAsAsked(run, i, last);
      OthersLeaveLease(StateAfter(run[..last]), run[i], run[last]);
    }
  }

  /** Over every run, an acquisition is granted exactly if the term that the last successful
      acquisition or renewal asked for has passed since its reading. */
  lemma GrantedIffTermHasPassed(run: seq<Applied>, i: nat, j: nat)
    requires i < j < |run| && StandsUntil(run, i, j)
    requires run[j].request.sessionId == run[i].request.sessionId && run[j].request.op.Acquire?
    ensures ResultAt(run, j).Granted? <==> run[j].now >= run[i].now + run[i].request.op.ttl
    ensures ResultAt(run, j).Granted? ==> ResultAt(run, j).expiresAt == run[j].now + run[j].request.op.ttl
  {
    LeaseStandsAsAsked(run, i, j);
  }

  /** A successful renewal is told the term it asked for, from its reading. */
  lemma RenewedForItsTerm(run: seq<Applied>, i: nat)
    requires i < |run| && run[i].request.op.Renew? && Succeeds(run, i)
    ensures ResultAt(run, i) == Renewed(run[i].now + run[i].request.op.ttl)
  {
  }

  /** Without a lease, an acquisition is granted for its term; after a release there is none. */
  lemma UnleasedIsGranted(run: seq<Applied>, j: nat)
    requires j < |run| && run[j].request.op.Acquire?
    requires run[j].request.sessionId !in StateAfter(run[..j]).leases
    ensures ResultAt(run, j).Granted? && ResultAt(run, j).expiresAt == run[j].now + run[j].request.op.ttl
  {
  }

  lemma ReleasedIsUnleased(run: seq<Applied>, i: nat)
    requires i < |run| && run[i].request.op.Release? && Succeeds(run, i)
    ensures run[i].request.sessionId !in StateAfter(run[..i + 1]).leases && ResultAt(run, i) == Renewed(UNIX_EPOCH)
  {
    OneRequestLater(run, i);
  }

  /** A refusal names the holder and epoch of the session's latest grant unless it has been
      released; with no such grant, the refused node itself and epoch 0. */
  lemma RefusalNamesTenant(run: seq<Applied>, i: nat)
    requires i < |run| && !Succeeds(run, i)
    ensures var tenures := Tenures(run[..i], run[i].request.sessionId);
            ResultAt(run, i) == if tenures != [] && !tenures[|tenures| - 1].released
                                then Denied(tenures[|tenures| - 1].holder, tenures[|tenures| - 1].epoch)
                                else Denied(run[i].request.op.holder, 0)
  {
    EpochsAreGapless(run[..i], run[i].request.sessionId);
  }

  // ------------------------------------------------- expiries a holder was told

  /** The expiries announced to the present holder of a session since its grant. */
  function Expiries(run: seq<Applied>, session: SessionId): seq<int> {
    if run == [] then []
    else
      var n := |run| - 1;
      var before := Expiries(run[..n], session);
      if run[n].request.sessionId != session then before
      else match (run[n].request.op, ResultAt(run, n))
        case (Acquire(_, _), Granted(_, expiresAt)) => [expiresAt]
        case (Renew(_, _, _), Renewed(expiresAt)) => before + [expiresAt]
        case (Release(_, _), Renewed(_)) => []
        case _ => before
  }

  /** The authority goes by the last announced expiry. */
  lemma {:induction false} LastExpiryCounts(run: seq<Applied>, session: SessionId)
    ensures var s, told := StateAfter(run), Expiries(run, session);
            && (session in s.leases <==> told != [])
            && (session in s.leases ==> s.leases[session].expiresAt == told[|told| - 1])
  {
    if run != [] {
      LastExpiryCounts(run[..|run| - 1], session);
    }
  }

  predicate IsAcquisition(request: LeaseRequest, session: SessionId) {
    request.sessionId == session && request.op.Acquire?
  }

  /** Every succession respects everything that the holder was told, whenever the next
      acquisition comes, exactly when no expiry announced to it lies beyond the last one:
      a renewal that brought the expiry forward, and was not made up for since, is the only
      way to be succeeded early. */
  lemma ExpiriesAreHonoredIff(run: seq<Applied>, session: SessionId)
    ensures var s, told := StateAfter(run), Expiries(run, session);
            (forall request: LeaseRequest, now, e | IsAcquisition(request, session) && e in told ::
               Handled(s, request, now).1.Granted? ==> e <= now)
            <==> forall e :: e in told ==> e <= told[|told| - 1]
  {
    LastExpiryCounts(run, session);
    var told := Expiries(run, session);
    if e :| e in told && e > told[|told| - 1] {
      var request := LeaseRequest(0, session, Acquire([], 0));
      assert IsAcquisition(request, session) && Handled(StateAfter(run), request, told[|told| - 1]).1.Granted?;
    }
  }

  lemma ShorteningWitness()
    ensures exists run: seq<Applied> ::
              && NonDecreasing(run) && |run| == 3 && ResultAt(run, 2).Granted?
              && Expiries(run[..2], 0) == [100, 50] && run[2].now == 60
  {
    var grant := Applied(LeaseRequest(0, 0, Acquire([1], 100)), 0);
    var renew := Applied(LeaseRequest(1, 0, Renew([1], 1, 40)), 10);
    var other := Applied(LeaseRequest(2, 0, Acquire([2], 100)), 60);
    var run := [grant, renew, other];
    assert run[..0] == [] && run[..1] == [grant] && run[..2] == [grant, renew];
    assert [grant, renew][..1] == [grant] && [grant][..0] == [];
    assert StateAfter([grant]).leases[0] == LeaseEntry([1], 1, 100);
    assert StateAfter([grant, renew]).leases[0] == LeaseEntry([1], 1, 50);
    assert Expiries([grant], 0) == [100];
  }

  // --------------------------------------------------- replicas with own clocks

  /** Two replicas in the same state that read different clocks for the same request stay
      in the same state with the same answer exactly if it is a release, a renewal by
      someone who does not hold the lease, or an acquisition of a lease that has not
      expired on either clock. */
  lemma ReplicasAgreeIff(s: LeaseSnapshot, request: LeaseRequest, now: int, later: int)
    requires now != later
    ensures Handled(s, request, now) == Handled(s, request, later) <==>
              match request.op
              case Release(_, _) => true
              case Renew(holder, epoch, _) => !Holds(s, request.sessionId, holder, epoch)
              case Acquire(_, _) =>
                && request.sessionId in s.leases
                && now < s.leases[request.sessionId].expiresAt && later < s.leases[request.sessionId].expiresAt
  {
    var a, b := Handled(s, request, now), Handled(s, request, later);
    if request.op.Acquire? && a.1.Granted? && b.1.Granted? {
      assert a.1.expiresAt != b.1.expiresAt;
    }
  }

  /** The same epochs, held by the same nodes; expiries may differ. */
  ghost predicate SameTenants(s: LeaseSnapshot, t: LeaseSnapshot) {
    && s.epochs == t.epochs
    && s.leases.Keys == t.leases.Keys
    && forall session :: session in s.leases ==>
         s.leases[session].holder == t.leases[session].holder && s.leases[session].epoch == t.leases[session].epoch
  }

  /** The test that decides an acquisition. */
  predicate Grantable(s: LeaseSnapshot, session: SessionId, now: int) {
    session !in s.leases || s.leases[session].HasExpired(now)
  }

  predicate SameTest(s: LeaseSnapshot, t: LeaseSnapshot, request: LeaseRequest, now: int, now': int) {
    request.op.Acquire? ==> (Grantable(s, request.sessionId, now) <==> Grantable(t, request.sessionId, now'))
  }

  lemma TenantsStayIff(s: LeaseSnapshot, t: LeaseSnapshot, request: LeaseRequest, now: int, now': int)
    requires SameTenants(s, t)
    ensures SameTenants(Handled(s, request, now).0, Handled(t, request, now').0) <==> SameTest(s, t, request, now, now')
  {
    var session, s', t' := request.sessionId, Handled(s, request, now).0, Handled(t, request, now').0;
    if !SameTest(s, t, request, now, now') {
      assert EpochOf(s', session) != EpochOf(t', session);
    }
  }

  /** The same requests, each replica with its own readings. */
  ghost predicate SameRequests(a: seq<Applied>, b: seq<Applied>) {
    |a| == |b| && forall i :: 0 <= i < |a| ==> a[i].request == b[i].request
  }

  ghost predicate AlwaysSameTenants(a: seq<Applied>, b: seq<Applied>)
    requires |a| == |b|
  {
    a == [] || (AlwaysSameTenants(a[..|a| - 1], b[..|b| - 1]) && SameTenants(StateAfter(a), StateAfter(b)))
  }

  ghost predicate AlwaysSameTest(a: seq<Applied>, b: seq<Applied>)
    requires |a| == |b|
  {
    a == [] ||
    var n := |a| - 1;
    && AlwaysSameTest(a[..n], b[..n])
    && SameTest(StateAfter(a[..n]), StateAfter(b[..n]), a[n].request, a[n].now, b[n].now)
  }

  /** Over any run of requests, two replicas with clocks of their own agree throughout on
      who holds which epoch exactly as long as each acquisition's expiry test comes out
      alike on both. */
  lemma {:induction false} ReplicasKeepTenantsIff(a: seq<Applied>, b: seq<Applied>)
    requires SameRequests(a, b)
    ensures AlwaysSameTenants(a, b) <==> AlwaysSameTest(a, b)
    ensures AlwaysSameTenants(a, b) ==> SameTenants(StateAfter(a), StateAfter(b))
  {
    if a != [] {
      var n := |a| - 1;
      ReplicasKeepTenantsIff(a[..n], b[..n]);
      if AlwaysSameTenants(a[..n], b[..n]) {
        TenantsStayIff(StateAfter(a[..n]), StateAfter(b[..n]), a[n].request, a[n].now, b[n].now);
      }
    }
  }

  /** Agreement can fail even on who holds the lease: one replica grants what the other refuses. */
  lemma UnequalReadingsDiverge()
    ensures exists s, request, now, later ::
              && Handled(s, request, now).1.Denied? && Handled(s, request, later).1.Granted?
              && Handled(s, request, now).0 != Handled(s, request, later).0
  {
    var s := LeaseSnapshot(map[0 := LeaseEntry([1], 1, 10)], map[0 := 1]);
    var request := LeaseRequest(0, 0, Acquire([2], 5));
    assert Handled(s, request, 9).1.Denied?;
    assert Handled(s, request, 10).1.Granted?;
    assert Handled(s, request, 10).0.epochs[0] == 2;
    assert Handled(s, request, 9).0 != Handled(s, request, 10).0;
  }
}
