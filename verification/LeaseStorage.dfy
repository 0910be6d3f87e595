/** In-memory Raft storage of the lease group: the log store, and the state machine that
    applies committed entries and exchanges snapshots. */
module LeaseStorage {
  import opened Wrappers
  import opened Lease

  type RaftNodeId = nat

  datatype LogId = LogId(term: nat, leader: RaftNodeId, index: nat)

  datatype Payload =
    | Blank
    | Membership(members: map<RaftNodeId, NodeId>)
    | Normal(request: LeaseRequest)

  datatype Entry = Entry(logId: LogId, payload: Payload)

  datatype Vote = Vote(term: nat, node: RaftNodeId, committed: bool)

  // --------------------------------------------------------------- log store

  /** The log map and the last purged id. */
  datatype Store = Store(log: map<nat, Entry>, lastPurged: Option<LogId>)

  const EMPTY_STORE := Store(map[], None)

  function Inserted(log: map<nat, Entry>, entries: seq<Entry>): map<nat, Entry> {
    if entries == [] then log
    else
      var last := entries[|entries| - 1];
      Inserted(log, entries[..|entries| - 1])[last.logId.index := last]
  }

  function Appended(s: Store, entries: seq<Entry>): Store {
    s.(log := Inserted(s.log, entries))
  }

  /** Drops `logId` and everything after it. */
  function Truncated(s: Store, logId: LogId): Store {
    s.(log := map k | k in s.log && k < logId.index :: s.log[k])
  }

  /** Drops everything up to `logId`, and remembers it. */
  function Purged(s: Store, logId: LogId): Store {
    Store(map k | k in s.log && k > logId.index :: s.log[k], Some(logId))
  }

  /** The greatest of a set of keys, if it has one. */
  ghost predicate IsGreatest(k: nat, keys: set<nat>) {
    k in keys && forall j :: j in keys ==> j <= k
  }

  lemma {:induction false} GreatestExists(keys: set<nat>)
    requires keys != {}
    ensures exists k :: IsGreatest(k, keys)
    decreases |keys|
  {
    var x :| x in keys;
    if y :| y in keys && y > x {
      var rest := keys - {x};
      assert y in rest;
      GreatestExists(rest);
      var k :| IsGreatest(k, rest);
      forall j | j in keys ensures j <= k {
        if j == x { assert y <= k; } else { assert j in rest; }
      }
      assert IsGreatest(k, keys);
    } else {
      assert IsGreatest(x, keys);
    }
  }

  datatype LogState = LogState(lastPurgedLogId: Option<LogId>, lastLogId: Option<LogId>)

  /** The id of the entry with the greatest key, else the last purged id. */
  ghost predicate IsLogState(s: Store, state: LogState) {
    && state.lastPurgedLogId == s.lastPurged
    && (s.log == map[] ==> state.lastLogId == s.lastPurged)
    && (s.log != map[] ==> exists k :: IsGreatest(k, s.log.Keys) && state.lastLogId == Some(s.log[k].logId))
  }

  /** The entries with keys from `lo` up to but excluding `hi`, in key order. */
  function RangeOf(log: map<nat, Entry>, lo: nat, hi: nat): seq<Entry>
    decreases hi - lo
  {
    if lo >= hi then []
    else (if lo in log then [log[lo]] else []) + RangeOf(log, lo + 1, hi)
  }

  class LeaseLogStore {
    var log: map<nat, Entry>
    var vote: Option<Vote>
    var lastPurgedLogId: Option<LogId>

    ghost function State(): Store
      reads this
    {
      Store(log, lastPurgedLogId)
    }

    constructor ()
      ensures State() == EMPTY_STORE && vote == None
    {
      log, vote, lastPurgedLogId := map[], None, None;
    }

    method TryGetLogEntries(lo: nat, hi: nat) returns (entries: seq<Entry>)
      requires lo <= hi
      ensures entries == RangeOf(log, lo, hi)
    {
      entries := [];
      var k := hi;
      while k > lo
        invariant lo <= k <= hi
        invariant entries == RangeOf(log, k, hi)
      {
        k := k - 1;
        if k in log {
          entries := [log[k]] + entries;
        }
      }
    }

    method GetLogState() returns (state: LogState)
      ensures IsLogState(State(), state)
    {
      var last := lastPurgedLogId;
      if log != map[] {
        assert log.Keys != {};
        GreatestExists(log.Keys);
        assert exists k :: k in log.Keys && forall j :: j in log.Keys ==> j <= k by {
          var k :| IsGreatest(k, log.Keys);
        }
        var k :| k in log.Keys && forall j :: j in log.Keys ==> j <= k;
        assert IsGreatest(k, log.Keys);
        last := Some(log[k].logId);
      }
      state := LogState(lastPurgedLogId, last);
    }

    method SaveVote(v: Vote)
      modifies this
      ensures vote == Some(v) && State() == old(State())
    {
      vote := Some(v);
    }

    method Append(entries: seq<Entry>)
      modifies this
      ensures State() == Appended(old(State()), entries) && vote == old(vote)
    {
      for i := 0 to |entries|
        invariant log == Inserted(old(log), entries[..i])
        invariant lastPurgedLogId == old(lastPurgedLogId) && vote == old(vote)
      {
        assert entries[..i + 1][..i] == entries[..i];
        log := log[entries[i].logId.index := entries[i]];
      }
      assert entries[..|entries|] == entries;
    }

    method Truncate(logId: LogId)
      modifies this
      ensures State() == Truncated(old(State()), logId) && vote == old(vote)
    {
      log := map k | k in log && k < logId.index :: log[k];
    }

    method Purge(logId: LogId)
      modifies this
      ensures State() == Purged(old(State()), logId) && vote == old(vote)
    {
      log := map k | k in log && k > logId.index :: log[k];
      lastPurgedLogId := Some(logId);
    }
  }

  // ---------------------------------------------- the log as a plain sequence

  /** A log as consensus sees it: what was purged, then consecutive entries. */
  datatype PlainLog = PlainLog(lastPurged: Option<LogId>, entries: seq<Entry>) {
    function First(): nat {
      if lastPurged.Some? then lastPurged.value.index + 1 else 0
    }

    function End(): nat {
      First() + |entries|
    }

    /** Position in `entries` of index `k`, clamped to the sequence. */
    function Clamp(k: nat): (i: nat)
      ensures i <= |entries|
    {
      if k < First() then 0 else if k > End() then |entries| else k - First()
    }
  }

  datatype LogOp = AppendOp(entries: seq<Entry>) | TruncateOp(logId: LogId) | PurgeOp(logId: LogId)

  /** What consensus promises: it appends right after the last entry, and neither truncates
      nor un-purges what was purged. */
  ghost predicate Permitted(l: PlainLog, op: LogOp) {
    match op
    case AppendOp(entries) => forall i :: 0 <= i < |entries| ==> entries[i].logId.index == l.End() + i
    case TruncateOp(logId) => logId.index >= l.First()
    case PurgeOp(logId) => logId.index + 1 >= l.First()
  }

  function PlainStep(l: PlainLog, op: LogOp): PlainLog {
    match op
    case AppendOp(entries) => l.(entries := l.entries + entries)
    case TruncateOp(logId) => l.(entries := l.entries[..l.Clamp(logId.index)])
    case PurgeOp(logId) => PlainLog(Some(logId), l.entries[l.Clamp(logId.index + 1)..])
  }

  function StoreStep(s: Store, op: LogOp): Store {
    match op
    case AppendOp(entries) => Appended(s, entries)
    case TruncateOp(logId) => Truncated(s, logId)
    case PurgeOp(logId) => Purged(s, logId)
  }

  /** The keys are exactly the interval after the last purged index, and each entry sits
      at its own index. */
  ghost predicate Refines(s: Store, l: PlainLog) {
    && s.lastPurged == l.lastPurged
    && (forall k :: k in s.log <==> l.First() <= k < l.End())
    && (forall k :: l.First() <= k < l.End() ==> s.log[k] == l.entries[k - l.First()] && s.log[k].logId.index == k)
  }

  lemma AppendOneRefines(s: Store, l: PlainLog, entry: Entry)
    requires Refines(s, l) && entry.logId.index == l.End()
    ensures Refines(s.(log := s.log[entry.logId.index := entry]), l.(entries := l.entries + [entry]))
  {
  }

  lemma {:induction false} AppendRefines(s: Store, l: PlainLog, entries: seq<Entry>)
    requires Refines(s, l) && Permitted(l, AppendOp(entries))
    ensures Refines(Appended(s, entries), PlainStep(l, AppendOp(entries)))
  {
    if entries == [] {
      assert l.entries + entries == l.entries;
    } else {
      var front, last := entries[..|entries| - 1], entries[|entries| - 1];
      AppendRefines(s, l, front);
      AppendOneRefines(Appended(s, front), PlainStep(l, AppendOp(front)), last);
      assert l.entries + entries == (l.entries + front) + [last];
    }
  }

  lemma TruncateRefines(s: Store, l: PlainLog, logId: LogId)
    requires Refines(s, l) && Permitted(l, TruncateOp(logId))
    ensures Refines(Truncated(s, logId), PlainStep(l, TruncateOp(logId)))
  {
  }

  lemma PurgeRefines(s: Store, l: PlainLog, logId: LogId)
    requires Refines(s, l) && Permitted(l, PurgeOp(logId))
    ensures Refines(Purged(s, logId), PlainStep(l, PurgeOp(logId)))
  {
  }

  lemma StepRefines(s: Store, l: PlainLog, op: LogOp)
    requires Refines(s, l) && Permitted(l, op)
    ensures Refines(StoreStep(s, op), PlainStep(l, op))
  {
    match op
    case AppendOp(entries) => AppendRefines(s, l, entries);
    case TruncateOp(logId) => TruncateRefines(s, l, logId);
    case PurgeOp(logId) => PurgeRefines(s, l, logId);
  }

  function PlainAfter(ops: seq<LogOp>): PlainLog {
    if ops == [] then PlainLog(None, []) else PlainStep(PlainAfter(ops[..|ops| - 1]), ops[|ops| - 1])
  }

  function StoreAfter(ops: seq<LogOp>): Store {
    if ops == [] then EMPTY_STORE else StoreStep(StoreAfter(ops[..|ops| - 1]), ops[|ops| - 1])
  }

  ghost predicate AllPermitted(ops: seq<LogOp>) {
    forall i :: 0 <= i < |ops| ==> Permitted(PlainAfter(ops[..i]), ops[i])
  }

  /** Under the contract, every sequence of appends, truncations and purges keeps the store
      a refinement of a plain sequence with an offset. */
  lemma {:induction false} StoreRefinesPlainLog(ops: seq<LogOp>)
    requires AllPermitted(ops)
    ensures Refines(StoreAfter(ops), PlainAfter(ops))
  {
    if ops != [] {
      var n := |ops| - 1;
      forall i | 0 <= i < n ensures Permitted(PlainAfter(ops[..n][..i]), ops[..n][i]) {
        assert ops[..n][..i] == ops[..i];
      }
      StoreRefinesPlainLog(ops[..n]);
      assert Permitted(PlainAfter(ops[..n]), ops[n]);
      StepRefines(StoreAfter(ops[..n]), PlainAfter(ops[..n]), ops[n]);
    }
  }

  /** The reported log state is that of the sequence: its last entry, else what was purged,
      even when the purge passed the end of the log. */
  lemma LogStateAgrees(s: Store, l: PlainLog, state: LogState)
    requires Refines(s, l)
    ensures IsLogState(s, state) <==>
              state == LogState(l.lastPurged,
                                if l.entries == [] then l.lastPurged else Some(l.entries[|l.entries| - 1].logId))
  {
    if l.entries != [] {
      assert l.End() - 1 in s.log;
      assert IsGreatest(l.End() - 1, s.log.Keys);
    } else {
      assert forall k :: k !in s.log;
      assert s.log == map[];
    }
  }

  /** A range read is the matching slice of the sequence, for any bounds. */
  lemma {:induction false} RangeReadAgrees(s: Store, l: PlainLog, lo: nat, hi: nat)
    requires Refines(s, l) && lo <= hi
    ensures l.Clamp(lo) <= l.Clamp(hi) && RangeOf(s.log, lo, hi) == l.entries[l.Clamp(lo)..l.Clamp(hi)]
    decreases hi - lo
  {
    if lo < hi {
      RangeReadAgrees(s, l, lo + 1, hi);
    }
  }

  // ----------------------------------------------------------- state machine

  datatype StoredMembership = StoredMembership(logId: Option<LogId>, members: map<RaftNodeId, NodeId>)

  /** What the group agrees on. */
  datatype Machine = Machine(leases: LeaseSnapshot, lastApplied: Option<LogId>, lastMembership: StoredMembership)

  const EMPTY_MACHINE := Machine(NO_LEASES, None, StoredMembership(None, map[]))

  /** Blank and membership entries are answered by a value that no caller observes. */
  const UNOBSERVED := NotLeader(None)

  function AppliedOne(m: Machine, entry: Entry, now: int): (Machine, LeaseResult) {
    var m' := m.(lastApplied := Some(entry.logId));
    match entry.payload
    case Blank => (m', UNOBSERVED)
    case Membership(members) => (m'.(lastMembership := StoredMembership(Some(entry.logId), members)), UNOBSERVED)
    case Normal(request) =>
      var (leases, result) := Handled(m.leases, request, now);
      (m'.(leases := leases), result)
  }

  /** A committed entry together with the clock reading of the replica that applies it. */
  datatype Timed = Timed(entry: Entry, now: int)

  function AppliedAll(m: Machine, entries: seq<Timed>): (Machine, seq<LeaseResult>) {
    if entries == [] then (m, [])
    else
      var (m', results) := AppliedAll(m, entries[..|entries| - 1]);
      var last := entries[|entries| - 1];
      var (m'', result) := AppliedOne(m', last.entry, last.now);
      (m'', results + [result])
  }

  /** The byte format of snapshots; either direction may fail. */
  datatype Codec = Codec(encode: LeaseSnapshot -> Option<seq<nat>>, decode: seq<nat> -> Option<LeaseSnapshot>) {
    /** What is written: nothing when encoding fails. */
    function Bytes(s: LeaseSnapshot): seq<nat> {
      if encode(s).Some? then encode(s).value else []
    }

    /** What is restored: an empty authority when decoding fails. */
    function Restored(data: seq<nat>): LeaseSnapshot {
      if decode(data).Some? then decode(data).value else NO_LEASES
    }
  }

  datatype SnapshotMeta = SnapshotMeta(
    lastLogId: Option<LogId>,
    lastMembership: StoredMembership,
    snapshotId: (nat, int))

  datatype StoredSnapshot = StoredSnapshot(meta: SnapshotMeta, data: seq<nat>)

  function Built(codec: Codec, m: Machine, nanos: int): StoredSnapshot {
    var index := if m.lastApplied.Some? then m.lastApplied.value.index else 0;
    StoredSnapshot(SnapshotMeta(m.lastApplied, m.lastMembership, (index, nanos)), codec.Bytes(m.leases))
  }

  function Installed(codec: Codec, snapshot: StoredSnapshot): Machine {
    Machine(codec.Restored(snapshot.data), snapshot.meta.lastLogId, snapshot.meta.lastMembership)
  }

  class LeaseStateMachine {
    const codec: Codec
    const authority: LeaseAuthority
    var lastApplied: Option<LogId>
    var lastMembership: StoredMembership
    var currentSnapshot: Option<StoredSnapshot>

    ghost function State(): Machine
      reads this, authority
    {
      Machine(authority.State(), lastApplied, lastMembership)
    }

    constructor (codec: Codec)
      ensures State() == EMPTY_MACHINE && currentSnapshot == None && this.codec == codec && fresh(authority)
    {
      this.codec := codec;
      authority := new LeaseAuthority();
      lastApplied, lastMembership, currentSnapshot := None, StoredMembership(None, map[]), None;
    }

    method Apply(entries: seq<Timed>) returns (responses: seq<LeaseResult>)
      modifies this, authority
      ensures (State(), responses) == AppliedAll(old(State()), entries)
      ensures currentSnapshot == old(currentSnapshot)
    {
      responses := [];
      for i := 0 to |entries|
        invariant (State(), responses) == AppliedAll(old(State()), entries[..i])
        invariant currentSnapshot == old(currentSnapshot)
      {
        assert entries[..i + 1][..i] == entries[..i];
        var entry := entries[i].entry;
        lastApplied := Some(entry.logId);
        match entry.payload {
          case Blank => responses := responses + [NotLeader(None)];
          case Membership(members) =>
            lastMembership := StoredMembership(Some(entry.logId), members);
            responses := responses + [NotLeader(None)];
          case Normal(request) =>
            var response := authority.HandleRequest(request, entries[i].now);
            responses := responses + [response.result];
        }
      }
      assert entries[..|entries|] == entries;
    }

    method BuildSnapshot(nanos: int) returns (snapshot: StoredSnapshot)
      modifies this
      ensures snapshot == Built(codec, old(State()), nanos) && currentSnapshot == Some(snapshot)
      ensures State() == old(State())
    {
      var leases := authority.Snapshot();
      var encoded := codec.encode(leases);
      var data := if encoded.Some? then encoded.value else [];
      var index := if lastApplied.Some? then lastApplied.value.index else 0;
      snapshot := StoredSnapshot(SnapshotMeta(lastApplied, lastMembership, (index, nanos)), data);
      currentSnapshot := Some(snapshot);
    }

    method InstallSnapshot(snapshot: StoredSnapshot)
      modifies this, authority
      ensures State() == Installed(codec, snapshot) && currentSnapshot == Some(snapshot)
    {
      var decoded := codec.decode(snapshot.data);
      authority.Restore(if decoded.Some? then decoded.value else NO_LEASES);
      lastApplied := snapshot.meta.lastLogId;
      lastMembership := snapshot.meta.lastMembership;
      currentSnapshot := Some(snapshot);
    }
  }

  lemma {:induction false} ApplyingSplits(m: Machine, a: seq<Timed>, b: seq<Timed>)
    ensures var (m1, r1) := AppliedAll(m, a); var (m2, r2) := AppliedAll(m1, b);
            AppliedAll(m, a + b) == (m2, r1 + r2)
  {
    if b == [] {
      assert a + b == a;
      assert AppliedAll(m, a).1 + [] == AppliedAll(m, a).1;
    } else {
      var front, last := b[..|b| - 1], b[|b| - 1];
      assert (a + b)[..|a + b| - 1] == a + front;
      ApplyingSplits(m, a, front);
      var (m1, r1) := AppliedAll(m, a);
      var (m2, r2) := AppliedAll(m1, front);
      var (m3, result) := AppliedOne(m2, last.entry, last.now);
      assert AppliedAll(m, a + b) == (m3, (r1 + r2) + [result]);
      assert (r1 + r2) + [result] == r1 + (r2 + [result]);
    }
  }

  /** After any entries, the last applied id is that of the last entry. */
  lemma LastAppliedIsLast(m: Machine, entries: seq<Timed>)
    ensures AppliedAll(m, entries).0.lastApplied
            == if entries == [] then m.lastApplied else Some(entries[|entries| - 1].entry.logId)
  {
  }

  /** The membership stands as the last membership entry set it, under that entry's id. */
  lemma {:induction false} MembershipStands(m: Machine, entries: seq<Timed>, k: nat)
    requires k < |entries| && entries[k].entry.payload.Membership?
    requires forall j :: k < j < |entries| ==> !entries[j].entry.payload.Membership?
    ensures AppliedAll(m, entries).0.lastMembership
            == StoredMembership(Some(entries[k].entry.logId), entries[k].entry.payload.members)
  {
    if k < |entries| - 1 {
      MembershipStands(m, entries[..|entries| - 1], k);
    }
  }

  lemma {:induction false} MembershipKept(m: Machine, entries: seq<Timed>)
    requires forall j :: 0 <= j < |entries| ==> !entries[j].entry.payload.Membership?
    ensures AppliedAll(m, entries).0.lastMembership == m.lastMembership
  {
    if entries != [] {
      MembershipKept(m, entries[..|entries| - 1]);
    }
  }

  /** A snapshot says how far the machine had come: after any entries, it is labelled with
      the id of the last one. */
  lemma SnapshotIsLabelled(codec: Codec, m: Machine, entries: seq<Timed>, nanos: int)
    requires entries != []
    ensures var last := entries[|entries| - 1].entry.logId;
            var meta := Built(codec, AppliedAll(m, entries).0, nanos).meta;
            meta.lastLogId == Some(last) && meta.snapshotId == (last.index, nanos)
  {
    LastAppliedIsLast(m, entries);
  }

  /** The lease requests among the entries, in order. */
  function Requested(entries: seq<Timed>): seq<Applied> {
    if entries == [] then []
    else
      var last := entries[|entries| - 1];
      Requested(entries[..|entries| - 1]) +
      match last.entry.payload
      case Normal(request) => [Applied(request, last.now)]
      case _ => []
  }

  lemma OneEntryActsAsRequest(front: seq<Timed>, last: Timed)
    requires AppliedAll(EMPTY_MACHINE, front).0.leases == StateAfter(Requested(front))
    ensures AppliedAll(EMPTY_MACHINE, front + [last]).0.leases == StateAfter(Requested(front + [last]))
    ensures var result := AppliedOne(AppliedAll(EMPTY_MACHINE, front).0, last.entry, last.now).1;
            AppliedAll(EMPTY_MACHINE, front + [last]).1 == AppliedAll(EMPTY_MACHINE, front).1 + [result]
            && (last.entry.payload.Normal? ==>
                  |Requested(front)| < |Requested(front + [last])|
                  && result == ResultAt(Requested(front + [last]), |Requested(front)|))
  {
    assert (front + [last])[..|front|] == front;
    var before, after := Requested(front), Requested(front + [last]);
    if last.entry.payload.Normal? {
      assert after[..|before|] == before;
    } else {
      assert after == before;
    }
  }

  /** The replicated machine holds exactly the leases of the requests committed so far, so
      what holds over every run of requests holds over every committed log. */
  lemma {:induction false} MachineRunsTheAuthority(entries: seq<Timed>)
    ensures AppliedAll(EMPTY_MACHINE, entries).0.leases == StateAfter(Requested(entries))
    ensures |AppliedAll(EMPTY_MACHINE, entries).1| == |entries|
  {
    if entries != [] {
      var front, last := entries[..|entries| - 1], entries[|entries| - 1];
      MachineRunsTheAuthority(front);
      OneEntryActsAsRequest(front, last);
      assert entries == front + [last];
    }
  }

  lemma {:induction false} ResponseStands(entries: seq<Timed>, i: nat)
    requires i < |entries|
    ensures |AppliedAll(EMPTY_MACHINE, entries).1| == |entries|
    ensures AppliedAll(EMPTY_MACHINE, entries).1[i]
            == AppliedOne(AppliedAll(EMPTY_MACHINE, entries[..i]).0, entries[i].entry, entries[i].now).1
    ensures Requested(entries[..i + 1]) <= Requested(entries)
  {
    MachineRunsTheAuthority(entries);
    if i == |entries| - 1 {
      assert entries[..i + 1] == entries;
    } else {
      var front := entries[..|entries| - 1];
      ResponseStands(front, i);
      MachineRunsTheAuthority(front);
      assert front[..i] == entries[..i] && front[..i + 1] == entries[..i + 1];
    }
  }

  lemma RequestLands(front: seq<Timed>, last: Timed)
    requires last.entry.payload.Normal?
    ensures Requested(front + [last]) == Requested(front) + [Applied(last.entry.payload.request, last.now)]
  {
    assert (front + [last])[..|front|] == front;
  }

  lemma AnswersOfPrefix(prefix: seq<Applied>, run: seq<Applied>, k: nat)
    requires prefix <= run && k < |prefix|
    ensures run[k] == prefix[k] && ResultAt(run, k) == ResultAt(prefix, k)
  {
    assert prefix[..k] == run[..k];
  }

  /** The response to a committed request is the authority's answer at its place among the
      requests, whatever else the log holds. */
  lemma ResponsesAreAnswers(entries: seq<Timed>, i: nat)
    requires i < |entries| && entries[i].entry.payload.Normal?
    ensures |AppliedAll(EMPTY_MACHINE, entries).1| == |entries|
    ensures var k := |Requested(entries[..i])|;
            k < |Requested(entries)|
            && Requested(entries)[k] == Applied(entries[i].entry.payload.request, entries[i].now)
            && AppliedAll(EMPTY_MACHINE, entries).1[i] == ResultAt(Requested(entries), k)
  {
    var front := entries[..i];
    ResponseStands(entries, i);
    MachineRunsTheAuthority(front);
    OneEntryActsAsRequest(front, entries[i]);
    assert entries[..i + 1] == front + [entries[i]];
    AnswersOfPrefix(Requested(front + [entries[i]]), Requested(entries), |Requested(front)|);
    RequestLands(front, entries[i]);
  }

  function AppliedBatches(m: Machine, batches: seq<seq<Timed>>): (Machine, seq<LeaseResult>)
    decreases |batches|
  {
    if batches == [] then (m, [])
    else
      var (m1, r1) := AppliedAll(m, batches[0]);
      var (m2, r2) := AppliedBatches(m1, batches[1..]);
      (m2, r1 + r2)
  }

  function Flattened(batches: seq<seq<Timed>>): seq<Timed> {
    if batches == [] then [] else batches[0] + Flattened(batches[1..])
  }

  /** How committed entries are cut into batches does not matter. */
  lemma {:induction false} BatchingIsInvisible(m: Machine, batches: seq<seq<Timed>>)
    ensures AppliedBatches(m, batches) == AppliedAll(m, Flattened(batches))
    decreases |batches|
  {
    if batches != [] {
      var (m1, r1) := AppliedAll(m, batches[0]);
      BatchingIsInvisible(m1, batches[1..]);
      ApplyingSplits(m, batches[0], Flattened(batches[1..]));
    }
  }

  /** The bytes written for these leases are read as these leases. */
  ghost predicate Survives(codec: Codec, leases: LeaseSnapshot) {
    codec.Restored(codec.Bytes(leases)) == leases
  }

  /** Installing the snapshot and applying `batches` is as good as having applied everything. */
  ghost predicate CatchesUp(m: Machine, prefix: seq<Timed>, restored: Machine, batches: seq<seq<Timed>>) {
    var whole := AppliedAll(m, prefix + Flattened(batches));
    && AppliedBatches(restored, batches).0 == whole.0
    && AppliedAll(m, prefix).1 + AppliedBatches(restored, batches).1 == whole.1
  }

  /** A replica that installs a snapshot built after `prefix` and then applies a suffix ends
      in the state of one that applied everything, and gives the same answers for the
      suffix, for every suffix in any batches, exactly if that one snapshot's bytes are read
      back as they were written. */
  lemma SnapshotPlusSuffixEqualsReplayIff(codec: Codec, m: Machine, prefix: seq<Timed>, nanos: int)
    ensures var built := AppliedAll(m, prefix).0;
            (forall batches :: CatchesUp(m, prefix, Installed(codec, Built(codec, built, nanos)), batches))
            <==> Survives(codec, built.leases)
  {
    var m' := AppliedAll(m, prefix).0;
    var restored := Installed(codec, Built(codec, m', nanos));
    if Survives(codec, m'.leases) {
      assert restored == m';
      forall batches ensures CatchesUp(m, prefix, restored, batches) {
        BatchingIsInvisible(m', batches);
        ApplyingSplits(m, prefix, Flattened(batches));
      }
    }
    if CatchesUp(m, prefix, restored, []) {
      assert prefix + Flattened([]) == prefix;
      assert restored == m';
    }
  }

  /** The next holder of any session, whenever it comes, starts again at epoch 1. */
  ghost predicate Forgotten(leases: LeaseSnapshot) {
    forall id, session, holder, ttl, now ::
      Handled(leases, LeaseRequest(id, session, Acquire(holder, ttl)), now).1 == Granted(1, now + ttl)
  }

  /** A received snapshot wipes out every lease and every epoch exactly if its bytes cannot
      be decoded, or say that nothing was ever held. */
  lemma ReceivedSnapshotForgetsIff(codec: Codec, snapshot: StoredSnapshot)
    ensures Forgotten(Installed(codec, snapshot).leases)
            <==> match codec.decode(snapshot.data)
                 case None => true
                 case Some(sent) => sent.leases == map[] && forall session :: EpochOf(sent, session) == 0
  {
    var leases := Installed(codec, snapshot).leases;
    forall session | session in leases.leases ensures !Forgotten(leases) {
      var early := leases.leases[session].expiresAt - 1;
      assert Handled(leases, LeaseRequest(0, session, Acquire([], 0)), early).1.Denied?;
    }
    forall session | session !in leases.leases && EpochOf(leases, session) != 0 ensures !Forgotten(leases) {
      assert Handled(leases, LeaseRequest(0, session, Acquire([], 0)), 0).1 == Granted(EpochOf(leases, session) + 1, 0);
    }
  }

  /** So once any session has been granted, a snapshot of those leases is forgotten by its
      receiver exactly if it arrives unreadable. */
  lemma ReceivedGrantsAreForgottenIff(codec: Codec, snapshot: StoredSnapshot, run: seq<Applied>, session: SessionId)
    requires Tenures(run, session) != []
    requires codec.decode(snapshot.data) in {None, Some(StateAfter(run))}
    ensures Forgotten(Installed(codec, snapshot).leases) <==> codec.decode(snapshot.data).None?
  {
    EpochsAreGapless(run, session);
    ReceivedSnapshotForgetsIff(codec, snapshot);
  }
}
