/** Call and reply over a medium that may lose, duplicate and reorder messages. */
module Rpc {
  import opened Wrappers
  import opened Json

  type RpcId = nat
  type NodeId = seq<nat>

  datatype RpcError = NoExecutorFound(name: string) | TransportError(reason: string)

  type RpcResult = Result<Value, RpcError>

  datatype RpcCall = RpcCall(id: RpcId, name: string, args: Value)

  datatype RpcMessage =
    | Call(call: RpcCall)
    | Ack(id: RpcId)
    | Reply(id: RpcId, result: RpcResult)

  /** What a procedure makes of its arguments and its caller. */
  type Executor = (Value, NodeId) -> Value

  // ------------------------------------------------------------------- client

  class RpcClient {
    /** Calls awaiting their reply. */
    var tracked: set<RpcId>
    /** What each resolved call was told. */
    var resolved: map<RpcId, RpcResult>

    constructor ()
      ensures tracked == {} && resolved == map[]
    {
      tracked, resolved := {}, map[];
    }

    method Track(id: RpcId)
      modifies this
      ensures tracked == old(tracked) + {id} && resolved == old(resolved)
    {
      tracked := tracked + {id};
    }

    /** The first reply to a tracked call resolves it; any other reply changes nothing. */
    method HandleReply(id: RpcId, result: RpcResult)
      modifies this
      ensures (tracked, resolved) == AfterReply(old(tracked), old(resolved), id, result)
    {
      if id in tracked {
        tracked := tracked - {id};
        resolved := resolved[id := result];
      }
    }

    /** Messages that are not replies leave the client as it is. */
    method HandleMessage(m: RpcMessage)
      modifies this
      ensures (tracked, resolved) == if m.Reply? then AfterReply(old(tracked), old(resolved), m.id, m.result)
                                     else (old(tracked), old(resolved))
    {
      match m
      case Reply(id, result) => HandleReply(id, result);
      case _ =>
    }
  }

  function AfterReply(tracked: set<RpcId>, resolved: map<RpcId, RpcResult>, id: RpcId, result: RpcResult)
    : (set<RpcId>, map<RpcId, RpcResult>)
  {
    if id in tracked then (tracked - {id}, resolved[id := result]) else (tracked, resolved)
  }

  // ------------------------------------------------------------------- server

  function Executed(executors: map<string, Executor>, call: RpcCall, caller: NodeId): RpcResult {
    if call.name in executors then Ok(executors[call.name](call.args, caller)) else Err(NoExecutorFound(call.name))
  }

  class RpcServer {
    var executors: map<string, Executor>

    constructor ()
      ensures executors == map[]
    {
      executors := map[];
    }

    method Register(name: string, executor: Executor)
      modifies this
      ensures executors == old(executors)[name := executor]
    {
      executors := executors[name := executor];
    }

    method ExecuteCall(call: RpcCall, caller: NodeId) returns (result: RpcResult)
      ensures result == Executed(executors, call, caller)
    {
      if call.name !in executors {
        return Err(NoExecutorFound(call.name));
      }
      var executor := executors[call.name];
      result := Ok(executor(call.args, caller));
    }

    /** The reply carries the id of the call. */
    method HandleCall(call: RpcCall, caller: NodeId) returns (reply: RpcMessage)
      ensures reply == Reply(call.id, Executed(executors, call, caller))
    {
      var result := ExecuteCall(call, caller);
      reply := Reply(call.id, result);
    }
  }

  // ----------------------------------------------------------------- protocol

  /** Clients and servers around a medium. The medium remembers everything ever sent: any
      message in it may be delivered at any time, any number of times, or never. */
  datatype System = System(
    sent: set<RpcMessage>,
    issued: map<RpcId, (nat, RpcCall)>,
    tracked: map<nat, set<RpcId>>,
    resolved: map<nat, map<RpcId, RpcResult>>,
    executors: map<nat, map<string, Executor>>)

  datatype Step =
    | Issue(client: nat, call: RpcCall, delivered: bool)
    | Register(server: nat, name: string, executor: Executor)
    | DeliverCall(server: nat, call: RpcCall, caller: NodeId)
    | DeliverReply(client: nat, id: RpcId, result: RpcResult)

  const START := System({}, map[], map[], map[], map[])

  function TrackedBy(s: System, client: nat): set<RpcId> {
    if client in s.tracked then s.tracked[client] else {}
  }

  function ResolvedBy(s: System, client: nat): map<RpcId, RpcResult> {
    if client in s.resolved then s.resolved[client] else map[]
  }

  function ExecutorsOf(s: System, server: nat): map<string, Executor> {
    if server in s.executors then s.executors[server] else map[]
  }

  /** Ids are fresh, and only what was sent can arrive. */
  predicate Enabled(s: System, step: Step) {
    match step
    case Issue(_, call, _) => call.id !in s.issued
    case Register(_, _, _) => true
    case DeliverCall(_, call, _) => Call(call) in s.sent
    case DeliverReply(_, id, result) => Reply(id, result) in s.sent
  }

  function After(s: System, step: Step): System {
    match step
    case Issue(client, call, delivered) =>
      // tracked before sending; a failed send leaves the call tracked
      s.(issued := s.issued[call.id := (client, call)],
         tracked := s.tracked[client := TrackedBy(s, client) + {call.id}],
         sent := if delivered then s.sent + {Call(call)} else s.sent)
    case Register(server, name, executor) =>
      s.(executors := s.executors[server := ExecutorsOf(s, server)[name := executor]])
    case DeliverCall(server, call, caller) =>
      s.(sent := s.sent + {Reply(call.id, Executed(ExecutorsOf(s, server), call, caller))})
    case DeliverReply(client, id, result) =>
      var (tracked, resolved) := AfterReply(TrackedBy(s, client), ResolvedBy(s, client), id, result);
      s.(tracked := s.tracked[client := tracked], resolved := s.resolved[client := resolved])
  }

  function StateAfter(run: seq<Step>): System {
    if run == [] then START else After(StateAfter(run[..|run| - 1]), run[|run| - 1])
  }

  predicate IsRun(run: seq<Step>) {
    run == [] || (IsRun(run[..|run| - 1]) && Enabled(StateAfter(run[..|run| - 1]), run[|run| - 1]))
  }

  /** Some server executed `call` for some caller at some point of the run, with the
      executors it had then, and got `result`. */
  ghost predicate Computed(run: seq<Step>, call: RpcCall, result: RpcResult) {
    exists i :: 0 <= i < |run| && run[i].DeliverCall? && run[i].call == call
      && result == Executed(ExecutorsOf(StateAfter(run[..i]), run[i].server), call, run[i].caller)
  }

  /** What travels as a call was issued, as it travels. */
  ghost predicate CallsWereIssued(s: System) {
    && (forall m :: m in s.sent && m.Call? ==> m.call.id in s.issued && s.issued[m.call.id].1 == m.call)
    && (forall id :: id in s.issued ==> s.issued[id].1.id == id)
  }

  /** What travels as a reply answers the call that was issued under its id. */
  ghost predicate RepliesWereComputed(run: seq<Step>, s: System) {
    forall m :: m in s.sent && m.Reply? ==> m.id in s.issued && Computed(run, s.issued[m.id].1, m.result)
  }

  ghost predicate AwaitsOwnCalls(s: System) {
    forall c, id :: id in TrackedBy(s, c) ==> id in s.issued && s.issued[id].0 == c
  }

  ghost predicate Settled(run: seq<Step>, s: System, c: nat, id: RpcId)
    requires id in ResolvedBy(s, c)
  {
    && id in s.issued && s.issued[id].0 == c
    && id !in TrackedBy(s, c)
    && Computed(run, s.issued[id].1, ResolvedBy(s, c)[id])
  }

  ghost predicate ResolvedAreSettled(run: seq<Step>, s: System) {
    forall c, id :: id in ResolvedBy(s, c) ==> Settled(run, s, c, id)
  }

  ghost predicate Correlated(run: seq<Step>, s: System) {
    CallsWereIssued(s) && RepliesWereComputed(run, s) && AwaitsOwnCalls(s) && ResolvedAreSettled(run, s)
  }

  lemma ComputedLater(run: seq<Step>, step: Step, call: RpcCall, result: RpcResult)
    requires Computed(run, call, result)
    ensures Computed(run + [step], call, result)
  {
    var i :| 0 <= i < |run| && run[i].DeliverCall? && run[i].call == call
      && result == Executed(ExecutorsOf(StateAfter(run[..i]), run[i].server), call, run[i].caller);
    assert (run + [step])[..i] == run[..i] && (run + [step])[i] == run[i];
  }

  lemma ComputedNow(run: seq<Step>, step: Step)
    requires step.DeliverCall?
    ensures Computed(run + [step], step.call,
                     Executed(ExecutorsOf(StateAfter(run), step.server), step.call, step.caller))
  {
    assert (run + [step])[..|run|] == run && (run + [step])[|run|] == step;
  }

  lemma StepKeepsCallsIssued(s: System, step: Step)
    requires CallsWereIssued(s) && Enabled(s, step)
    ensures CallsWereIssued(After(s, step))
  {
  }

  lemma StepKeepsRepliesComputed(run: seq<Step>, s: System, step: Step)
    requires CallsWereIssued(s) && RepliesWereComputed(run, s) && s == StateAfter(run) && Enabled(s, step)
    ensures RepliesWereComputed(run + [step], After(s, step))
  {
    var s' := After(s, step);
    forall m | m in s'.sent && m.Reply?
      ensures m.id in s'.issued && Computed(run + [step], s'.issued[m.id].1, m.result) {
      if m in s.sent {
        assert s'.issued[m.id] == s.issued[m.id];
        ComputedLater(run, step, s.issued[m.id].1, m.result);
      } else {
        ComputedNow(run, step);
      }
    }
  }

  lemma StepKeepsAwaiting(s: System, step: Step)
    requires AwaitsOwnCalls(s) && Enabled(s, step)
    ensures AwaitsOwnCalls(After(s, step))
  {
    var s' := After(s, step);
    forall c, id | id in TrackedBy(s', c) ensures id in s'.issued && s'.issued[id].0 == c {
      assert id in TrackedBy(s, c) || (step.Issue? && step.client == c && step.call.id == id);
    }
  }

  lemma SettledStays(run: seq<Step>, s: System, step: Step, c: nat, id: RpcId)
    requires AwaitsOwnCalls(s) && Enabled(s, step)
    requires id in ResolvedBy(s, c) && Settled(run, s, c, id)
    ensures id in ResolvedBy(After(s, step), c) && Settled(run + [step], After(s, step), c, id)
  {
    var s' := After(s, step);
    assert s'.issued[id] == s.issued[id];
    StepKeepsResolution(s, step, c, id);
    assert id !in TrackedBy(s', c);
    ComputedLater(run, step, s.issued[id].1, ResolvedBy(s, c)[id]);
  }

  lemma ReplySettles(run: seq<Step>, s: System, c: nat, id: RpcId, result: RpcResult)
    requires RepliesWereComputed(run, s) && AwaitsOwnCalls(s) && Reply(id, result) in s.sent && id in TrackedBy(s, c)
    ensures var step := DeliverReply(c, id, result);
            id in ResolvedBy(After(s, step), c) && Settled(run + [step], After(s, step), c, id)
  {
    var m := Reply(id, result);
    assert m.Reply? && m.id == id;
    ComputedLater(run, DeliverReply(c, id, result), s.issued[id].1, result);
  }

  lemma StepKeepsSettled(run: seq<Step>, s: System, step: Step, c: nat, id: RpcId)
    requires Correlated(run, s) && Enabled(s, step)
    requires id in ResolvedBy(After(s, step), c)
    ensures Settled(run + [step], After(s, step), c, id)
  {
    if id in ResolvedBy(s, c) {
      assert Settled(run, s, c, id);
      SettledStays(run, s, step, c, id);
    } else {
      assert step == DeliverReply(c, id, step.result) && id in TrackedBy(s, c);
      ReplySettles(run, s, c, id, step.result);
    }
  }

  lemma StepCorrelates(run: seq<Step>, s: System, step: Step)
    requires Correlated(run, s) && s == StateAfter(run) && Enabled(s, step)
    ensures Correlated(run + [step], After(s, step))
  {
    StepKeepsCallsIssued(s, step);
    StepKeepsRepliesComputed(run, s, step);
    StepKeepsAwaiting(s, step);
    forall c, id | id in ResolvedBy(After(s, step), c) ensures Settled(run + [step], After(s, step), c, id) {
      StepKeepsSettled(run, s, step, c, id);
    }
  }

  lemma {:induction false} RunsCorrelate(run: seq<Step>)
    requires IsRun(run)
    ensures Correlated(run, StateAfter(run))
  {
    if run != [] {
      var front, last := run[..|run| - 1], run[|run| - 1];
      RunsCorrelate(front);
      StepCorrelates(front, StateAfter(front), last);
      assert run == front + [last];
    }
  }

  // ------------------------------------------------------------- consequences

  /** The executor of the latest registration under a name at a server, told from the steps
      alone. */
  function LatestExecutor(run: seq<Step>, server: nat, name: string): Option<Executor> {
    if run == [] then None
    else
      var last := run[|run| - 1];
      if last.Register? && last.server == server && last.name == name then Some(last.executor)
      else LatestExecutor(run[..|run| - 1], server, name)
  }

  /** Registration at a position, with none of the same name at the same server after it. */
  ghost predicate IsLatestRegistration(run: seq<Step>, k: int, server: nat, name: string) {
    && 0 <= k < |run| && Registers(run[k], server, name)
    && forall j :: k < j < |run| ==> !Registers(run[j], server, name)
  }

  predicate Registers(step: Step, server: nat, name: string) {
    step.Register? && step.server == server && step.name == name
  }

  lemma {:induction false} LatestIsLatest(run: seq<Step>, server: nat, name: string)
    ensures LatestExecutor(run, server, name).None? <==> forall k :: 0 <= k < |run| ==> !Registers(run[k], server, name)
    ensures LatestExecutor(run, server, name).Some? ==>
              exists k :: IsLatestRegistration(run, k, server, name)
                          && run[k].executor == LatestExecutor(run, server, name).value
  {
    if run != [] {
      var front, last := run[..|run| - 1], run[|run| - 1];
      LatestIsLatest(front, server, name);
      if Registers(last, server, name) {
        assert IsLatestRegistration(run, |run| - 1, server, name);
      } else if LatestExecutor(front, server, name).Some? {
        var k :| IsLatestRegistration(front, k, server, name)
                 && front[k].executor == LatestExecutor(front, server, name).value;
        assert IsLatestRegistration(run, k, server, name);
      } else {
        assert forall k :: 0 <= k < |front| ==> run[k] == front[k];
      }
    }
  }

  lemma {:induction false} TableIsLatest(run: seq<Step>, server: nat, name: string)
    ensures LatestExecutor(run, server, name)
            == var executors := ExecutorsOf(StateAfter(run), server);
               if name in executors then Some(executors[name]) else None
  {
    if run != [] {
      TableIsLatest(run[..|run| - 1], server, name);
    }
  }

  /** At step `i` the call was delivered to a server, and the result is what the executor
      registered last under its name at that server, before that step, makes of the call's
      arguments and of the caller delivered with it; that none was found is the result
      exactly if no registration of that name preceded. */
  ghost predicate AnsweredAt(run: seq<Step>, i: int, call: RpcCall, result: RpcResult) {
    && 0 <= i < |run| && run[i].DeliverCall? && run[i].call == call
    && (forall k :: IsLatestRegistration(run[..i], k, run[i].server, call.name) ==>
          result == Ok(run[..i][k].executor(call.args, run[i].caller)))
    && (result.Ok? || result == Err(NoExecutorFound(call.name)))
    && (result == Err(NoExecutorFound(call.name)) <==>
          forall k :: 0 <= k < i ==> !Registers(run[k], run[i].server, call.name))
  }

  lemma LatestIsUnique(run: seq<Step>, j: int, k: int, server: nat, name: string)
    requires IsLatestRegistration(run, j, server, name) && IsLatestRegistration(run, k, server, name)
    ensures j == k
  {
  }

  lemma ComputedIsAnswered(run: seq<Step>, call: RpcCall, result: RpcResult)
    requires Computed(run, call, result)
    ensures exists i :: AnsweredAt(run, i, call, result)
  {
    var i :| 0 <= i < |run| && run[i].DeliverCall? && run[i].call == call
      && result == Executed(ExecutorsOf(StateAfter(run[..i]), run[i].server), call, run[i].caller);
    var before, server := run[..i], run[i].server;
    TableIsLatest(before, server, call.name);
    LatestIsLatest(before, server, call.name);
    forall k | IsLatestRegistration(before, k, server, call.name)
      ensures result == Ok(before[k].executor(call.args, run[i].caller)) {
      assert Registers(before[k], server, call.name);
      var j :| IsLatestRegistration(before, j, server, call.name)
               && before[j].executor == LatestExecutor(before, server, call.name).value;
      LatestIsUnique(before, j, k, server, call.name);
    }
    assert forall k :: 0 <= k < i ==> before[k] == run[k];
    assert AnsweredAt(run, i, call, result);
  }

  /** Under any loss, duplication and reordering, a resolved call was issued by the client
      that sees it resolved, and was told what executing it came to: its own arguments, the
      executor then registered under its own name, or the report that there was none. */
  lemma ResolvedWithOwnResult(run: seq<Step>, client: nat, id: RpcId)
    requires IsRun(run) && id in ResolvedBy(StateAfter(run), client)
    ensures var s := StateAfter(run);
            && id in s.issued && s.issued[id].0 == client && s.issued[id].1.id == id
            && exists i :: AnsweredAt(run, i, s.issued[id].1, ResolvedBy(s, client)[id])
  {
    RunsCorrelate(run);
    var s := StateAfter(run);
    assert Settled(run, s, client, id);
    ComputedIsAnswered(run, s.issued[id].1, ResolvedBy(s, client)[id]);
  }

  /** The first reply to reach the client that awaits it resolves the call, with the result
      it carries. */
  lemma AwaitedReplyResolves(s: System, client: nat, id: RpcId, result: RpcResult)
    requires id in TrackedBy(s, client)
    ensures var s' := After(s, DeliverReply(client, id, result));
            && id in ResolvedBy(s', client) && ResolvedBy(s', client)[id] == result
            && TrackedBy(s', client) == TrackedBy(s, client) - {id}
            && forall other :: other in TrackedBy(s, client) && other != id ==>
                 (other in ResolvedBy(s', client) <==> other in ResolvedBy(s, client))
  {
  }

  /** A call is awaited from the moment it is issued, whether or not it could be sent, and
      it travels exactly if it was sent. */
  lemma IssuedIsAwaited(s: System, client: nat, call: RpcCall, delivered: bool)
    requires Enabled(s, Issue(client, call, delivered)) && CallsWereIssued(s)
    ensures var s' := After(s, Issue(client, call, delivered));
            call.id in TrackedBy(s', client) && (Call(call) in s'.sent <==> delivered)
  {
  }

  /** A step leaves a resolved call resolved, with what it was told. */
  lemma StepKeepsResolution(s: System, step: Step, client: nat, id: RpcId)
    requires id in ResolvedBy(s, client) && id !in TrackedBy(s, client)
    ensures id in ResolvedBy(After(s, step), client)
    ensures ResolvedBy(After(s, step), client)[id] == ResolvedBy(s, client)[id]
  {
  }

  /** A call is resolved at most once: what it was told first stands for the rest of the
      run, and it is never awaited again. */
  lemma {:induction false} ResolvedOnce(run: seq<Step>, n: nat, client: nat, id: RpcId)
    requires IsRun(run) && n <= |run| && id in ResolvedBy(StateAfter(run[..n]), client)
    ensures var s := StateAfter(run);
            && id in ResolvedBy(s, client) && ResolvedBy(s, client)[id] == ResolvedBy(StateAfter(run[..n]), client)[id]
            && id !in TrackedBy(s, client)
  {
    if n == |run| {
      assert run[..n] == run;
    } else {
      var front, last := run[..|run| - 1], run[|run| - 1];
      assert front[..n] == run[..n];
      ResolvedOnce(front, n, client, id);
      StepKeepsResolution(StateAfter(front), last, client, id);
    }
    RunsCorrelate(run);
    assert Settled(run, StateAfter(run), client, id);
  }

  ghost predicate LooksAlike(a: System, b: System) {
    && a.sent == b.sent && a.issued == b.issued && a.executors == b.executors
    && forall c :: SameClient(a, b, c)
  }

  predicate SameClient(a: System, b: System, client: nat) {
    TrackedBy(a, client) == TrackedBy(b, client) && ResolvedBy(a, client) == ResolvedBy(b, client)
  }

  /** In every state, reachable or not, a reply has an effect exactly when its call is still
      awaited by the client it reaches: late, duplicate and misdirected replies change
      nothing. */
  lemma ReplyMattersIffAwaited(s: System, client: nat, id: RpcId, result: RpcResult)
    ensures LooksAlike(After(s, DeliverReply(client, id, result)), s) <==> id !in TrackedBy(s, client)
  {
    var s' := After(s, DeliverReply(client, id, result));
    if id in TrackedBy(s, client) {
      assert id !in TrackedBy(s', client);
      assert !SameClient(s', s, client);
    } else {
      forall c ensures SameClient(s', s, c) {
      }
    }
  }
}
