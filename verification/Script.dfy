/** One run of a node body: the generator driver that replays answered requests from
    the log and stops at the first one still unanswered, and the job that wraps it. */
module Script {
  import opened Wrappers
  import opened Json
  import opened Channels
  import opened RunLog

  datatype Branch = Branch(start: string, overrides: map<string, Value>)

  datatype FrameResult =
    | RequestHitl(hitl: Value)
    | ConsultExperts(experts: seq<RequestAskExpert>)
    | CallTools(calls: seq<RequestToolCall>)
    | ExecuteGraph(graphId: string)
    | Continue
    | GoTo(node: string)
    | Fork(branches: seq<Branch>, join: string)
    | Completed
    | Failed(error: string)

  /** The request that the session reads out of a reported command, to have it answered
      under the log entry of that content. */
  function Awaited(result: FrameResult): Option<RunLogContent> {
    match result
    case RequestHitl(hitl) => Some(HitlLog(hitl))
    case ConsultExperts(experts) => Some(ConsultExpertsLog(experts))
    case CallTools(calls) => Some(CallToolsLog(calls))
    case ExecuteGraph(graphId) => Some(GraphLog(graphId))
    case Continue => None
    case GoTo(_) => None
    case Fork(_, _) => None
    case Completed => None
    case Failed(_) => None
  }

  /** The command that asks the session to answer a pending request. */
  function PendingResult(content: RunLogContent): (result: FrameResult)
    ensures Awaited(result) == Some(content)
  {
    match content
    case HitlLog(request) => RequestHitl(request)
    case ConsultExpertsLog(requests) => ConsultExperts(requests)
    case CallToolsLog(requests) => CallTools(requests)
    case GraphLog(graphId) => ExecuteGraph(graphId)
  }

  // ------------------------------------------------------------------ bodies

  /** What a body does and observes, step by step. A read of an unknown channel is
      observed as None. */
  datatype Event =
    | DidRead(name: string, seen: Option<Value>)
    | DidWrite(name: string, value: Value)
    | DidAsk(content: RunLogContent, answer: Value)

  datatype Action =
    | Read(name: string)
    | Write(name: string, value: Value)
    | Ask(content: RunLogContent)
    | Return(result: FrameResult)
    | Raise(error: string)

  /** A deterministic body: its next action depends on nothing but what it has observed.
      `budget` bounds how long it goes on reading and writing over given channels before
      it suspends or ends; it may still ask for ever. */
  datatype Code = Code(next: seq<Event> -> Action, budget: (Channels, seq<Event>) -> nat)

  function Requests(t: seq<Event>): seq<RunLogContent> {
    if t == [] then []
    else
      var last := t[|t| - 1];
      Requests(t[..|t| - 1]) + if last.DidAsk? then [last.content] else []
  }

  function Updates(frameId: nat, t: seq<Event>): seq<ChannelUpdate> {
    if t == [] then []
    else
      var last := t[|t| - 1];
      Updates(frameId, t[..|t| - 1]) +
      if last.DidWrite? then [ChannelUpdate(last.name, last.value, frameId)] else []
  }

  lemma Extended(frameId: nat, t: seq<Event>, e: Event)
    ensures Requests(t + [e]) == Requests(t) + if e.DidAsk? then [e.content] else []
    ensures Updates(frameId, t + [e]) ==
            Updates(frameId, t) + if e.DidWrite? then [ChannelUpdate(e.name, e.value, frameId)] else []
  {
    assert (t + [e])[..|t|] == t;
  }

  lemma {:induction false} UpdatesGrow(frameId: nat, a: seq<Event>, b: seq<Event>)
    requires a <= b
    ensures Updates(frameId, a) <= Updates(frameId, b)
  {
    if a != b {
      var front := b[..|b| - 1];
      assert b == front + [b[|b| - 1]];
      Extended(frameId, front, b[|b| - 1]);
      UpdatesGrow(frameId, a, front);
    }
  }

  /** What a read observes after the history `t`. */
  function Observed(channels: Channels, t: seq<Event>, name: string): Option<Value> {
    Lookup(channels, Updates(0, t), name)
  }

  /** `e` is the read or the write that comes after `t`, with what it really observes. */
  predicate Proceeds(code: Code, channels: Channels, t: seq<Event>, e: Event) {
    match code.next(t)
    case Read(name) => e == DidRead(name, Observed(channels, t, name))
    case Write(name, value) => e == DidWrite(name, value)
    case _ => false
  }

  /** Every resume terminates, over whatever channels. How long it takes may depend on the
      values it reads: the bound need only fall for what is actually observed. */
  ghost predicate ResumesTerminate(code: Code) {
    forall channels: Channels, t: seq<Event>, e: Event ::
      Proceeds(code, channels, t, e) ==> code.budget(channels, t + [e]) < code.budget(channels, t)
  }

  type Body = code: Code | ResumesTerminate(code)
    ghost witness Code((t: seq<Event>) => Return(Completed), (channels: Channels, t: seq<Event>) => 0)

  /** How often the copier writes, by what it read. */
  function Copies(seen: Option<Value>): nat {
    if seen.Some? && seen.value.Int? && seen.value.i > 0 then seen.value.i else 0
  }

  /** Reads a number, then writes as many times. */
  function CopierNext(t: seq<Event>): Action {
    if t == [] then Read("n")
    else if t[0].DidRead? && |t| <= Copies(t[0].seen) then Write("out", Null)
    else Return(Completed)
  }

  function CopierBudget(channels: Channels, t: seq<Event>): nat {
    if t == [] then Copies(Observed(channels, [], "n")) + 1
    else if t[0].DidRead? && |t| <= Copies(t[0].seen) then Copies(t[0].seen) + 1 - |t|
    else 0
  }

  /** No bound holds for all values the copier could read, yet it is a body. */
  lemma CopierTerminates()
    ensures ResumesTerminate(Code(CopierNext, CopierBudget))
  {
    var copier := Code(CopierNext, CopierBudget);
    forall channels: Channels, t: seq<Event>, e: Event | Proceeds(copier, channels, t, e)
      ensures CopierBudget(channels, t + [e]) < CopierBudget(channels, t) {
      assert (t + [e])[0] == if t == [] then e else t[0];
    }
  }

  // -------------------------------------------------------------- one run

  datatype Outcome =
    | Suspended(trace: seq<Event>, content: RunLogContent)
    | Finished(trace: seq<Event>, result: FrameResult)
    | Raised(trace: seq<Event>, error: string)

  /** The run of `body` over `channels` against `logs`, from the history `t` on. Since
      every pass either ends the run or consumes a resolved entry, the run ends. */
  function Run(body: Body, channels: Channels, logs: seq<RunLog>, t: seq<Event>): Outcome
    requires |Requests(t)| <= |logs|
    decreases |logs| - |Requests(t)|, body.budget(channels, t)
  {
    match body.next(t)
    case Read(name) =>
      var e := DidRead(name, Observed(channels, t, name));
      Extended(0, t, e);
      assert Proceeds(body, channels, t, e);
      Run(body, channels, logs, t + [e])
    case Write(name, value) =>
      var e := DidWrite(name, value);
      Extended(0, t, e);
      assert Proceeds(body, channels, t, e);
      Run(body, channels, logs, t + [e])
    case Ask(content) =>
      var k := |Requests(t)|;
      if k < |logs| && logs[k].value.Some? then
        var e := DidAsk(content, logs[k].value.value);
        Extended(0, t, e);
        Run(body, channels, logs, t + [e])
      else Suspended(t, content)
    case Return(result) => Finished(t, result)
    case Raise(error) => Raised(t, error)
  }

  /** `e` is what the body's action after `t` leads to, an asked request being answered
      by anything. */
  predicate Performs(body: Body, channels: Channels, t: seq<Event>, e: Event) {
    Proceeds(body, channels, t, e) || (body.next(t).Ask? && e.DidAsk? && e.content == body.next(t).content)
  }

  lemma RunPerforms(body: Body, channels: Channels, logs: seq<RunLog>, t: seq<Event>, e: Event)
    requires |Requests(t)| <= |logs| && Performs(body, channels, t, e)
    requires e.DidAsk? ==> |Requests(t)| < |logs| && logs[|Requests(t)|].value == Some(e.answer)
    ensures |Requests(t + [e])| <= |logs|
    ensures Run(body, channels, logs, t) == Run(body, channels, logs, t + [e])
  {
    Extended(0, t, e);
  }

  /** The reservation a run leaves behind: one, if it stopped past the end of the log. */
  function NewLogs(logs: seq<RunLog>, outcome: Outcome): seq<RunLog> {
    if outcome.Suspended? && |Requests(outcome.trace)| >= |logs|
    then [Reservation(|logs|, outcome.content)] else []
  }

  /** What a run reports back: a body that raises loses its updates and reservations. */
  datatype FrameResponse = FrameResponse(
    frameId: nat,
    updates: seq<ChannelUpdate>,
    newLogs: seq<RunLog>,
    result: FrameResult)

  function Response(frameId: nat, logs: seq<RunLog>, outcome: Outcome): FrameResponse {
    match outcome
    case Suspended(t, content) =>
      FrameResponse(frameId, Updates(frameId, t), NewLogs(logs, outcome), PendingResult(content))
    case Finished(t, result) => FrameResponse(frameId, Updates(frameId, t), [], result)
    case Raised(_, error) => FrameResponse(frameId, [], [], Failed(error))
  }

  /** The event that a run performs next, if it goes on. */
  function NextOfRun(body: Body, channels: Channels, logs: seq<RunLog>, t: seq<Event>): Option<Event> {
    var k := |Requests(t)|;
    match body.next(t)
    case Read(name) => Some(DidRead(name, Observed(channels, t, name)))
    case Write(name, value) => Some(DidWrite(name, value))
    case Ask(content) => if k < |logs| && logs[k].value.Some? then Some(DidAsk(content, logs[k].value.value)) else None
    case _ => None
  }

  lemma RunContinues(body: Body, channels: Channels, logs: seq<RunLog>, t: seq<Event>, e: Event)
    requires |Requests(t)| <= |logs| && NextOfRun(body, channels, logs, t) == Some(e)
    ensures Performs(body, channels, t, e) && |Requests(t + [e])| <= |logs|
    ensures Requests(t + [e]) == Requests(t) + if e.DidAsk? then [e.content] else []
    ensures Run(body, channels, logs, t) == Run(body, channels, logs, t + [e])
    ensures e.DidAsk? || body.budget(channels, t + [e]) < body.budget(channels, t)
  {
    Extended(0, t, e);
    RunPerforms(body, channels, logs, t, e);
    assert !e.DidAsk? ==> Proceeds(body, channels, t, e);
  }

  lemma {:induction false} RunExtends(body: Body, channels: Channels, logs: seq<RunLog>, t: seq<Event>)
    requires |Requests(t)| <= |logs|
    ensures var o := Run(body, channels, logs, t); t <= o.trace && |Requests(t)| <= |Requests(o.trace)| <= |logs|
    decreases |logs| - |Requests(t)|, body.budget(channels, t)
  {
    var next := NextOfRun(body, channels, logs, t);
    if next.Some? {
      RunContinues(body, channels, logs, t, next.value);
      RunExtends(body, channels, logs, t + [next.value]);
    }
  }

  /** The log answers what was asked, and has no answer where the run stopped. */
  ghost predicate AnsweredUpTo(logs: seq<RunLog>, from: nat, o: Outcome)
    requires |Requests(o.trace)| <= |logs|
  {
    && (forall k :: from <= k < |Requests(o.trace)| ==> logs[k].value.Some?)
    && (o.Suspended? ==> |Requests(o.trace)| == |logs| || logs[|Requests(o.trace)|].value.None?)
  }

  lemma {:induction false} RunIsAnswered(body: Body, channels: Channels, logs: seq<RunLog>, t: seq<Event>)
    requires |Requests(t)| <= |logs|
    ensures var o := Run(body, channels, logs, t);
            |Requests(o.trace)| <= |logs| && AnsweredUpTo(logs, |Requests(t)|, o)
    decreases |logs| - |Requests(t)|, body.budget(channels, t)
  {
    var next := NextOfRun(body, channels, logs, t);
    if next.Some? {
      RunContinues(body, channels, logs, t, next.value);
      RunIsAnswered(body, channels, logs, t + [next.value]);
    }
  }

  /** A run extends its history, asks at most once per log entry beyond what it started
      with, and stops only where the log has no answer. */
  lemma RunShape(body: Body, channels: Channels, logs: seq<RunLog>, t: seq<Event>)
    requires |Requests(t)| <= |logs|
    ensures var o := Run(body, channels, logs, t);
            && t <= o.trace
            && |Requests(t)| <= |Requests(o.trace)| <= |logs|
            && AnsweredUpTo(logs, |Requests(t)|, o)
  {
    RunExtends(body, channels, logs, t);
    RunIsAnswered(body, channels, logs, t);
  }

  /** The run ended where the body's last action says it did, and as it says. */
  ghost predicate EndsAsBodySays(body: Body, o: Outcome) {
    body.next(o.trace) == match o
                          case Suspended(_, content) => Ask(content)
                          case Finished(_, result) => Return(result)
                          case Raised(_, error) => Raise(error)
  }

  lemma {:induction false} RunEndsAsBodySays(body: Body, channels: Channels, logs: seq<RunLog>, t: seq<Event>)
    requires |Requests(t)| <= |logs|
    ensures EndsAsBodySays(body, Run(body, channels, logs, t))
    decreases |logs| - |Requests(t)|, body.budget(channels, t)
  {
    var next := NextOfRun(body, channels, logs, t);
    if next.Some? {
      RunContinues(body, channels, logs, t, next.value);
      RunEndsAsBodySays(body, channels, logs, t + [next.value]);
    }
  }

  /** What a frame reports, told from the body and the log: a suspended run asks the session
      for the body's own request at that position, and leaves an entry of that content
      behind if the log has none there; a run that ended reports what the body returned, or
      that it failed, and a failed one contributes nothing. */
  ghost predicate Reports(body: Body, logs: seq<RunLog>, t: seq<Event>, response: FrameResponse) {
    match body.next(t)
    case Ask(content) =>
      && Awaited(response.result) == Some(content)
      && response.newLogs
         == (if |Requests(t)| < |logs| then [] else [RunLog(|Requests(t)| % INDEX_VALUES, content, None)])
      && response.updates == Updates(response.frameId, t)
    case Return(result) =>
      response.result == result && response.newLogs == [] && response.updates == Updates(response.frameId, t)
    case Raise(error) => response.result == Failed(error) && response.newLogs == [] && response.updates == []
    case _ => false
  }

  lemma OutcomeReports(frameId: nat, logs: seq<RunLog>, body: Body, o: Outcome)
    requires |Requests(o.trace)| <= |logs|
    requires EndsAsBodySays(body, o)
    ensures Reports(body, logs, o.trace, Response(frameId, logs, o))
  {
  }

  lemma ResponseReports(frameId: nat, channels: Channels, logs: seq<RunLog>, body: Body)
    ensures var o := Run(body, channels, logs, []); Reports(body, logs, o.trace, Response(frameId, logs, o))
  {
    RunShape(body, channels, logs, []);
    RunEndsAsBodySays(body, channels, logs, []);
    OutcomeReports(frameId, logs, body, Run(body, channels, logs, []));
  }

  lemma {:induction false} LookupIgnoresContributor(channels: Channels, frameId: nat, t: seq<Event>, name: string)
    ensures Lookup(channels, Updates(frameId, t), name) == Observed(channels, t, name)
  {
    if t != [] {
      var front, last := t[..|t| - 1], t[|t| - 1];
      LookupIgnoresContributor(channels, frameId, front, name);
      if last.DidWrite? {
        assert Updates(frameId, t)[..|Updates(frameId, t)| - 1] == Updates(frameId, front);
        assert Updates(0, t)[..|Updates(0, t)| - 1] == Updates(0, front);
      } else {
        assert Updates(frameId, t) == Updates(frameId, front);
        assert Updates(0, t) == Updates(0, front);
      }
    }
  }

  // -------------------------------------------------------------- the driver

  class NodeContext {
    const frameId: nat
    const channels: ChannelsTracker
    const logs: RunLogs

    constructor (frameId: nat, channels: ChannelsTracker, logs: RunLogs)
      ensures this.frameId == frameId && this.channels == channels && this.logs == logs
    {
      this.frameId := frameId;
      this.channels := channels;
      this.logs := logs;
    }

    /** The context has lived through the history `t`, starting from the log `persisted`. */
    ghost predicate At(persisted: seq<RunLog>, t: seq<Event>)
      reads this, channels, logs
    {
      && channels.frameId == frameId
      && channels.updates == Updates(frameId, t)
      && logs.Valid()
      && logs.persistedLen == |persisted|
      && logs.entries == persisted
      && logs.cursor == |Requests(t)|
    }
  }

  /** Lets the body read and write until it suspends or ends. */
  method Resume(body: Body, ctx: NodeContext, ghost persisted: seq<RunLog>, t0: seq<Event>)
    returns (t: seq<Event>, state: Action)
    requires ctx.At(persisted, t0)
    modifies ctx.channels
    ensures ctx.At(persisted, t) && Requests(t) == Requests(t0)
    ensures state == body.next(t) && !state.Read? && !state.Write?
    ensures Run(body, ctx.channels.channels, persisted, t) == Run(body, ctx.channels.channels, persisted, t0)
  {
    t := t0;
    state := body.next(t);
    while state.Read? || state.Write?
      invariant ctx.At(persisted, t) && Requests(t) == Requests(t0)
      invariant state == body.next(t)
      invariant Run(body, ctx.channels.channels, persisted, t) == Run(body, ctx.channels.channels, persisted, t0)
      decreases body.budget(ctx.channels.channels, t)
    {
      var e;
      match state {
        case Read(name) =>
          var seen := ctx.channels.Read(name);
          LookupIgnoresContributor(ctx.channels.channels, ctx.frameId, t, name);
          e := DidRead(name, seen);
          assert Proceeds(body, ctx.channels.channels, t, e);
        case Write(name, value) =>
          ctx.channels.Write(name, value);
          e := DidWrite(name, value);
          assert Proceeds(body, ctx.channels.channels, t, e);
      }
      Extended(ctx.frameId, t, e);
      Extended(0, t, e);
      t := t + [e];
      state := body.next(t);
    }
  }

  /** Drives the body to its end or to its first unanswered request, in one pass more than
      the answered requests it moves past: never more than the log has entries, plus one. */
  method Execute(body: Body, ctx: NodeContext) returns (r: Result<FrameResult, string>, ghost passes: nat)
    requires ctx.logs.Valid() && ctx.logs.cursor == 0 && ctx.logs.persistedLen == |ctx.logs.entries|
    requires ctx.channels.frameId == ctx.frameId && ctx.channels.updates == []
    modifies ctx.channels, ctx.logs
    ensures ctx.logs.Valid() && ctx.logs.persistedLen == old(|ctx.logs.entries|)
    ensures var o := Run(body, ctx.channels.channels, old(ctx.logs.entries), []);
            && ctx.channels.updates == Updates(ctx.frameId, o.trace)
            && ctx.logs.entries == old(ctx.logs.entries) + NewLogs(old(ctx.logs.entries), o)
            && r == match o
                    case Suspended(_, content) => Ok(PendingResult(content))
                    case Finished(_, result) => Ok(result)
                    case Raised(_, error) => Err(error)
    ensures passes == |Requests(Run(body, ctx.channels.channels, old(ctx.logs.entries), []).trace)| + 1
    ensures passes <= old(|ctx.logs.entries|) + 1
  {
    ghost var persisted := ctx.logs.entries;
    passes := 1;
    var t, state := Resume(body, ctx, persisted, []);
    while true
      invariant ctx.At(persisted, t)
      invariant state == body.next(t) && !state.Read? && !state.Write?
      invariant Run(body, ctx.channels.channels, persisted, t) == Run(body, ctx.channels.channels, persisted, [])
      invariant passes == |Requests(t)| + 1
      decreases |persisted| - |Requests(t)|
    {
      match state {
        case Return(result) => return Ok(result), passes;
        case Raise(error) => return Err(error), passes;
        case Ask(content) =>
          var logRef := ctx.logs.ReserveLog(content);
          var resolved := ctx.logs.Check(logRef);
          if resolved.None? {
            return Ok(PendingResult(content)), passes;
          }
          Extended(ctx.frameId, t, DidAsk(content, resolved.value));
          t := t + [DidAsk(content, resolved.value)];
          t, state := Resume(body, ctx, persisted, t);
          passes := passes + 1;
      }
    }
  }

  /** The job that runs a graph node over its inherited channels and its replay log. */
  method RunFrame(frameId: nat, channels: Channels, logs: seq<RunLog>, body: Body) returns (response: FrameResponse)
    ensures response == Response(frameId, logs, Run(body, channels, logs, []))
    ensures response.frameId == frameId && Reports(body, logs, Run(body, channels, logs, []).trace, response)
  {
    ResponseReports(frameId, channels, logs, body);
    var tracker := new ChannelsTracker(frameId, channels);
    var runLogs := new RunLogs(logs);
    var ctx := new NodeContext(frameId, tracker, runLogs);
    var r, _ := Execute(body, ctx);
    RunShape(body, channels, logs, []);
    match r {
      case Ok(result) =>
        var newLogs := ctx.logs.IntoNewLogs();
        response := FrameResponse(frameId, ctx.channels.updates, newLogs, result);
      case Err(error) =>
        response := FrameResponse(frameId, [], [], Failed(error));
    }
  }
}
