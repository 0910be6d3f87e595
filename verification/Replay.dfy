/** Why re-running a body from scratch is sound: any schedule of re-runs and answers
    reaches what one uninterrupted execution with an answering oracle reaches. */
module Replay {
  import opened Wrappers
  import opened Json
  import opened Channels
  import opened RunLog
  import opened Script

  /** The answer given to the request at each position. */
  type Oracle = (nat, RunLogContent) -> Value

  /** One execution, never restarted, in which the oracle answers up to `fuel` further
      requests on the spot; it is suspended where the answers run out. */
  function Direct(body: Body, channels: Channels, oracle: Oracle, t: seq<Event>, fuel: nat): Outcome
    decreases fuel, body.budget(channels, t)
  {
    match body.next(t)
    case Read(name) =>
      var e := DidRead(name, Observed(channels, t, name));
      assert Proceeds(body, channels, t, e);
      Direct(body, channels, oracle, t + [e], fuel)
    case Write(name, value) =>
      var e := DidWrite(name, value);
      assert Proceeds(body, channels, t, e);
      Direct(body, channels, oracle, t + [e], fuel)
    case Ask(content) =>
      if fuel == 0 then Suspended(t, content)
      else Direct(body, channels, oracle, t + [DidAsk(content, oracle(|Requests(t)|, content))], fuel - 1)
    case Return(result) => Finished(t, result)
    case Raise(error) => Raised(t, error)
  }

  /** The event that the direct execution performs next, if it does not stop. */
  function NextEvent(body: Body, channels: Channels, oracle: Oracle, t: seq<Event>, fuel: nat): Option<Event> {
    match body.next(t)
    case Read(name) => Some(DidRead(name, Observed(channels, t, name)))
    case Write(name, value) => Some(DidWrite(name, value))
    case Ask(content) => if fuel == 0 then None else Some(DidAsk(content, oracle(|Requests(t)|, content)))
    case _ => None
  }

  lemma DirectPerforms(body: Body, channels: Channels, oracle: Oracle, t: seq<Event>, fuel: nat, e: Event)
    requires NextEvent(body, channels, oracle, t, fuel) == Some(e)
    ensures Performs(body, channels, t, e) && (!e.DidAsk? ==> Proceeds(body, channels, t, e))
    ensures e.DidAsk? ==> fuel > 0 && e == DidAsk(e.content, oracle(|Requests(t)|, e.content))
    ensures Requests(t + [e]) == Requests(t) + if e.DidAsk? then [e.content] else []
    ensures var fuel' := if e.DidAsk? then fuel - 1 else fuel;
            Direct(body, channels, oracle, t, fuel) == Direct(body, channels, oracle, t + [e], fuel')
            && (e.DidAsk? || body.budget(channels, t + [e]) < body.budget(channels, t))
  {
    Extended(0, t, e);
  }

  lemma {:induction false} DirectShape(body: Body, channels: Channels, oracle: Oracle, t: seq<Event>, fuel: nat)
    ensures var d := Direct(body, channels, oracle, t, fuel);
            && t <= d.trace
            && Requests(t) <= Requests(d.trace)
            && |Requests(d.trace)| <= |Requests(t)| + fuel
            && (d.Suspended? ==> |Requests(d.trace)| == |Requests(t)| + fuel && body.next(d.trace) == Ask(d.content))
    decreases fuel, body.budget(channels, t)
  {
    var next := NextEvent(body, channels, oracle, t, fuel);
    if next.Some? {
      DirectPerforms(body, channels, oracle, t, fuel, next.value);
      DirectShape(body, channels, oracle, t + [next.value], if next.value.DidAsk? then fuel - 1 else fuel);
    }
  }

  /** Granting more answers resumes the execution exactly where it stopped. */
  lemma {:induction false} DirectResumes(body: Body, channels: Channels, oracle: Oracle, t: seq<Event>, few: nat,
                                         many: nat)
    requires few <= many
    ensures var d := Direct(body, channels, oracle, t, few);
            Direct(body, channels, oracle, t, many)
            == if d.Suspended? then Direct(body, channels, oracle, d.trace, many - few) else d
    decreases few, body.budget(channels, t)
  {
    var next := NextEvent(body, channels, oracle, t, few);
    if next.Some? {
      var e := next.value;
      DirectPerforms(body, channels, oracle, t, few, e);
      DirectPerforms(body, channels, oracle, t, many, e);
      if e.DidAsk? {
        DirectResumes(body, channels, oracle, t + [e], few - 1, many - 1);
      } else {
        DirectResumes(body, channels, oracle, t + [e], few, many);
      }
    }
  }

  /** The trace of an execution cut off earlier is a prefix of the one cut off later. */
  lemma DirectIsMonotone(body: Body, channels: Channels, oracle: Oracle, few: nat, many: nat)
    requires few <= many
    ensures var d, d' := Direct(body, channels, oracle, [], few), Direct(body, channels, oracle, [], many);
            d.trace <= d'.trace && Requests(d.trace) <= Requests(d'.trace) && (!d.Suspended? ==> d' == d)
  {
    DirectResumes(body, channels, oracle, [], few, many);
    DirectShape(body, channels, oracle, Direct(body, channels, oracle, [], few).trace, many - few);
  }

  /** The pending request and the oracle's answer to it. */
  function AnsweredAsk(oracle: Oracle, r: nat, content: RunLogContent): Event {
    DidAsk(content, oracle(r, content))
  }

  /** One more answer takes a suspended execution past its pending request, and no further
      than to the next one. */
  lemma OneMoreAnswer(body: Body, channels: Channels, oracle: Oracle, r: nat)
    requires Direct(body, channels, oracle, [], r).Suspended?
    ensures var d, d' := Direct(body, channels, oracle, [], r), Direct(body, channels, oracle, [], r + 1);
            && |Requests(d.trace)| == r
            && d.trace + [AnsweredAsk(oracle, r, d.content)] <= d'.trace
            && Requests(d'.trace) == Requests(d.trace) + [d.content]
            && Requests(d'.trace) == Requests(d.trace + [AnsweredAsk(oracle, r, d.content)])
  {
    var d := Direct(body, channels, oracle, [], r);
    var e := AnsweredAsk(oracle, r, d.content);
    DirectShape(body, channels, oracle, [], r);
    DirectResumes(body, channels, oracle, [], r, r + 1);
    DirectPerforms(body, channels, oracle, d.trace, 1, e);
    DirectShape(body, channels, oracle, d.trace + [e], 0);
  }

  // ------------------------------------------------------ logs of a session

  /** The entry that stands for the request at position `k`, once answered. */
  function Answered(oracle: Oracle, k: nat, content: RunLogContent): RunLog {
    RunLog(k % INDEX_VALUES, content, Some(oracle(k, content)))
  }

  /** `logs` records `r` answered requests of the direct execution, in order, and at most
      one more entry: the pending one, unanswered. */
  ghost predicate Records(body: Body, channels: Channels, oracle: Oracle, logs: seq<RunLog>, r: nat) {
    var d := Direct(body, channels, oracle, [], r);
    && r <= |logs|
    && |Requests(d.trace)| == r
    && (forall k :: 0 <= k < r ==> logs[k] == Answered(oracle, k, Requests(d.trace)[k]))
    && (|logs| == r || (d.Suspended? && logs == logs[..r] + [Reservation(r, d.content)]))
  }

  /** The log holds the oracle's answer to each of `requests` from position `from` on. */
  ghost predicate HoldsAnswers(oracle: Oracle, logs: seq<RunLog>, requests: seq<RunLogContent>, from: nat) {
    |requests| <= |logs| &&
    forall k :: from <= k < |requests| ==> logs[k].value == Some(oracle(k, requests[k]))
  }

  /** At each step the log holds what the execution is about to be told, and the rest. */
  lemma AnswersAtStep(body: Body, channels: Channels, oracle: Oracle, logs: seq<RunLog>, t: seq<Event>, fuel: nat,
                      e: Event)
    requires NextEvent(body, channels, oracle, t, fuel) == Some(e)
    requires HoldsAnswers(oracle, logs, Requests(Direct(body, channels, oracle, t, fuel).trace), |Requests(t)|)
    ensures e.DidAsk? ==> fuel > 0 && |Requests(t)| < |logs| && logs[|Requests(t)|].value == Some(e.answer)
    ensures |Requests(t + [e])| == |Requests(t)| + if e.DidAsk? then 1 else 0
    ensures HoldsAnswers(oracle, logs,
                         Requests(Direct(body, channels, oracle, t + [e], if e.DidAsk? then fuel - 1 else fuel).trace),
                         |Requests(t + [e])|)
  {
    var fuel' := if e.DidAsk? then fuel - 1 else fuel;
    DirectPerforms(body, channels, oracle, t, fuel, e);
    DirectShape(body, channels, oracle, t + [e], fuel');
    var requests := Requests(Direct(body, channels, oracle, t, fuel).trace);
    if e.DidAsk? {
      assert requests[|Requests(t)|] == Requests(t + [e])[|Requests(t)|] == e.content;
    }
  }

  /** Where the execution stops, so does the run. */
  lemma RunStopsWithDirect(body: Body, channels: Channels, oracle: Oracle, logs: seq<RunLog>, t: seq<Event>, fuel: nat)
    requires |Requests(t)| + fuel <= |logs|
    requires |Requests(t)| + fuel < |logs| ==> logs[|Requests(t)| + fuel].value.None?
    requires NextEvent(body, channels, oracle, t, fuel).None?
    ensures Run(body, channels, logs, t) == Direct(body, channels, oracle, t, fuel)
  {
  }

  lemma {:induction false} RunFollowsDirect(body: Body, channels: Channels, oracle: Oracle, logs: seq<RunLog>,
                                            t: seq<Event>, fuel: nat)
    requires |Requests(t)| + fuel <= |logs|
    requires |Requests(t)| + fuel < |logs| ==> logs[|Requests(t)| + fuel].value.None?
    requires HoldsAnswers(oracle, logs, Requests(Direct(body, channels, oracle, t, fuel).trace), |Requests(t)|)
    ensures Run(body, channels, logs, t) == Direct(body, channels, oracle, t, fuel)
    decreases fuel, body.budget(channels, t)
  {
    var next := NextEvent(body, channels, oracle, t, fuel);
    if next.None? {
      RunStopsWithDirect(body, channels, oracle, logs, t, fuel);
    } else {
      var e := next.value;
      AnswersAtStep(body, channels, oracle, logs, t, fuel, e);
      DirectPerforms(body, channels, oracle, t, fuel, e);
      RunPerforms(body, channels, logs, t, e);
      RunFollowsDirect(body, channels, oracle, logs, t + [e], if e.DidAsk? then fuel - 1 else fuel);
    }
  }

  /** A run against a recording log is the direct execution cut off after the answers
      that the log holds. */
  lemma RunOfRecord(body: Body, channels: Channels, oracle: Oracle, logs: seq<RunLog>, r: nat)
    requires Records(body, channels, oracle, logs, r)
    ensures Run(body, channels, logs, []) == Direct(body, channels, oracle, [], r)
  {
    RunFollowsDirect(body, channels, oracle, logs, [], r);
  }

  // ------------------------------------------------------------- schedules

  /** What can happen to a frame: a re-run, whose new reservations are persisted, or the
      arrival of the answer to the pending request. */
  datatype Step = Rerun | Resolve

  function AfterStep(body: Body, channels: Channels, oracle: Oracle, logs: seq<RunLog>, step: Step): seq<RunLog> {
    match step
    case Rerun => logs + NewLogs(logs, Run(body, channels, logs, []))
    case Resolve =>
      var pending := PendingPosition(logs);
      if pending.None? then logs
      else
        PendingIsLastUnresolved(logs);
        var entry := logs[pending.value];
        ResolveLog(logs, entry.index, oracle(pending.value, entry.content))
  }

  function LogsAfter(body: Body, channels: Channels, oracle: Oracle, schedule: seq<Step>): seq<RunLog> {
    if schedule == [] then []
    else
      var before := LogsAfter(body, channels, oracle, schedule[..|schedule| - 1]);
      AfterStep(body, channels, oracle, before, schedule[|schedule| - 1])
  }

  /** A re-run reserves the next request if it is not reserved yet, and nothing else. */
  lemma RerunKeepsRecord(body: Body, channels: Channels, oracle: Oracle, logs: seq<RunLog>, r: nat)
    requires Records(body, channels, oracle, logs, r)
    ensures Records(body, channels, oracle, AfterStep(body, channels, oracle, logs, Rerun), r)
    ensures |AfterStep(body, channels, oracle, logs, Rerun)|
            == if Direct(body, channels, oracle, [], r).Suspended? then r + 1 else r
    ensures |logs| == r + 1 ==> AfterStep(body, channels, oracle, logs, Rerun) == logs
  {
    RunOfRecord(body, channels, oracle, logs, r);
    var d := Direct(body, channels, oracle, [], r);
    if d.Suspended? && |logs| == r {
      assert (logs + [Reservation(r, d.content)])[..r] == logs;
    }
  }

  /** The pending entry of a record is its last, and the answer lands there. */
  lemma ResolveHitsPending(body: Body, channels: Channels, oracle: Oracle, logs: seq<RunLog>, r: nat)
    requires Records(body, channels, oracle, logs, r)
    requires |logs| <= INDEX_VALUES
    ensures |logs| == r ==> AfterStep(body, channels, oracle, logs, Resolve) == logs
    ensures |logs| > r ==>
              AfterStep(body, channels, oracle, logs, Resolve)
              == logs[..r] + [Answered(oracle, r, Direct(body, channels, oracle, [], r).content)]
  {
    PendingIsLastUnresolved(logs);
    if |logs| == r {
      assert PendingPosition(logs).None?;
    } else {
      var content := Direct(body, channels, oracle, [], r).content;
      assert logs[r] == Reservation(r, content);
      assert PendingPosition(logs) == Some(r);
      assert Positional(logs);
      ResolutionReachesTruncated(logs, r, oracle(r, content));
    }
  }

  /** The pending entry answered, a record holds one more answer. */
  lemma AnsweredRecord(body: Body, channels: Channels, oracle: Oracle, logs: seq<RunLog>, r: nat)
    requires Records(body, channels, oracle, logs, r) && |logs| == r + 1
    ensures var answered := Answered(oracle, r, Direct(body, channels, oracle, [], r).content);
            Records(body, channels, oracle, logs[..r] + [answered], r + 1)
  {
    OneMoreAnswer(body, channels, oracle, r);
    var requests := Requests(Direct(body, channels, oracle, [], r).trace);
    var requests' := Requests(Direct(body, channels, oracle, [], r + 1).trace);
    assert forall k :: 0 <= k < r ==> requests'[k] == requests[k];
  }

  /** An answer turns the pending entry into one more recorded answer. */
  lemma ResolveAdvancesRecord(body: Body, channels: Channels, oracle: Oracle, logs: seq<RunLog>, r: nat)
    requires Records(body, channels, oracle, logs, r)
    requires |logs| <= INDEX_VALUES
    ensures Records(body, channels, oracle, AfterStep(body, channels, oracle, logs, Resolve),
                    if |logs| == r then r else r + 1)
    ensures |AfterStep(body, channels, oracle, logs, Resolve)| == |logs|
  {
    ResolveHitsPending(body, channels, oracle, logs, r);
    if |logs| > r {
      AnsweredRecord(body, channels, oracle, logs, r);
    }
  }

  // -------------------------------------------------- what a schedule answers

  predicate EndsWithRerun(schedule: seq<Step>) {
    schedule != [] && schedule[|schedule| - 1] == Rerun
  }

  /** The answers that find a request waiting: those that come right after a re-run. */
  function AnswersIn(schedule: seq<Step>): nat {
    if schedule == [] then 0
    else
      var front := schedule[..|schedule| - 1];
      AnswersIn(front) + if schedule[|schedule| - 1] == Resolve && EndsWithRerun(front) then 1 else 0
  }

  /** How many requests the direct execution gets answered out of `n` answers. */
  function Asked(body: Body, channels: Channels, oracle: Oracle, n: nat): nat {
    |Requests(Direct(body, channels, oracle, [], n).trace)|
  }

  /** A waiting execution has used all its answers, an ended one uses no more. */
  lemma AskedGrows(body: Body, channels: Channels, oracle: Oracle, n: nat)
    ensures Asked(body, channels, oracle, n) <= n
    ensures Direct(body, channels, oracle, [], Asked(body, channels, oracle, n))
            == Direct(body, channels, oracle, [], n)
    ensures var waiting := Direct(body, channels, oracle, [], n).Suspended?;
            && (waiting ==> Asked(body, channels, oracle, n) == n)
            && Asked(body, channels, oracle, n + 1) == Asked(body, channels, oracle, n) + if waiting then 1 else 0
  {
    var r := Asked(body, channels, oracle, n);
    var d := Direct(body, channels, oracle, [], n);
    DirectShape(body, channels, oracle, [], n);
    DirectIsMonotone(body, channels, oracle, n, n + 1);
    if d.Suspended? {
      OneMoreAnswer(body, channels, oracle, n);
    } else {
      EndedUsesNoMore(body, channels, oracle, n);
    }
  }

  lemma EndedUsesNoMore(body: Body, channels: Channels, oracle: Oracle, n: nat)
    requires !Direct(body, channels, oracle, [], n).Suspended?
    ensures Asked(body, channels, oracle, n) <= n
    ensures Direct(body, channels, oracle, [], Asked(body, channels, oracle, n))
            == Direct(body, channels, oracle, [], n)
  {
    var r := Asked(body, channels, oracle, n);
    DirectShape(body, channels, oracle, [], n);
    DirectIsMonotone(body, channels, oracle, r, n);
    if Direct(body, channels, oracle, [], r).Suspended? && r < n {
      OneMoreAnswer(body, channels, oracle, r);
      DirectIsMonotone(body, channels, oracle, r + 1, n);
    }
  }

  /** `logs` records what `n` answers lead to; a request is pending if a re-run came last
      and the execution is not over. */
  ghost predicate Follows(body: Body, channels: Channels, oracle: Oracle, n: nat, rerunLast: bool, logs: seq<RunLog>) {
    && Records(body, channels, oracle, logs, Asked(body, channels, oracle, n))
    && |logs| == Asked(body, channels, oracle, n)
                 + if rerunLast && Direct(body, channels, oracle, [], n).Suspended? then 1 else 0
  }

  lemma RerunFollows(body: Body, channels: Channels, oracle: Oracle, n: nat, rerunLast: bool, logs: seq<RunLog>)
    requires Follows(body, channels, oracle, n, rerunLast, logs)
    ensures Follows(body, channels, oracle, n, true, AfterStep(body, channels, oracle, logs, Rerun))
  {
    AskedGrows(body, channels, oracle, n);
    RerunKeepsRecord(body, channels, oracle, logs, Asked(body, channels, oracle, n));
  }

  /** Once the execution is over, one more answer leaves it as it is. */
  lemma EndedIgnoresAnswer(body: Body, channels: Channels, oracle: Oracle, n: nat)
    requires !Direct(body, channels, oracle, [], n).Suspended?
    ensures Direct(body, channels, oracle, [], n + 1) == Direct(body, channels, oracle, [], n)
  {
    DirectIsMonotone(body, channels, oracle, n, n + 1);
  }

  /** An answer counts if it comes right after a re-run, though an execution that is over
      makes nothing of it. */
  lemma ResolveFollows(body: Body, channels: Channels, oracle: Oracle, n: nat, rerunLast: bool, logs: seq<RunLog>)
    requires Follows(body, channels, oracle, n, rerunLast, logs) && |logs| <= INDEX_VALUES
    ensures Follows(body, channels, oracle, if rerunLast then n + 1 else n, false,
                    AfterStep(body, channels, oracle, logs, Resolve))
  {
    AskedGrows(body, channels, oracle, n);
    if |logs| == Asked(body, channels, oracle, n) {
      ResolveHitsPending(body, channels, oracle, logs, |logs|);
      if rerunLast {
        EndedIgnoresAnswer(body, channels, oracle, n);
      }
    } else {
      ResolveAdvancesRecord(body, channels, oracle, logs, |logs| - 1);
    }
  }

  lemma ResolveActsIff(body: Body, channels: Channels, oracle: Oracle, logs: seq<RunLog>, r: nat)
    requires Records(body, channels, oracle, logs, r) && |logs| <= INDEX_VALUES
    ensures AfterStep(body, channels, oracle, logs, Resolve) != logs <==> |logs| == r + 1
  {
    ResolveHitsPending(body, channels, oracle, logs, r);
    if |logs| == r + 1 {
      assert logs[r].value.None?;
      assert AfterStep(body, channels, oracle, logs, Resolve)[r].value.Some?;
    }
  }

  lemma LogsAfterOneMore(body: Body, channels: Channels, oracle: Oracle, schedule: seq<Step>, step: Step)
    ensures LogsAfter(body, channels, oracle, schedule + [step])
            == AfterStep(body, channels, oracle, LogsAfter(body, channels, oracle, schedule), step)
  {
    assert (schedule + [step])[..|schedule|] == schedule;
  }

  /** A log never shrinks. */
  lemma StepGrowsLog(body: Body, channels: Channels, oracle: Oracle, logs: seq<RunLog>, step: Step)
    ensures |logs| <= |AfterStep(body, channels, oracle, logs, step)|
  {
    var pending := PendingPosition(logs);
    if step == Resolve && pending.Some? {
      PendingIsLastUnresolved(logs);
      var entry := logs[pending.value];
      ResolveKeepsLength(logs, entry.index, oracle(pending.value, entry.content));
    }
  }

  /** Every reachable log that positions can index is a record of the direct execution: each
      entry sits at its own index and holds the body's request at that position, and all
      entries but possibly the last are answered. */
  lemma {:induction false} ReachableLogsRecord(body: Body, channels: Channels, oracle: Oracle, schedule: seq<Step>)
    requires |LogsAfter(body, channels, oracle, schedule)| <= INDEX_VALUES
    ensures Follows(body, channels, oracle, AnswersIn(schedule), EndsWithRerun(schedule),
                    LogsAfter(body, channels, oracle, schedule))
  {
    if schedule == [] {
      AskedGrows(body, channels, oracle, 0);
    } else {
      var front, last := schedule[..|schedule| - 1], schedule[|schedule| - 1];
      var logs := LogsAfter(body, channels, oracle, front);
      StepGrowsLog(body, channels, oracle, logs, last);
      ReachableLogsRecord(body, channels, oracle, front);
      assert schedule == front + [last];
      if last == Rerun {
        RerunFollows(body, channels, oracle, AnswersIn(front), EndsWithRerun(front), logs);
      } else {
        ResolveFollows(body, channels, oracle, AnswersIn(front), EndsWithRerun(front), logs);
      }
    }
  }

  /** Under every schedule of re-runs and answers, the next run is the direct execution
      with exactly the answers that found a request waiting: suspended at the same request,
      or ended with the same trace and result. */
  lemma ReplayEqualsDirectExecution(body: Body, channels: Channels, oracle: Oracle, schedule: seq<Step>)
    requires |LogsAfter(body, channels, oracle, schedule)| <= INDEX_VALUES
    ensures Run(body, channels, LogsAfter(body, channels, oracle, schedule), [])
            == Direct(body, channels, oracle, [], AnswersIn(schedule))
  {
    ReachableLogsRecord(body, channels, oracle, schedule);
    var n := AnswersIn(schedule);
    AskedGrows(body, channels, oracle, n);
    RunOfRecord(body, channels, oracle, LogsAfter(body, channels, oracle, schedule), Asked(body, channels, oracle, n));
  }

  /** An answer has an effect exactly if a re-run came right before it and the direct
      execution is still waiting for it. */
  lemma AnswerCountsIff(body: Body, channels: Channels, oracle: Oracle, schedule: seq<Step>)
    requires |LogsAfter(body, channels, oracle, schedule)| <= INDEX_VALUES
    ensures LogsAfter(body, channels, oracle, schedule + [Resolve]) != LogsAfter(body, channels, oracle, schedule)
            <==> EndsWithRerun(schedule) && Direct(body, channels, oracle, [], AnswersIn(schedule)).Suspended?
  {
    ReachableLogsRecord(body, channels, oracle, schedule);
    LogsAfterOneMore(body, channels, oracle, schedule, Resolve);
    ResolveActsIff(body, channels, oracle, LogsAfter(body, channels, oracle, schedule),
                   Asked(body, channels, oracle, AnswersIn(schedule)));
  }

  lemma PendingOfRecord(body: Body, channels: Channels, oracle: Oracle, logs: seq<RunLog>, r: nat)
    requires Records(body, channels, oracle, logs, r)
    ensures PendingPosition(logs) == if |logs| == r then None else Some(r)
    ensures |logs| > r ==> |logs| == r + 1 && logs[r].content == Direct(body, channels, oracle, [], r).content
  {
    PendingIsLastUnresolved(logs);
    if |logs| > r {
      assert logs[r] == Reservation(r, Direct(body, channels, oracle, [], r).content);
    }
  }

  /** Whenever a run suspends, what it reports asks for the very entry that the session then
      finds pending, and nothing else is pending. */
  lemma ReportAsksForPending(body: Body, channels: Channels, oracle: Oracle, schedule: seq<Step>, frameId: nat)
    requires |LogsAfter(body, channels, oracle, schedule)| <= INDEX_VALUES
    ensures var logs := LogsAfter(body, channels, oracle, schedule);
            var response := Response(frameId, logs, Run(body, channels, logs, []));
            var logs' := logs + response.newLogs;
            match PendingPosition(logs')
            case None => !Run(body, channels, logs, []).Suspended?
            case Some(p) => p == |logs'| - 1 && Awaited(response.result) == Some(logs'[p].content)
  {
    var logs := LogsAfter(body, channels, oracle, schedule);
    var r := Asked(body, channels, oracle, AnswersIn(schedule));
    ReachableLogsRecord(body, channels, oracle, schedule);
    RunOfRecord(body, channels, oracle, logs, r);
    RerunKeepsRecord(body, channels, oracle, logs, r);
    var logs' := AfterStep(body, channels, oracle, logs, Rerun);
    assert logs' == logs + Response(frameId, logs, Run(body, channels, logs, [])).newLogs;
    PendingOfRecord(body, channels, oracle, logs', r);
  }

  lemma {:induction false} AnswersGrow(schedule: seq<Step>, n: nat)
    requires n <= |schedule|
    ensures AnswersIn(schedule[..n]) <= AnswersIn(schedule)
  {
    if n == |schedule| {
      assert schedule[..n] == schedule;
    } else {
      assert schedule[..|schedule| - 1][..n] == schedule[..n];
      AnswersGrow(schedule[..|schedule| - 1], n);
    }
  }

  lemma {:induction false} LogsGrow(body: Body, channels: Channels, oracle: Oracle, schedule: seq<Step>, n: nat)
    requires n <= |schedule|
    ensures |LogsAfter(body, channels, oracle, schedule[..n])| <= |LogsAfter(body, channels, oracle, schedule)|
  {
    if n == |schedule| {
      assert schedule[..n] == schedule;
    } else {
      var front := schedule[..|schedule| - 1];
      assert front[..n] == schedule[..n];
      LogsGrow(body, channels, oracle, front, n);
      StepGrowsLog(body, channels, oracle, LogsAfter(body, channels, oracle, front), schedule[|schedule| - 1]);
    }
  }

  /** Every run repeats what earlier runs did and goes on from there: its trace and its
      updates extend theirs, and a run that ended is repeated as it was. */
  lemma LaterRunsExtendEarlier(body: Body, channels: Channels, oracle: Oracle, schedule: seq<Step>, n: nat,
                               frameId: nat)
    requires n <= |schedule| && |LogsAfter(body, channels, oracle, schedule)| <= INDEX_VALUES
    ensures var o := Run(body, channels, LogsAfter(body, channels, oracle, schedule[..n]), []);
            var o' := Run(body, channels, LogsAfter(body, channels, oracle, schedule), []);
            && o.trace <= o'.trace
            && Updates(frameId, o.trace) <= Updates(frameId, o'.trace)
            && (!o.Suspended? ==> o' == o)
  {
    var few, many := AnswersIn(schedule[..n]), AnswersIn(schedule);
    LogsGrow(body, channels, oracle, schedule, n);
    ReplayEqualsDirectExecution(body, channels, oracle, schedule[..n]);
    ReplayEqualsDirectExecution(body, channels, oracle, schedule);
    AnswersGrow(schedule, n);
    DirectIsMonotone(body, channels, oracle, few, many);
    UpdatesGrow(frameId, Direct(body, channels, oracle, [], few).trace, Direct(body, channels, oracle, [], many).trace);
  }

  /** Running again before the answer arrives suspends in the same place and reserves
      nothing more. */
  lemma WaitingChangesNothing(body: Body, channels: Channels, oracle: Oracle, schedule: seq<Step>)
    requires |LogsAfter(body, channels, oracle, schedule)| <= INDEX_VALUES
    ensures var once := AfterStep(body, channels, oracle, LogsAfter(body, channels, oracle, schedule), Rerun);
            && Run(body, channels, once, []) == Run(body, channels, LogsAfter(body, channels, oracle, schedule), [])
            && AfterStep(body, channels, oracle, once, Rerun) == once
  {
    var logs := LogsAfter(body, channels, oracle, schedule);
    var once := AfterStep(body, channels, oracle, logs, Rerun);
    var r := Asked(body, channels, oracle, AnswersIn(schedule));
    ReachableLogsRecord(body, channels, oracle, schedule);
    RerunKeepsRecord(body, channels, oracle, logs, r);
    RunOfRecord(body, channels, oracle, logs, r);
    RunOfRecord(body, channels, oracle, once, r);
    RerunKeepsRecord(body, channels, oracle, once, r);
  }

  /** Alternating runs and answers, from the empty log. */
  function Rounds(n: nat): seq<Step> {
    if n == 0 then [] else Rounds(n - 1) + [Rerun, Resolve]
  }

  lemma {:induction false} RoundsAnswerEach(n: nat)
    ensures AnswersIn(Rounds(n)) == n
  {
    if n > 0 {
      RoundsAnswerEach(n - 1);
      var before := Rounds(n - 1);
      assert Rounds(n)[..|before| + 1] == before + [Rerun];
      assert (before + [Rerun])[..|before|] == before;
    }
  }

  /** `n` rounds of run-until-suspended and answer-the-pending-request leave the body
      exactly where `n` answers would have led one direct execution: suspended at its
      (n+1)-th request, or ended with the same trace and result. */
  lemma RoundsEqualDirectExecution(body: Body, channels: Channels, oracle: Oracle, n: nat)
    requires |LogsAfter(body, channels, oracle, Rounds(n))| <= INDEX_VALUES
    ensures Run(body, channels, LogsAfter(body, channels, oracle, Rounds(n)), [])
            == Direct(body, channels, oracle, [], n)
  {
    RoundsAnswerEach(n);
    ReplayEqualsDirectExecution(body, channels, oracle, Rounds(n));
  }
}
