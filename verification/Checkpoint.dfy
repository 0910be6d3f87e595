/** What the session adds to replay: every run's updates, and those that children export,
    are committed into the frame's own channels, and the next run starts from them. */
module Checkpoint {
  import opened Wrappers
  import opened Json
  import opened Channels
  import opened RunLog
  import opened Script
  import opened Replay
  import opened Spec

  // ------------------------------------------------------------------ commits

  /** The values contributed to `name`, in order. */
  function Contributions(updates: seq<ChannelUpdate>, name: string): seq<Value> {
    if updates == [] then []
    else
      var last := updates[|updates| - 1];
      Contributions(updates[..|updates| - 1], name) + if last.name == name then [last.value] else []
  }

  /** The reducer of a channel: the declared one, else last-write-wins. */
  function ReducerOf(specs: seq<ChannelSpec>, name: string): Reducer {
    var declared := Find(specs, name);
    if declared.Some? then declared.value else LastWriteWins
  }

  /** What a channel holds after a commit; untouched channels keep their value. */
  function CommittedValue(specs: seq<ChannelSpec>, channels: Channels, updates: seq<ChannelUpdate>,
                          name: string): Option<Value> {
    var contributions := Contributions(updates, name);
    if contributions == [] then Get(channels, name)
    else Some(Reduced(ReducerOf(specs, name), Get(channels, name), contributions))
  }

  lemma ContributionsExtended(updates: seq<ChannelUpdate>, u: ChannelUpdate, name: string)
    ensures Contributions(updates + [u], name)
            == Contributions(updates, name) + if u.name == name then [u.value] else []
  {
    assert (updates + [u])[..|updates|] == updates;
  }

  lemma {:induction false} ContributionsConcat(a: seq<ChannelUpdate>, b: seq<ChannelUpdate>, name: string)
    ensures Contributions(a + b, name) == Contributions(a, name) + Contributions(b, name)
  {
    if b == [] {
      assert a + b == a;
    } else {
      assert (a + b)[..|a + b| - 1] == a + b[..|b| - 1];
      ContributionsConcat(a, b[..|b| - 1], name);
    }
  }

  /** Groups the updates by channel, then reduces each group into the channel. */
  method Commit(specs: seq<ChannelSpec>, channels: Channels, updates: seq<ChannelUpdate>) returns (committed: Channels)
    ensures forall name :: Get(committed, name) == CommittedValue(specs, channels, updates, name)
  {
    var perChannel: map<string, seq<Value>> := map[];
    for i := 0 to |updates|
      invariant forall name :: name in perChannel ==> perChannel[name] == Contributions(updates[..i], name) != []
      invariant forall name :: name !in perChannel ==> Contributions(updates[..i], name) == []
    {
      var u := updates[i];
      forall name
        ensures Contributions(updates[..i + 1], name)
                == Contributions(updates[..i], name) + if u.name == name then [u.value] else [] {
        assert updates[..i + 1] == updates[..i] + [u];
        ContributionsExtended(updates[..i], u, name);
      }
      perChannel := perChannel[u.name := (if u.name in perChannel then perChannel[u.name] else []) + [u.value]];
    }
    assert updates[..|updates|] == updates;

    committed := channels;
    var left := perChannel.Keys;
    while left != {}
      invariant left <= perChannel.Keys
      invariant forall name :: Get(committed, name) ==
                  if name in left then Get(channels, name) else CommittedValue(specs, channels, updates, name)
    {
      var name :| name in left;
      var value := Reduce(ReducerOf(specs, name), Get(committed, name), perChannel[name]);
      committed := committed[name := value];
      left := left - {name};
    }
  }

  /** A channel that no spec declares takes the last contribution. */
  lemma UndeclaredTakesLast(specs: seq<ChannelSpec>, channels: Channels, updates: seq<ChannelUpdate>, name: string,
                            k: nat)
    requires k < |updates| && updates[k].name == name && forall j :: k < j < |updates| ==> updates[j].name != name
    requires forall spec :: spec in specs ==> spec.name != name
    ensures CommittedValue(specs, channels, updates, name) == Some(updates[k].value)
  {
    LastContribution(updates, name, k);
    NoIndex(specs, name);
  }

  /** One that specs declare, more than once even, goes by its first declaration; a channel
      that nothing was contributed to stays as it was. */
  lemma FirstDeclarationCounts(specs: seq<ChannelSpec>, channels: Channels, updates: seq<ChannelUpdate>, name: string,
                               i: nat)
    requires i < |specs| && specs[i].name == name && forall j :: 0 <= j < i ==> specs[j].name != name
    ensures CommittedValue(specs, channels, updates, name)
            == if forall u :: u in updates ==> u.name != name then Get(channels, name)
               else Some(Reduced(specs[i].reducer, Get(channels, name), Contributions(updates, name)))
  {
    ContributesIff(updates, name);
    FirstIndex(specs, i);
  }

  lemma {:induction false} ContributesIff(updates: seq<ChannelUpdate>, name: string)
    ensures Contributions(updates, name) == [] <==> forall u :: u in updates ==> u.name != name
  {
    if updates != [] {
      var front, last := updates[..|updates| - 1], updates[|updates| - 1];
      ContributesIff(front, name);
      assert updates == front + [last];
    }
  }

  lemma {:induction false} LastContribution(updates: seq<ChannelUpdate>, name: string, k: nat)
    requires k < |updates| && updates[k].name == name && forall j :: k < j < |updates| ==> updates[j].name != name
    ensures var all := Contributions(updates, name); all != [] && all[|all| - 1] == updates[k].value
  {
    if k < |updates| - 1 {
      LastContribution(updates[..|updates| - 1], name, k);
    }
  }

  function Names(updates: seq<ChannelUpdate>): set<string> {
    set u | u in updates :: u.name
  }

  /** The same commit, as a value. */
  function Committed(specs: seq<ChannelSpec>, channels: Channels, updates: seq<ChannelUpdate>): Channels {
    map name | name in channels.Keys + Names(updates) && CommittedValue(specs, channels, updates, name).Some?
      :: CommittedValue(specs, channels, updates, name).value
  }

  lemma {:induction false} ContributorsAreNamed(updates: seq<ChannelUpdate>, name: string)
    ensures Contributions(updates, name) != [] <==> name in Names(updates)
  {
    if updates != [] {
      var front, last := updates[..|updates| - 1], updates[|updates| - 1];
      ContributorsAreNamed(front, name);
      assert updates == front + [last];
    }
  }

  lemma CommittedLooksUp(specs: seq<ChannelSpec>, channels: Channels, updates: seq<ChannelUpdate>, name: string)
    ensures Get(Committed(specs, channels, updates), name) == CommittedValue(specs, channels, updates, name)
  {
    ContributorsAreNamed(updates, name);
  }

  // ------------------------------------------------- reads that commits can reach

  ghost predicate Writes(t: seq<Event>, name: string) {
    exists e :: e in t && e.DidWrite? && e.name == name
  }

  lemma WritesExtended(t: seq<Event>, e: Event, name: string)
    ensures Writes(t + [e], name) <==> Writes(t, name) || (e.DidWrite? && e.name == name)
  {
    assert forall x :: x in t + [e] <==> x in t || x == e;
  }

  lemma {:induction false} WritesAreUpdates(t: seq<Event>, name: string)
    ensures Contributions(Updates(0, t), name) != [] <==> Writes(t, name)
  {
    if t != [] {
      var front, last := t[..|t| - 1], t[|t| - 1];
      assert t == front + [last];
      WritesAreUpdates(front, name);
      WritesExtended(front, last, name);
      if last.DidWrite? {
        ContributionsExtended(Updates(0, front), ChannelUpdate(last.name, last.value, 0), name);
      } else {
        assert Updates(0, t) == Updates(0, front);
      }
    }
  }

  /** An own write hides the inherited channel; without one, the read is the inherited value. */
  lemma {:induction false} ObservedSplits(channels: Channels, other: Channels, t: seq<Event>, name: string)
    ensures !Writes(t, name) ==> Observed(channels, t, name) == Get(channels, name)
    ensures Writes(t, name) ==> Observed(channels, t, name) == Observed(other, t, name)
  {
    if t != [] {
      var front, last := t[..|t| - 1], t[|t| - 1];
      assert t == front + [last];
      ObservedSplits(channels, other, front, name);
      WritesExtended(front, last, name);
      if last.DidWrite? {
        assert Updates(0, t)[..|Updates(0, t)| - 1] == Updates(0, front);
      } else {
        assert Updates(0, t) == Updates(0, front);
      }
    }
  }

  /** The event at `i` reads an inherited channel. */
  ghost predicate ReadsInherited(t: seq<Event>, i: nat)
    requires i < |t|
  {
    t[i].DidRead? && !Writes(t[..i], t[i].name)
  }

  /** Two channel maps agree on everything that `t` reads from them. */
  ghost predicate AgreeOnReads(a: Channels, b: Channels, t: seq<Event>) {
    forall i: nat :: i < |t| && ReadsInherited(t, i) ==> Get(a, t[i].name) == Get(b, t[i].name)
  }

  /** A run is determined by the inherited values it actually reads. */
  lemma {:induction false} RunDependsOnInheritedReads(body: Body, a: Channels, b: Channels, logs: seq<RunLog>,
      t: seq<Event>)
    requires |Requests(t)| <= |logs|
    requires AgreeOnReads(a, b, Run(body, a, logs, t).trace)
    ensures Run(body, b, logs, t) == Run(body, a, logs, t)
    decreases |logs| - |Requests(t)|, body.budget(a, t)
  {
    var act, k := body.next(t), |Requests(t)|;
    if act.Read? || act.Write? || (act.Ask? && k < |logs| && logs[k].value.Some?) {
      var e := if act.Read? then DidRead(act.name, Observed(a, t, act.name))
               else if act.Write? then DidWrite(act.name, act.value)
               else DidAsk(act.content, logs[k].value.value);
      RunPerforms(body, a, logs, t, e);
      if act.Read? {
        RunShape(body, a, logs, t + [e]);
        var trace := Run(body, a, logs, t).trace;
        assert trace[|t|] == e && trace[..|t|] == t;
        ObservedSplits(a, b, t, act.name);
        ObservedSplits(b, a, t, act.name);
        if !Writes(t, act.name) {
          assert ReadsInherited(trace, |t|);
        }
      }
      Extended(0, t, e);
      RunPerforms(body, b, logs, t, e);
      RunDependsOnInheritedReads(body, a, b, logs, t + [e]);
    }
  }

  /** What a run's trace says a read saw is what the run's own channels made it see. */
  lemma {:induction false} TraceObserves(body: Body, channels: Channels, logs: seq<RunLog>, t: seq<Event>, i: nat)
    requires |Requests(t)| <= |logs|
    requires |t| <= i < |Run(body, channels, logs, t).trace| && Run(body, channels, logs, t).trace[i].DidRead?
    ensures var trace := Run(body, channels, logs, t).trace;
            trace[i].seen == Observed(channels, trace[..i], trace[i].name)
    decreases |logs| - |Requests(t)|, body.budget(channels, t)
  {
    var act, k := body.next(t), |Requests(t)|;
    if act.Read? || act.Write? || (act.Ask? && k < |logs| && logs[k].value.Some?) {
      var e := if act.Read? then DidRead(act.name, Observed(channels, t, act.name))
               else if act.Write? then DidWrite(act.name, act.value)
               else DidAsk(act.content, logs[k].value.value);
      Extended(0, t, e);
      RunPerforms(body, channels, logs, t, e);
      if i == |t| {
        RunShape(body, channels, logs, t + [e]);
        var trace := Run(body, channels, logs, t).trace;
        assert trace[i] == (t + [e])[i] == e && trace[..i] == t;
      } else {
        TraceObserves(body, channels, logs, t + [e], i);
      }
    }
  }

  /** Two channel maps give the same run exactly when they agree on every inherited value
      that the run reads. */
  lemma RunsAgreeIff(body: Body, a: Channels, b: Channels, logs: seq<RunLog>)
    ensures Run(body, b, logs, []) == Run(body, a, logs, []) <==> AgreeOnReads(a, b, Run(body, a, logs, []).trace)
  {
    var t := Run(body, a, logs, []).trace;
    if AgreeOnReads(a, b, t) {
      RunDependsOnInheritedReads(body, a, b, logs, []);
    }
    if Run(body, b, logs, []) == Run(body, a, logs, []) {
      forall i: nat | i < |t| && ReadsInherited(t, i) ensures Get(a, t[i].name) == Get(b, t[i].name) {
        TraceObserves(body, a, logs, [], i);
        TraceObserves(body, b, logs, [], i);
        ObservedSplits(a, b, t[..i], t[i].name);
        ObservedSplits(b, a, t[..i], t[i].name);
      }
    }
  }

  /** The part of a trace that earlier runs have already committed: what precedes its last
      answered request. */
  function BeforeLastAsk(t: seq<Event>): seq<Event> {
    if t == [] then []
    else if t[|t| - 1].DidAsk? then t[..|t| - 1]
    else BeforeLastAsk(t[..|t| - 1])
  }

  lemma {:induction false} QuietTail(t: seq<Event>, tail: seq<Event>)
    requires forall e :: e in tail ==> !e.DidAsk?
    ensures BeforeLastAsk(t + tail) == BeforeLastAsk(t)
  {
    if tail == [] {
      assert t + tail == t;
    } else {
      assert (t + tail)[..|t + tail| - 1] == t + tail[..|tail| - 1];
      QuietTail(t, tail[..|tail| - 1]);
    }
  }

  lemma {:induction false} QuietExtension(t: seq<Event>, t': seq<Event>)
    requires t <= t' && Requests(t) == Requests(t')
    ensures forall e :: e in t'[|t|..] ==> !e.DidAsk?
  {
    if t != t' {
      var front, last := t'[..|t'| - 1], t'[|t'| - 1];
      Extended(0, front, last);
      assert t' == front + [last];
      RequestsMonotone(t, front);
      QuietExtension(t, front);
      assert t'[|t|..] == front[|t|..] + [last];
    }
  }

  lemma LastAskThenQuiet(t: seq<Event>, e: Event, t': seq<Event>)
    requires e.DidAsk? && t + [e] <= t' && Requests(t + [e]) == Requests(t')
    ensures BeforeLastAsk(t') == t
  {
    var asked := t + [e];
    QuietExtension(asked, t');
    QuietTail(asked, t'[|asked|..]);
    assert t' == asked + t'[|asked|..];
    assert asked[..|asked| - 1] == t;
  }

  lemma {:induction false} RequestsMonotone(t: seq<Event>, t': seq<Event>)
    requires t <= t'
    ensures Requests(t) <= Requests(t')
  {
    if t != t' {
      var front := t'[..|t'| - 1];
      assert t' == front + [t'[|t'| - 1]];
      Extended(0, front, t'[|t'| - 1]);
      RequestsMonotone(t, front);
    }
  }

  /** With `r + 1` answers, what precedes the last answered request is exactly the trace
      that was cut off after `r`. */
  lemma CommittedPartIsPreviousRun(body: Body, channels: Channels, oracle: Oracle, r: nat)
    requires Direct(body, channels, oracle, [], r).Suspended?
    ensures BeforeLastAsk(Direct(body, channels, oracle, [], r + 1).trace)
            == Direct(body, channels, oracle, [], r).trace
  {
    OneMoreAnswer(body, channels, oracle, r);
    var d := Direct(body, channels, oracle, [], r);
    LastAskThenQuiet(d.trace, AnsweredAsk(oracle, r, d.content), Direct(body, channels, oracle, [], r + 1).trace);
  }

  // ---------------------------------------------------------- frames over time

  /** What happens to a frame: a step of replay — a run, with or without an answer before
      it — or a commit of what its children exported. */
  datatype Change = Replayed(step: Step) | Imported(updates: seq<ChannelUpdate>)

  /** A frame between two runs: its latest channels and its persisted log. */
  datatype Frame = Frame(channels: Channels, logs: seq<RunLog>)

  function AfterChange(body: Body, specs: seq<ChannelSpec>, oracle: Oracle, f: Frame, change: Change): Frame {
    match change
    case Replayed(Rerun) =>
      var response := Response(0, f.logs, Run(body, f.channels, f.logs, []));
      Frame(Committed(specs, f.channels, response.updates), f.logs + response.newLogs)
    case Replayed(Resolve) => f.(logs := AfterStep(body, f.channels, oracle, f.logs, Resolve))
    case Imported(updates) => f.(channels := Committed(specs, f.channels, updates))
  }

  function FrameAfter(body: Body, specs: seq<ChannelSpec>, channels: Channels, oracle: Oracle,
                      history: seq<Change>): Frame {
    if history == [] then Frame(channels, [])
    else
      var front := FrameAfter(body, specs, channels, oracle, history[..|history| - 1]);
      AfterChange(body, specs, oracle, front, history[|history| - 1])
  }

  lemma FrameAfterOneMore(body: Body, specs: seq<ChannelSpec>, channels: Channels, oracle: Oracle,
                          history: seq<Change>, change: Change)
    ensures FrameAfter(body, specs, channels, oracle, history + [change])
            == AfterChange(body, specs, oracle, FrameAfter(body, specs, channels, oracle, history), change)
  {
    assert (history + [change])[..|history|] == history;
  }

  /** The replay steps of a history. */
  function Steps(history: seq<Change>): seq<Step> {
    if history == [] then []
    else
      var last := history[|history| - 1];
      Steps(history[..|history| - 1]) + if last.Replayed? then [last.step] else []
  }

  /** The execution that the next run should reproduce: over the channels the frame began
      with, never restarted, and given the answers received so far. */
  function Expected(body: Body, channels: Channels, oracle: Oracle, history: seq<Change>): Outcome {
    Direct(body, channels, oracle, [], AnswersIn(Steps(history)))
  }

  /** What a run that goes as expected contributes to a channel; nothing if it raises. */
  function OwnContributions(o: Outcome, name: string): seq<Value> {
    Contributions(Response(0, [], o).updates, name)
  }

  /** Everything committed to a channel so far, if all runs went as expected: by each run
      all that its body contributed from its start, and by children what they exported. */
  function Committals(body: Body, channels: Channels, oracle: Oracle, history: seq<Change>, name: string): seq<Value> {
    if history == [] then []
    else
      var front, last := history[..|history| - 1], history[|history| - 1];
      Committals(body, channels, oracle, front, name) +
      match last
      case Replayed(Rerun) => OwnContributions(Expected(body, channels, oracle, front), name)
      case Replayed(Resolve) => []
      case Imported(updates) => Contributions(updates, name)
  }

  /** A channel after any number of commits is what one commit of everything makes of it. */
  function Folded(reducer: Reducer, inherited: Option<Value>, all: seq<Value>): Option<Value> {
    if all == [] then inherited else Some(Reduced(reducer, inherited, all))
  }

  lemma FoldedTwice(reducer: Reducer, inherited: Option<Value>, all: seq<Value>, more: seq<Value>)
    ensures Folded(reducer, Folded(reducer, inherited, all), more) == Folded(reducer, inherited, all + more)
  {
    if all == [] {
      assert all + more == more;
    } else if more == [] {
      assert all + more == all;
    } else {
      BatchesReduceAlike(reducer, inherited, all, more);
    }
  }

  lemma CommitFolds(specs: seq<ChannelSpec>, inherited: Channels, now: Channels, updates: seq<ChannelUpdate>,
                    name: string, all: seq<Value>)
    requires Get(now, name) == Folded(ReducerOf(specs, name), Get(inherited, name), all)
    ensures Get(Committed(specs, now, updates), name)
            == Folded(ReducerOf(specs, name), Get(inherited, name), all + Contributions(updates, name))
  {
    CommittedLooksUp(specs, now, updates, name);
    FoldedTwice(ReducerOf(specs, name), Get(inherited, name), all, Contributions(updates, name));
  }

  ghost predicate HoldsCommittals(body: Body, specs: seq<ChannelSpec>, channels: Channels, oracle: Oracle,
                                  history: seq<Change>, now: Channels) {
    forall name :: Get(now, name)
                   == Folded(ReducerOf(specs, name), Get(channels, name),
                             Committals(body, channels, oracle, history, name))
  }

  // ------------------------------------------- when commits leave replay alone

  /** Committing `all` leaves the channel at its inherited value. */
  predicate LeavesUnchanged(reducer: Reducer, inherited: Option<Value>, all: seq<Value>) {
    all == [] ||
    match reducer
    case LastWriteWins => inherited == Some(all[|all| - 1])
    case Append => false
    case Max =>
      && inherited.Some?
      && (inherited.value.Null? || inherited.value.Float?)
      && forall c :: c in all && c.AsFloat().Some? ==> inherited.value.Float? && c.AsFloat().value <= inherited.value.f
  }

  lemma LeavesUnchangedIff(reducer: Reducer, inherited: Option<Value>, all: seq<Value>)
    ensures Folded(reducer, inherited, all) == inherited <==> LeavesUnchanged(reducer, inherited, all)
  {
    if all != [] {
      match reducer
      case LastWriteWins =>
      case Append => assert |Items(inherited) + all| > |Items(inherited)|;
      case Max => MaxUnchangedIff(inherited, all);
    }
  }

  lemma MaxUnchangedIff(inherited: Option<Value>, all: seq<Value>)
    requires all != []
    ensures Some(Reduced(Max, inherited, all)) == inherited <==> LeavesUnchanged(Max, inherited, all)
  {
    var start, best := Reading(inherited), Best(Reading(inherited), all);
    BestIsMaximum(start, all);
    forall c | c in all && c.AsFloat().Some? ensures c.AsFloat().value in Seen(start, all) {
    }
    if best.Some? && start.Some? {
      assert start.value in Seen(start, all);
    }
  }

  /** Every channel that the expected run reads as inherited is left unchanged by all that
      was committed before. */
  ghost predicate UndisturbedAt(body: Body, specs: seq<ChannelSpec>, channels: Channels, oracle: Oracle,
                                history: seq<Change>) {
    var t := Expected(body, channels, oracle, history).trace;
    forall i: nat :: i < |t| && ReadsInherited(t, i) ==>
      LeavesUnchanged(ReducerOf(specs, t[i].name), Get(channels, t[i].name),
                      Committals(body, channels, oracle, history, t[i].name))
  }

  /** The next run goes as expected. */
  ghost predicate ReplaysAt(body: Body, specs: seq<ChannelSpec>, channels: Channels, oracle: Oracle,
                            history: seq<Change>) {
    var f := FrameAfter(body, specs, channels, oracle, history);
    Run(body, f.channels, f.logs, []) == Expected(body, channels, oracle, history)
  }

  /** As long as all runs go as expected, the log is the one that replay alone would leave,
      and the channels hold the committals. */
  ghost predicate FrameReady(body: Body, specs: seq<ChannelSpec>, channels: Channels, oracle: Oracle,
                             history: seq<Change>) {
    var f := FrameAfter(body, specs, channels, oracle, history);
    && f.logs == LogsAfter(body, channels, oracle, Steps(history))
    && HoldsCommittals(body, specs, channels, oracle, history, f.channels)
  }

  lemma AgreeIffUndisturbed(body: Body, specs: seq<ChannelSpec>, channels: Channels, oracle: Oracle,
                            history: seq<Change>, now: Channels)
    requires HoldsCommittals(body, specs, channels, oracle, history, now)
    ensures AgreeOnReads(channels, now, Expected(body, channels, oracle, history).trace)
            <==> UndisturbedAt(body, specs, channels, oracle, history)
  {
    var t := Expected(body, channels, oracle, history).trace;
    forall i: nat | i < |t| && ReadsInherited(t, i)
      ensures Get(channels, t[i].name) == Get(now, t[i].name) <==>
              LeavesUnchanged(ReducerOf(specs, t[i].name), Get(channels, t[i].name),
                              Committals(body, channels, oracle, history, t[i].name)) {
      LeavesUnchangedIff(ReducerOf(specs, t[i].name), Get(channels, t[i].name),
                         Committals(body, channels, oracle, history, t[i].name));
    }
  }

  lemma ReadyFrameReplaysIff(body: Body, specs: seq<ChannelSpec>, channels: Channels, oracle: Oracle,
                             history: seq<Change>)
    requires FrameReady(body, specs, channels, oracle, history)
    requires |LogsAfter(body, channels, oracle, Steps(history))| <= INDEX_VALUES
    ensures ReplaysAt(body, specs, channels, oracle, history) <==> UndisturbedAt(body, specs, channels, oracle, history)
  {
    var f := FrameAfter(body, specs, channels, oracle, history);
    ReplayEqualsDirectExecution(body, channels, oracle, Steps(history));
    RunsAgreeIff(body, channels, f.channels, f.logs);
    AgreeIffUndisturbed(body, specs, channels, oracle, history, f.channels);
  }

  lemma RerunIsReady(body: Body, specs: seq<ChannelSpec>, channels: Channels, oracle: Oracle, history: seq<Change>)
    requires FrameReady(body, specs, channels, oracle, history) && ReplaysAt(body, specs, channels, oracle, history)
    requires |LogsAfter(body, channels, oracle, Steps(history))| <= INDEX_VALUES
    ensures FrameReady(body, specs, channels, oracle, history + [Replayed(Rerun)])
  {
    var next := history + [Replayed(Rerun)];
    var f, o := FrameAfter(body, specs, channels, oracle, history), Expected(body, channels, oracle, history);
    assert next[..|history|] == history;
    ReplayEqualsDirectExecution(body, channels, oracle, Steps(history));
    LogsAfterOneMore(body, channels, oracle, Steps(history), Rerun);
    assert Response(0, f.logs, o).newLogs == NewLogs(f.logs, o);
    forall name ensures Get(FrameAfter(body, specs, channels, oracle, next).channels, name)
                        == Folded(ReducerOf(specs, name), Get(channels, name),
                                  Committals(body, channels, oracle, next, name)) {
      CommitFolds(specs, channels, f.channels, Response(0, f.logs, o).updates, name,
                  Committals(body, channels, oracle, history, name));
    }
  }

  lemma ResolveIsReady(body: Body, specs: seq<ChannelSpec>, channels: Channels, oracle: Oracle, history: seq<Change>)
    requires FrameReady(body, specs, channels, oracle, history)
    ensures FrameReady(body, specs, channels, oracle, history + [Replayed(Resolve)])
  {
    var next := history + [Replayed(Resolve)];
    assert next[..|history|] == history;
    LogsAfterOneMore(body, channels, oracle, Steps(history), Resolve);
    forall name
      ensures Committals(body, channels, oracle, next, name) == Committals(body, channels, oracle, history, name) {
    }
  }

  lemma ImportIsReady(body: Body, specs: seq<ChannelSpec>, channels: Channels, oracle: Oracle, history: seq<Change>,
                      updates: seq<ChannelUpdate>)
    requires FrameReady(body, specs, channels, oracle, history)
    ensures FrameReady(body, specs, channels, oracle, history + [Imported(updates)])
  {
    var next := history + [Imported(updates)];
    var f := FrameAfter(body, specs, channels, oracle, history);
    assert next[..|history|] == history;
    assert Steps(next) == Steps(history);
    forall name ensures Get(FrameAfter(body, specs, channels, oracle, next).channels, name)
                        == Folded(ReducerOf(specs, name), Get(channels, name),
                                  Committals(body, channels, oracle, next, name)) {
      CommitFolds(specs, channels, f.channels, updates, name, Committals(body, channels, oracle, history, name));
    }
  }

  /** Every run of the history went as expected. */
  ghost predicate AllReplay(body: Body, specs: seq<ChannelSpec>, channels: Channels, oracle: Oracle,
                            history: seq<Change>) {
    history == []
    || var front := history[..|history| - 1];
       && AllReplay(body, specs, channels, oracle, front)
       && (history[|history| - 1] == Replayed(Rerun) ==> ReplaysAt(body, specs, channels, oracle, front))
  }

  ghost predicate AllUndisturbed(body: Body, specs: seq<ChannelSpec>, channels: Channels, oracle: Oracle,
                                 history: seq<Change>) {
    history == []
    || var front := history[..|history| - 1];
       && AllUndisturbed(body, specs, channels, oracle, front)
       && (history[|history| - 1] == Replayed(Rerun) ==> UndisturbedAt(body, specs, channels, oracle, front))
  }

  lemma NextChange(body: Body, specs: seq<ChannelSpec>, channels: Channels, oracle: Oracle, front: seq<Change>,
                   last: Change)
    requires FrameReady(body, specs, channels, oracle, front)
    requires |LogsAfter(body, channels, oracle, Steps(front))| <= INDEX_VALUES
    ensures last == Replayed(Rerun) ==>
              (ReplaysAt(body, specs, channels, oracle, front) <==> UndisturbedAt(body, specs, channels, oracle, front))
    ensures (last == Replayed(Rerun) ==> ReplaysAt(body, specs, channels, oracle, front)) ==>
              FrameReady(body, specs, channels, oracle, front + [last])
  {
    match last
    case Imported(updates) => ImportIsReady(body, specs, channels, oracle, front, updates);
    case Replayed(Resolve) => ResolveIsReady(body, specs, channels, oracle, front);
    case Replayed(Rerun) =>
      ReadyFrameReplaysIff(body, specs, channels, oracle, front);
      if ReplaysAt(body, specs, channels, oracle, front) {
        RerunIsReady(body, specs, channels, oracle, front);
      }
  }

  lemma EarlierLogIsShorter(body: Body, channels: Channels, oracle: Oracle, front: seq<Change>, last: Change)
    ensures |LogsAfter(body, channels, oracle, Steps(front))|
            <= |LogsAfter(body, channels, oracle, Steps(front + [last]))|
  {
    assert (front + [last])[..|front|] == front;
    if last.Replayed? {
      LogsAfterOneMore(body, channels, oracle, Steps(front), last.step);
      StepGrowsLog(body, channels, oracle, LogsAfter(body, channels, oracle, Steps(front)), last.step);
    } else {
      assert Steps(front + [last]) == Steps(front);
    }
  }

  /** Over every history of runs, answers and imports: all runs go as expected, although
      the channels move under them, exactly when each expected run reads as inherited only
      channels that everything committed before it leaves unchanged. */
  lemma {:induction false} CommittedRunsReplayIff(body: Body, specs: seq<ChannelSpec>, channels: Channels,
      oracle: Oracle, history: seq<Change>)
    requires |LogsAfter(body, channels, oracle, Steps(history))| <= INDEX_VALUES
    ensures AllReplay(body, specs, channels, oracle, history)
            <==> AllUndisturbed(body, specs, channels, oracle, history)
    ensures AllUndisturbed(body, specs, channels, oracle, history)
            ==> FrameReady(body, specs, channels, oracle, history)
  {
    if history != [] {
      var front, last := history[..|history| - 1], history[|history| - 1];
      assert history == front + [last];
      EarlierLogIsShorter(body, channels, oracle, front, last);
      CommittedRunsReplayIff(body, specs, channels, oracle, front);
      if AllUndisturbed(body, specs, channels, oracle, front) {
        NextChange(body, specs, channels, oracle, front, last);
      }
    }
  }

  /** No run reads as inherited what anything before it was committed to. */
  ghost predicate AllUntouched(body: Body, channels: Channels, oracle: Oracle, history: seq<Change>) {
    history == []
    || var front := history[..|history| - 1];
       var t := Expected(body, channels, oracle, front).trace;
       && AllUntouched(body, channels, oracle, front)
       && (history[|history| - 1] == Replayed(Rerun) ==>
             forall i: nat :: i < |t| && ReadsInherited(t, i) ==>
               Committals(body, channels, oracle, front, t[i].name) == [])
  }

  /** In particular, replay is faithful, whatever the reducers, when no run reads as
      inherited a channel that an earlier run wrote or a child exported. */
  lemma {:induction false} UntouchedReadsReplay(body: Body, specs: seq<ChannelSpec>, channels: Channels,
                                                oracle: Oracle, history: seq<Change>)
    requires |LogsAfter(body, channels, oracle, Steps(history))| <= INDEX_VALUES
    requires AllUntouched(body, channels, oracle, history)
    ensures AllUndisturbed(body, specs, channels, oracle, history) && AllReplay(body, specs, channels, oracle, history)
  {
    if history != [] {
      var front, last := history[..|history| - 1], history[|history| - 1];
      assert history == front + [last];
      EarlierLogIsShorter(body, channels, oracle, front, last);
      UntouchedReadsReplay(body, specs, channels, oracle, front);
    }
    CommittedRunsReplayIff(body, specs, channels, oracle, history);
  }

  // ------------------------------------------------------- what channels end up as

  /** What the body itself has contributed to a channel so far. */
  function Own(body: Body, channels: Channels, oracle: Oracle, history: seq<Change>, name: string): seq<Value> {
    if history == [] then []
    else
      var front := history[..|history| - 1];
      var before := Own(body, channels, oracle, front, name);
      var now := OwnContributions(Expected(body, channels, oracle, front), name);
      if history[|history| - 1] == Replayed(Rerun) && before <= now then now else before
  }

  /** What should have been committed: everything once, when it first happened. */
  function Once(body: Body, channels: Channels, oracle: Oracle, history: seq<Change>, name: string): seq<Value> {
    if history == [] then []
    else
      var front, last := history[..|history| - 1], history[|history| - 1];
      var before := Own(body, channels, oracle, front, name);
      var now := OwnContributions(Expected(body, channels, oracle, front), name);
      Once(body, channels, oracle, front, name) +
      match last
      case Replayed(Rerun) => if before <= now then now[|before|..] else []
      case Replayed(Resolve) => []
      case Imported(updates) => Contributions(updates, name)
  }

  /** Some run commits to the channel again what an earlier run committed. */
  predicate Recommits(body: Body, channels: Channels, oracle: Oracle, history: seq<Change>, name: string) {
    history != []
    && var front := history[..|history| - 1];
       || Recommits(body, channels, oracle, front, name)
       || (history[|history| - 1] == Replayed(Rerun)
           && Own(body, channels, oracle, front, name) != []
           && OwnContributions(Expected(body, channels, oracle, front), name) != [])
  }

  lemma {:induction false} ContributionsGrow(a: seq<ChannelUpdate>, b: seq<ChannelUpdate>, name: string)
    requires a <= b
    ensures Contributions(a, name) <= Contributions(b, name)
  {
    assert b == a + b[|a|..];
    ContributionsConcat(a, b[|a|..], name);
  }

  lemma ExpectedGrows(body: Body, channels: Channels, oracle: Oracle, front: seq<Change>, last: Change)
    ensures Expected(body, channels, oracle, front).trace <= Expected(body, channels, oracle, front + [last]).trace
  {
    assert (front + [last])[..|front|] == front;
    var steps, steps' := Steps(front), Steps(front + [last]);
    assert steps'[..|steps|] == steps;
    AnswersGrow(steps', |steps|);
    DirectIsMonotone(body, channels, oracle, AnswersIn(steps), AnswersIn(steps'));
  }

  /** What the body contributed earlier, a later run contributes first. */
  lemma {:induction false} OwnComesFirst(body: Body, channels: Channels, oracle: Oracle, history: seq<Change>,
                                         name: string)
    ensures Own(body, channels, oracle, history, name)
            <= Contributions(Updates(0, Expected(body, channels, oracle, history).trace), name)
  {
    if history != [] {
      var front, last := history[..|history| - 1], history[|history| - 1];
      assert history == front + [last];
      OwnComesFirst(body, channels, oracle, front, name);
      ExpectedGrows(body, channels, oracle, front, last);
      var t, t' := Expected(body, channels, oracle, front).trace, Expected(body, channels, oracle, history).trace;
      UpdatesGrow(0, t, t');
      ContributionsGrow(Updates(0, t), Updates(0, t'), name);
    }
  }

  lemma OwnOrNothing(body: Body, channels: Channels, oracle: Oracle, history: seq<Change>, name: string)
    ensures var now := OwnContributions(Expected(body, channels, oracle, history), name);
            now == [] || Own(body, channels, oracle, history, name) <= now
  {
    OwnComesFirst(body, channels, oracle, history, name);
  }

  /** `all` misses nothing of `once`, and has something twice exactly if `repeats`. */
  ghost predicate RepeatsIff(all: seq<Value>, once: seq<Value>, own: seq<Value>, repeats: bool) {
    && (forall c :: c in all <==> c in once)
    && (forall c :: c in own ==> c in once)
    && |once| <= |all|
    && (all == once <==> !repeats)
    && (|all| == |once| <==> all == once)
  }

  lemma OneRunRepeats(all: seq<Value>, once: seq<Value>, own: seq<Value>, now: seq<Value>, repeats: bool)
    requires own <= now || now == []
    requires RepeatsIff(all, once, own, repeats)
    ensures RepeatsIff(all + now, once + (if own <= now then now[|own|..] else []), if own <= now then now else own,
                       repeats || (own != [] && now != []))
  {
    if own <= now {
      assert now == own + now[|own|..];
    }
  }

  lemma OneImportRepeats(all: seq<Value>, once: seq<Value>, own: seq<Value>, more: seq<Value>, repeats: bool)
    requires RepeatsIff(all, once, own, repeats)
    ensures RepeatsIff(all + more, once + more, own, repeats)
  {
    assert (all + more)[..|all|] == all && (once + more)[..|once|] == once;
  }

  ghost predicate CommitsOnceIff(body: Body, channels: Channels, oracle: Oracle, history: seq<Change>, name: string) {
    RepeatsIff(Committals(body, channels, oracle, history, name), Once(body, channels, oracle, history, name),
               Own(body, channels, oracle, history, name), Recommits(body, channels, oracle, history, name))
  }

  lemma RunCommitsOnceIff(body: Body, channels: Channels, oracle: Oracle, history: seq<Change>, name: string)
    requires CommitsOnceIff(body, channels, oracle, history, name)
    ensures CommitsOnceIff(body, channels, oracle, history + [Replayed(Rerun)], name)
  {
    AfterRun(body, channels, oracle, history, name);
    OwnOrNothing(body, channels, oracle, history, name);
    OneRunRepeats(Committals(body, channels, oracle, history, name), Once(body, channels, oracle, history, name),
                  Own(body, channels, oracle, history, name),
                  OwnContributions(Expected(body, channels, oracle, history), name),
                  Recommits(body, channels, oracle, history, name));
  }

  lemma OtherCommitsOnceIff(body: Body, channels: Channels, oracle: Oracle, history: seq<Change>, change: Change,
                            name: string)
    requires CommitsOnceIff(body, channels, oracle, history, name) && change != Replayed(Rerun)
    ensures CommitsOnceIff(body, channels, oracle, history + [change], name)
  {
    assert (history + [change])[..|history|] == history;
    OneImportRepeats(Committals(body, channels, oracle, history, name), Once(body, channels, oracle, history, name),
                     Own(body, channels, oracle, history, name),
                     if change.Imported? then Contributions(change.updates, name) else [],
                     Recommits(body, channels, oracle, history, name));
  }

  lemma ChangeCommitsOnceIff(body: Body, channels: Channels, oracle: Oracle, front: seq<Change>, last: Change,
                             history: seq<Change>, name: string)
    requires CommitsOnceIff(body, channels, oracle, front, name) && history == front + [last]
    ensures CommitsOnceIff(body, channels, oracle, history, name)
  {
    if last == Replayed(Rerun) {
      RunCommitsOnceIff(body, channels, oracle, front, name);
    } else {
      OtherCommitsOnceIff(body, channels, oracle, front, last, name);
    }
  }

  lemma NothingCommitted(body: Body, channels: Channels, oracle: Oracle, name: string)
    ensures CommitsOnceIff(body, channels, oracle, [], name)
  {
  }

  /** How the committals differ from each contribution once: nothing is missing, and
      something is repeated exactly if a run recommits. */
  lemma {:induction false} CommittalsAgainstOnce(body: Body, channels: Channels, oracle: Oracle, history: seq<Change>,
                                                 name: string)
    ensures CommitsOnceIff(body, channels, oracle, history, name)
  {
    if history == [] {
      NothingCommitted(body, channels, oracle, name);
    } else {
      CommittalsAgainstOnce(body, channels, oracle, history[..|history| - 1], name);
      ChangeCommitsOnceIff(body, channels, oracle, history[..|history| - 1], history[|history| - 1], history, name);
    }
  }

  function Last(values: seq<Value>): Option<Value> {
    if values == [] then None else Some(values[|values| - 1])
  }

  lemma FoldedAlikeIff(reducer: Reducer, inherited: Option<Value>, all: seq<Value>, once: seq<Value>)
    requires forall c :: c in all <==> c in once
    ensures Folded(reducer, inherited, all) == Folded(reducer, inherited, once) <==>
            match reducer
            case LastWriteWins => Last(all) == Last(once)
            case Append => all == once
            case Max => true
  {
    assert all == [] <==> once == [] by {
      if all != [] { assert all[0] in once; }
      if once != [] { assert once[0] in all; }
    }
    if all != [] {
      match reducer
      case LastWriteWins =>
      case Append =>
        assert (Items(inherited) + all)[|Items(inherited)|..] == all;
        assert (Items(inherited) + once)[|Items(inherited)|..] == once;
      case Max => MaxDependsOnlyOnValuesSeen(inherited, all, once);
    }
  }

  /** When replay is faithful, a channel ends as if everything had been committed once,
      when it first happened: always if it takes the maximum; if it appends, exactly when
      no run committed again what an earlier one had; and if the last write wins, exactly
      when the repetitions leave the same write last. */
  lemma ChannelsAreFaithfulIff(body: Body, specs: seq<ChannelSpec>, channels: Channels, oracle: Oracle,
                               history: seq<Change>, name: string)
    requires |LogsAfter(body, channels, oracle, Steps(history))| <= INDEX_VALUES
    requires AllUndisturbed(body, specs, channels, oracle, history)
    ensures var all, once := Committals(body, channels, oracle, history, name),
                             Once(body, channels, oracle, history, name);
            Get(FrameAfter(body, specs, channels, oracle, history).channels, name)
            == Folded(ReducerOf(specs, name), Get(channels, name), once)
            <==>
            match ReducerOf(specs, name)
            case LastWriteWins => Last(all) == Last(once)
            case Append => !Recommits(body, channels, oracle, history, name)
            case Max => true
  {
    CommittedRunsReplayIff(body, specs, channels, oracle, history);
    CommittalsAgainstOnce(body, channels, oracle, history, name);
    FoldedAlikeIff(ReducerOf(specs, name), Get(channels, name),
                   Committals(body, channels, oracle, history, name), Once(body, channels, oracle, history, name));
  }

  /** No child exports to the channel. */
  predicate NeverImported(history: seq<Change>, name: string) {
    history == []
    || var last := history[|history| - 1];
       && NeverImported(history[..|history| - 1], name)
       && (last.Imported? ==> Contributions(last.updates, name) == [])
  }

  lemma OneRunStaysLast(all: seq<Value>, own: seq<Value>, now: seq<Value>)
    requires (own <= now || now == []) && Last(all) == Last(own)
    ensures own + (if own <= now then now[|own|..] else []) == if own <= now then now else own
    ensures Last(all + now) == Last(if own <= now then now else own)
  {
    if own <= now {
      assert now == own + now[|own|..];
    }
    if now == [] {
      assert all + now == all;
    }
  }

  ghost predicate StaysLast(body: Body, channels: Channels, oracle: Oracle, history: seq<Change>, name: string) {
    var own := Own(body, channels, oracle, history, name);
    && Once(body, channels, oracle, history, name) == own
    && Last(Committals(body, channels, oracle, history, name)) == Last(own)
  }

  lemma AfterRun(body: Body, channels: Channels, oracle: Oracle, history: seq<Change>, name: string)
    ensures var next := history + [Replayed(Rerun)];
            var before, now := Own(body, channels, oracle, history, name),
                               OwnContributions(Expected(body, channels, oracle, history), name);
            && Own(body, channels, oracle, next, name) == (if before <= now then now else before)
            && Once(body, channels, oracle, next, name)
               == Once(body, channels, oracle, history, name) + (if before <= now then now[|before|..] else [])
            && Committals(body, channels, oracle, next, name) == Committals(body, channels, oracle, history, name) + now
            && Recommits(body, channels, oracle, next, name)
               == (Recommits(body, channels, oracle, history, name) || (before != [] && now != []))
  {
    assert (history + [Replayed(Rerun)])[..|history|] == history;
  }

  lemma RunStaysLast(body: Body, channels: Channels, oracle: Oracle, history: seq<Change>, name: string)
    requires StaysLast(body, channels, oracle, history, name)
    ensures StaysLast(body, channels, oracle, history + [Replayed(Rerun)], name)
  {
    AfterRun(body, channels, oracle, history, name);
    OwnOrNothing(body, channels, oracle, history, name);
    OneRunStaysLast(Committals(body, channels, oracle, history, name), Own(body, channels, oracle, history, name),
                    OwnContributions(Expected(body, channels, oracle, history), name));
  }

  lemma OtherChangeStaysLast(body: Body, channels: Channels, oracle: Oracle, history: seq<Change>, change: Change,
                             name: string)
    requires StaysLast(body, channels, oracle, history, name)
    requires change == Replayed(Resolve) || (change.Imported? && Contributions(change.updates, name) == [])
    ensures StaysLast(body, channels, oracle, history + [change], name)
  {
    assert (history + [change])[..|history|] == history;
    var all, own := Committals(body, channels, oracle, history, name), Own(body, channels, oracle, history, name);
    assert all + [] == all && own + [] == own;
  }

  lemma ChangeStaysLast(body: Body, channels: Channels, oracle: Oracle, front: seq<Change>, last: Change,
                        history: seq<Change>, name: string)
    requires StaysLast(body, channels, oracle, front, name)
    requires last.Imported? ==> Contributions(last.updates, name) == []
    requires history == front + [last]
    ensures StaysLast(body, channels, oracle, history, name)
  {
    if last == Replayed(Rerun) {
      RunStaysLast(body, channels, oracle, front, name);
    } else {
      OtherChangeStaysLast(body, channels, oracle, front, last, name);
    }
  }

  /** On a channel that children never export to, repetitions leave the last write last. */
  lemma {:induction false} OwnWritesStayLast(body: Body, channels: Channels, oracle: Oracle, history: seq<Change>,
                                             name: string)
    requires NeverImported(history, name)
    ensures StaysLast(body, channels, oracle, history, name)
  {
    if history != [] {
      OwnWritesStayLast(body, channels, oracle, history[..|history| - 1], name);
      ChangeStaysLast(body, channels, oracle, history[..|history| - 1], history[|history| - 1], history, name);
    }
  }

  // ------------------------------------------------------------ a failing body

  function Incremented(v: Option<Value>): Value {
    if v.Some? && v.value.Int? then Int(v.value.i + 1) else Int(1)
  }

  /** Increments a counter, asks, and ends. */
  function CounterNext(t: seq<Event>): Action {
    if |t| == 0 then Read("n")
    else if |t| == 1 then Write("n", if t[0].DidRead? then Incremented(t[0].seen) else Null)
    else if |t| == 2 then Ask(GraphLog("g"))
    else Return(Completed)
  }

  function CounterBody(): Body {
    Code(CounterNext, (channels: Channels, t: seq<Event>) => if |t| < 2 then 2 - |t| else 0)
  }

  /** The counter's trace up to its request, when it starts at `i`. */
  function CounterTrace(i: int): seq<Event> {
    [DidRead("n", Some(Int(i))), DidWrite("n", Int(i + 1))]
  }

  lemma CounterWrites(i: int)
    ensures Requests(CounterTrace(i)) == []
    ensures Updates(0, CounterTrace(i)) == [ChannelUpdate("n", Int(i + 1), 0)]
  {
    var read := DidRead("n", Some(Int(i)));
    assert [read] + [DidWrite("n", Int(i + 1))] == CounterTrace(i);
    Extended(0, [read], DidWrite("n", Int(i + 1)));
  }

  lemma CounterReads(channels: Channels, i: int, logs: seq<RunLog>)
    requires Get(channels, "n") == Some(Int(i))
    ensures Requests([DidRead("n", Some(Int(i)))]) == []
    ensures Run(CounterBody(), channels, logs, []) == Run(CounterBody(), channels, logs, [DidRead("n", Some(Int(i)))])
  {
    var read := DidRead("n", Some(Int(i)));
    assert [] + [read] == [read];
    Extended(0, [], read);
    assert Performs(CounterBody(), channels, [], read);
    RunPerforms(CounterBody(), channels, logs, [], read);
  }

  lemma CounterRuns(channels: Channels, i: int, logs: seq<RunLog>)
    requires Get(channels, "n") == Some(Int(i))
    ensures Requests(CounterTrace(i)) == []
    ensures Run(CounterBody(), channels, logs, []) == Run(CounterBody(), channels, logs, CounterTrace(i))
  {
    var read, write := DidRead("n", Some(Int(i))), DidWrite("n", Int(i + 1));
    assert [read] + [write] == CounterTrace(i);
    CounterReads(channels, i, logs);
    CounterWrites(i);
    assert Performs(CounterBody(), channels, [read], write);
    RunPerforms(CounterBody(), channels, logs, [read], write);
  }

  lemma CounterExecutes(channels: Channels, i: int, oracle: Oracle)
    requires Get(channels, "n") == Some(Int(i))
    ensures Direct(CounterBody(), channels, oracle, [], 1)
            == Direct(CounterBody(), channels, oracle, CounterTrace(i), 1)
  {
    var read, write := DidRead("n", Some(Int(i))), DidWrite("n", Int(i + 1));
    assert [] + [read] == [read] && [read] + [write] == CounterTrace(i);
    DirectPerforms(CounterBody(), channels, oracle, [], 1, read);
    DirectPerforms(CounterBody(), channels, oracle, [read], 1, write);
  }

  lemma CounterCommits(channels: Channels, i: int, t: seq<Event>)
    requires Updates(0, t) == [ChannelUpdate("n", Int(i + 1), 0)]
    ensures Get(Committed([], channels, Updates(0, t)), "n") == Some(Int(i + 1))
  {
    CommittedLooksUp([], channels, Updates(0, t), "n");
    ContributionsExtended([], ChannelUpdate("n", Int(i + 1), 0), "n");
    assert [] + [ChannelUpdate("n", Int(i + 1), 0)] == Updates(0, t);
  }

  lemma CounterEnds(channels: Channels, i: int, oracle: Oracle)
    requires Get(channels, "n") == Some(Int(i))
    ensures var ask := DidAsk(GraphLog("g"), oracle(0, GraphLog("g")));
            && Direct(CounterBody(), channels, oracle, [], 1) == Finished(CounterTrace(i) + [ask], Completed)
            && Updates(0, CounterTrace(i) + [ask]) == [ChannelUpdate("n", Int(i + 1), 0)]
  {
    var ask := DidAsk(GraphLog("g"), oracle(0, GraphLog("g")));
    CounterExecutes(channels, i, oracle);
    CounterWrites(i);
    DirectPerforms(CounterBody(), channels, oracle, CounterTrace(i), 1, ask);
    Extended(0, CounterTrace(i), ask);
  }

  lemma CounterFirstRun(channels: Channels, oracle: Oracle, f: Frame)
    requires Get(channels, "n") == Some(Int(0))
    requires f == AfterChange(CounterBody(), [], oracle, Frame(channels, []), Replayed(Rerun))
    ensures f.logs == [Reservation(0, GraphLog("g"))] && Get(f.channels, "n") == Some(Int(1))
  {
    CounterRuns(channels, 0, []);
    CounterWrites(0);
    var outcome := Run(CounterBody(), channels, [], []);
    assert outcome == Suspended(CounterTrace(0), GraphLog("g"));
    CounterCommits(channels, 0, CounterTrace(0));
    assert [] + Response(0, [], outcome).newLogs == [Reservation(0, GraphLog("g"))];
  }

  lemma CounterIsAnswered(f: Frame, oracle: Oracle, f': Frame)
    requires f.logs == [Reservation(0, GraphLog("g"))]
    requires f' == AfterChange(CounterBody(), [], oracle, f, Replayed(Resolve))
    ensures f' == Frame(f.channels, [Answered(oracle, 0, GraphLog("g"))])
  {
    assert PendingPosition(f.logs) == Some(0);
    assert f'.logs == ResolveLog(f.logs, 0, oracle(0, GraphLog("g")));
  }

  lemma CounterSecondRun(f: Frame, oracle: Oracle, f': Frame)
    requires Get(f.channels, "n") == Some(Int(1)) && f.logs == [Answered(oracle, 0, GraphLog("g"))]
    requires f' == AfterChange(CounterBody(), [], oracle, f, Replayed(Rerun))
    ensures Get(f'.channels, "n") == Some(Int(2))
  {
    var ask := DidAsk(GraphLog("g"), oracle(0, GraphLog("g")));
    CounterRuns(f.channels, 1, f.logs);
    CounterWrites(1);
    Extended(0, CounterTrace(1), ask);
    RunPerforms(CounterBody(), f.channels, f.logs, CounterTrace(1), ask);
    assert Run(CounterBody(), f.channels, f.logs, []) == Finished(CounterTrace(1) + [ask], Completed);
    CounterCommits(f.channels, 1, CounterTrace(1) + [ask]);
  }

  /** When channels are disturbed replay fails: a body that increments a channel and then
      asks once leaves it incremented twice, where a direct execution increments it once. */
  lemma CounterIsIncrementedTwice(channels: Channels, oracle: Oracle)
    requires Get(channels, "n") == Some(Int(0))
    ensures var d := Direct(CounterBody(), channels, oracle, [], 1);
            var f := FrameAfter(CounterBody(), [], channels, oracle,
                                [Replayed(Rerun)] + [Replayed(Resolve)] + [Replayed(Rerun)]);
            && d.Finished?
            && Get(Committed([], channels, Updates(0, d.trace)), "n") == Some(Int(1))
            && Get(f.channels, "n") == Some(Int(2))
  {
    CounterEnds(channels, 0, oracle);
    CounterCommits(channels, 0, CounterTrace(0) + [DidAsk(GraphLog("g"), oracle(0, GraphLog("g")))]);
    var body, run, answer := CounterBody(), Replayed(Rerun), Replayed(Resolve);
    FrameAfterOneMore(body, [], channels, oracle, [], run);
    FrameAfterOneMore(body, [], channels, oracle, [run], answer);
    FrameAfterOneMore(body, [], channels, oracle, [run] + [answer], run);
    assert [] + [run] == [run];
    var first := FrameAfter(body, [], channels, oracle, [run]);
    var second := FrameAfter(body, [], channels, oracle, [run] + [answer]);
    CounterFirstRun(channels, oracle, first);
    CounterIsAnswered(first, oracle, second);
    CounterSecondRun(second, oracle, FrameAfter(body, [], channels, oracle, [run] + [answer] + [run]));
  }

  /** No answer is needed for that: run again because its child failed, the body already
      reads its own increment, before the very request it is still waiting for. */
  lemma UnansweredCounterSeesItself(channels: Channels, oracle: Oracle)
    requires Get(channels, "n") == Some(Int(0))
    ensures var f := FrameAfter(CounterBody(), [], channels, oracle, [Replayed(Rerun)]);
            && Run(CounterBody(), channels, [], []) == Suspended(CounterTrace(0), GraphLog("g"))
            && Run(CounterBody(), f.channels, f.logs, []) == Suspended(CounterTrace(1), GraphLog("g"))
  {
    FrameAfterOneMore(CounterBody(), [], channels, oracle, [], Replayed(Rerun));
    assert [] + [Replayed(Rerun)] == [Replayed(Rerun)];
    var f := FrameAfter(CounterBody(), [], channels, oracle, [Replayed(Rerun)]);
    CounterFirstRun(channels, oracle, f);
    CounterRuns(channels, 0, []);
    CounterRuns(f.channels, 1, f.logs);
  }
}
