/** The positional replay log of a node body: reservations are identified by their
    order of call alone. */
module RunLog {
  import opened Wrappers
  import opened Json

  datatype RequestAskExpert = RequestAskExpert(task: string, expertId: string)
  datatype RequestToolCall = RequestToolCall(name: string, parameters: Value)

  datatype RunLogContent =
    | ConsultExpertsLog(experts: seq<RequestAskExpert>)
    | CallToolsLog(calls: seq<RequestToolCall>)
    | GraphLog(graphId: string)
    | HitlLog(request: Value)

  datatype RunLog = RunLog(index: nat, content: RunLogContent, value: Option<Value>)

  /** Indices are stored on 32 bits: positions are truncated to this many values. */
  const INDEX_VALUES: nat := 0x1_0000_0000

  function Reservation(position: nat, content: RunLogContent): RunLog {
    RunLog(position % INDEX_VALUES, content, None)
  }

  /** The entries after one reservation made with the cursor at `cursor`. */
  function Reserved(entries: seq<RunLog>, cursor: nat, content: RunLogContent): seq<RunLog> {
    if cursor >= |entries| then entries + [Reservation(|entries|, content)] else entries
  }

  class RunLogs {
    var entries: seq<RunLog>
    var persistedLen: nat
    var cursor: nat

    ghost predicate Valid()
      reads this
    {
      persistedLen <= |entries| && cursor <= |entries|
    }

    constructor (persisted: seq<RunLog>)
      ensures Valid()
      ensures entries == persisted && persistedLen == |persisted| && cursor == 0
    {
      entries := persisted;
      persistedLen := |persisted|;
      cursor := 0;
    }

    /** Advances the cursor over the entry at its position, creating it if it is missing;
        a persisted entry keeps its own content. */
    method ReserveLog(content: RunLogContent) returns (logRef: nat)
      requires Valid()
      modifies this
      ensures Valid() && persistedLen == old(persistedLen)
      ensures logRef == old(cursor) && cursor == old(cursor) + 1
      ensures entries == Reserved(old(entries), old(cursor), content)
    {
      logRef := cursor;
      cursor := cursor + 1;
      if logRef >= |entries| {
        entries := entries + [RunLog(logRef % INDEX_VALUES, content, None)];
      }
    }

    method Check(logRef: nat) returns (value: Option<Value>)
      requires logRef < |entries|
      ensures value == entries[logRef].value
    {
      value := entries[logRef].value;
    }

    /** The entries this run created. */
    method IntoNewLogs() returns (newLogs: seq<RunLog>)
      requires Valid()
      ensures entries == entries[..persistedLen] + newLogs
    {
      newLogs := entries[persistedLen..];
    }
  }

  // ------------------------------------------- the environment's side of a log

  /** Position of the last entry without a value, if there is one. */
  function PendingPosition(logs: seq<RunLog>): Option<nat> {
    if logs == [] then None
    else if logs[|logs| - 1].value.None? then Some(|logs| - 1)
    else PendingPosition(logs[..|logs| - 1])
  }

  /** Sets the value of the first entry that carries `index`. */
  function ResolveLog(logs: seq<RunLog>, index: nat, value: Value): seq<RunLog> {
    if logs == [] then []
    else if logs[0].index == index then [logs[0].(value := Some(value))] + logs[1..]
    else [logs[0]] + ResolveLog(logs[1..], index, value)
  }

  lemma {:induction false} ResolveKeepsLength(logs: seq<RunLog>, index: nat, value: Value)
    ensures |ResolveLog(logs, index, value)| == |logs|
  {
    if logs != [] && logs[0].index != index {
      ResolveKeepsLength(logs[1..], index, value);
    }
  }

  /** Every entry carries its own position, as far as 32 bits can tell. */
  ghost predicate Positional(logs: seq<RunLog>) {
    forall i :: 0 <= i < |logs| ==> logs[i].index == i % INDEX_VALUES
  }

  lemma {:induction false} ResolveFirstMatch(logs: seq<RunLog>, position: nat, value: Value)
    requires position < |logs|
    requires forall i :: 0 <= i < position ==> logs[i].index != logs[position].index
    ensures ResolveLog(logs, logs[position].index, value) == logs[position := logs[position].(value := Some(value))]
  {
    if position > 0 {
      assert logs[1..][position - 1] == logs[position];
      ResolveFirstMatch(logs[1..], position - 1, value);
    }
  }

  /** Resolution by index reaches the entry at the position the index can express. */
  lemma ResolutionReachesTruncated(logs: seq<RunLog>, position: nat, value: Value)
    requires Positional(logs) && position < |logs|
    ensures var first := position % INDEX_VALUES;
            first <= position &&
            ResolveLog(logs, logs[position].index, value) == logs[first := logs[first].(value := Some(value))]
  {
    var first := position % INDEX_VALUES;
    assert first % INDEX_VALUES == first;
    assert logs[first].index == logs[position].index;
    forall i | 0 <= i < first ensures logs[i].index != logs[first].index {
      assert i % INDEX_VALUES == i;
    }
    ResolveFirstMatch(logs, first, value);
  }

  /** What resolving the entry at `position` should do. */
  function ResolvedAt(logs: seq<RunLog>, position: nat, value: Value): seq<RunLog>
    requires position < |logs|
  {
    logs[position := logs[position].(value := Some(value))]
  }

  /** Resolving an entry by its stored index reaches that entry, for every value, exactly
      when its position fits the index's width. */
  lemma ResolutionReachesEntry(logs: seq<RunLog>, position: nat)
    requires Positional(logs) && position < |logs|
    ensures (forall v :: ResolveLog(logs, logs[position].index, v) == ResolvedAt(logs, position, v))
            <==> position < 0x1_0000_0000
  {
    if position < INDEX_VALUES {
      forall v ensures ResolveLog(logs, logs[position].index, v) == ResolvedAt(logs, position, v) {
        ResolutionReachesTruncated(logs, position, v);
      }
    } else {
      var v := if logs[position].value == Some(Null) then Bool(true) else Null;
      ResolutionReachesTruncated(logs, position, v);
      assert ResolveLog(logs, logs[position].index, v)[position] == logs[position];
      assert ResolvedAt(logs, position, v)[position] != logs[position];
    }
  }

  lemma {:induction false} PendingIsLastUnresolved(logs: seq<RunLog>)
    ensures PendingPosition(logs).None? ==> forall l :: l in logs ==> l.value.Some?
    ensures PendingPosition(logs).Some? ==>
              var p := PendingPosition(logs).value;
              p < |logs| && logs[p].value.None? && forall i :: p < i < |logs| ==> logs[i].value.Some?
  {
    if logs != [] && logs[|logs| - 1].value.Some? {
      PendingIsLastUnresolved(logs[..|logs| - 1]);
    }
  }
}
