/** Channel reducers, and the tracker through which a node body reads inherited
    channels and piles up its own contributions. */
module Channels {
  import opened Wrappers
  import opened Json

  type Channels = map<string, Value>

  datatype Reducer = LastWriteWins | Append | Max

  datatype ChannelUpdate = ChannelUpdate(name: string, value: Value, contributor: nat)

  function Get(channels: Channels, name: string): Option<Value> {
    if name in channels then Some(channels[name]) else None
  }

  // ---------------------------------------------------------------- reducers

  /** The greatest number among an optional start and the numeric contributions. */
  function Best(start: Option<real>, contributions: seq<Value>): Option<real> {
    if contributions == [] then start
    else
      var rest := Best(start, contributions[..|contributions| - 1]);
      match contributions[|contributions| - 1].AsFloat()
      case None => rest
      case Some(n) => if rest.Some? && rest.value >= n then rest else Some(n)
  }

  function Items(current: Option<Value>): seq<Value> {
    if current.Some? && current.value.Array? then current.value.items else []
  }

  function Reading(current: Option<Value>): Option<real> {
    if current.Some? then current.value.AsFloat() else None
  }

  /** What a channel holds once `contributions` have been folded into `current`. */
  function Reduced(reducer: Reducer, current: Option<Value>, contributions: seq<Value>): Value {
    match reducer
    case LastWriteWins =>
      if contributions != [] then contributions[|contributions| - 1]
      else if current.Some? then current.value else Null
    case Append => Array(Items(current) + contributions)
    case Max =>
      var best := Best(Reading(current), contributions);
      if best.Some? then Float(best.value) else Null
  }

  method Reduce(reducer: Reducer, current: Option<Value>, contributions: seq<Value>) returns (v: Value)
    ensures v == Reduced(reducer, current, contributions)
  {
    match reducer
    case LastWriteWins =>
      if |contributions| > 0 {
        v := contributions[|contributions| - 1];
      } else {
        v := if current.Some? then current.value else Null;
      }
    case Append =>
      var vec := if current.Some? && current.value.Array? then current.value.items else [];
      vec := vec + contributions;
      v := Array(vec);
    case Max =>
      var best := if current.Some? then current.value.AsFloat() else None;
      for i := 0 to |contributions|
        invariant best == Best(Reading(current), contributions[..i])
      {
        assert contributions[..i + 1][..i] == contributions[..i];
        var n := contributions[i].AsFloat();
        if n.Some? {
          best := if best.Some? && best.value >= n.value then best else n;
        }
      }
      assert contributions[..|contributions|] == contributions;
      v := if best.Some? then Float(best.value) else Null;
  }

  /** The numbers a Max channel has seen: its start and its numeric contributions. */
  ghost function Seen(start: Option<real>, contributions: seq<Value>): set<real> {
    (if start.Some? then {start.value} else {}) +
    set c | c in contributions && c.AsFloat().Some? :: c.AsFloat().value
  }

  /** `Best` is the maximum of everything seen, and is absent exactly when nothing
      numeric was seen: the definition by values rather than by order. */
  lemma {:induction false} BestIsMaximum(start: Option<real>, contributions: seq<Value>)
    ensures Best(start, contributions).None? <==> Seen(start, contributions) == {}
    ensures Best(start, contributions).Some? ==>
              && Best(start, contributions).value in Seen(start, contributions)
              && forall x :: x in Seen(start, contributions) ==> x <= Best(start, contributions).value
  {
    if contributions != [] {
      var front, last := contributions[..|contributions| - 1], contributions[|contributions| - 1];
      BestIsMaximum(start, front);
      assert contributions == front + [last];
      assert Seen(start, contributions) ==
             Seen(start, front) + if last.AsFloat().Some? then {last.AsFloat().value} else {};
    }
  }

  /** Two Max histories that saw the same numbers agree: order and repetition of the
      contributions do not matter. */
  lemma MaxDependsOnlyOnValuesSeen(current: Option<Value>, a: seq<Value>, b: seq<Value>)
    requires forall c :: c in a <==> c in b
    ensures Reduced(Max, current, a) == Reduced(Max, current, b)
  {
    BestIsMaximum(Reading(current), a);
    BestIsMaximum(Reading(current), b);
    assert Seen(Reading(current), a) == Seen(Reading(current), b);
  }

  /** An Append channel keeps the multiset of its contributions under any reordering. */
  lemma AppendKeepsContributions(current: Option<Value>, a: seq<Value>, b: seq<Value>)
    requires multiset(a) == multiset(b)
    ensures multiset(Items(Some(Reduced(Append, current, a)))) == multiset(Items(current)) + multiset(a)
    ensures multiset(Items(Some(Reduced(Append, current, a)))) == multiset(Items(Some(Reduced(Append, current, b))))
  {
    assert multiset(Items(current) + a) == multiset(Items(current)) + multiset(a);
    assert multiset(Items(current) + b) == multiset(Items(current)) + multiset(b);
  }

  /** Append keeps what it holds in place and puts the k-th contribution k places after it;
      anything that is not an array counts as empty. */
  lemma AppendPlaces(current: Option<Value>, contributions: seq<Value>, k: nat)
    requires k < |contributions|
    ensures var r := Reduced(Append, current, contributions);
            && r.Array? && |r.items| == |Items(current)| + |contributions|
            && r.items[..|Items(current)|] == Items(current)
            && r.items[|Items(current)| + k] == contributions[k]
  {
  }

  lemma ItemsIff(current: Option<Value>)
    ensures forall items :: current == Some(Array(items)) ==> Items(current) == items
    ensures (forall items :: current != Some(Array(items))) ==> Items(current) == []
  {
    if current.Some? && current.value.Array? {
      assert current == Some(Array(current.value.items));
    }
  }

  /** The last contribution wins; without any, the channel keeps its value. */
  lemma LastWriteStands(current: Option<Value>, contributions: seq<Value>)
    ensures contributions != [] ==> Reduced(LastWriteWins, current, contributions) == contributions[|contributions| - 1]
    ensures contributions == [] && current.Some? ==> Some(Reduced(LastWriteWins, current, [])) == current
    ensures contributions == [] && current.None? ==> Reduced(LastWriteWins, current, []) == Null
  {
  }

  function Integers(xs: seq<int>): seq<Value> {
    seq(|xs|, i requires 0 <= i < |xs| => Int(xs[i]))
  }

  /** Over integers, Max is the greatest of the current one and the contributed ones, as a
      floating-point number. */
  lemma MaxOfIntegers(current: int, xs: seq<int>, m: int)
    requires m == current || m in xs
    requires current <= m && forall x :: x in xs ==> x <= m
    ensures Reduced(Max, Some(Int(current)), Integers(xs)) == Float(m as real)
  {
    BestIsMaximum(Some(current as real), Integers(xs));
    var seen := Seen(Some(current as real), Integers(xs));
    if m in xs {
      var i :| 0 <= i < |xs| && xs[i] == m;
      assert Integers(xs)[i] == Int(m) && Int(m) in Integers(xs);
    }
    assert m as real in seen;
    forall r | r in seen ensures r <= m as real {
      if r != current as real {
        var c :| c in Integers(xs) && c.AsFloat() == Some(r);
        var i :| 0 <= i < |xs| && Integers(xs)[i] == c;
        assert xs[i] in xs;
      }
    }
  }

  /** What is not a number is never seen by Max. */
  lemma MaxIgnoresTheRest(current: Option<Value>, contributions: seq<Value>)
    requires current.Some? ==> !current.value.Int? && !current.value.Float?
    requires forall c :: c in contributions ==> !c.Int? && !c.Float?
    ensures Reduced(Max, current, contributions) == Null
  {
    BestIsMaximum(Reading(current), contributions);
  }

  lemma {:induction false} BestSplits(start: Option<real>, a: seq<Value>, b: seq<Value>)
    ensures Best(start, a + b) == Best(Best(start, a), b)
  {
    if b == [] {
      assert a + b == a;
    } else {
      assert (a + b)[..|a + b| - 1] == a + b[..|b| - 1];
      BestSplits(start, a, b[..|b| - 1]);
    }
  }

  /** Folding contributions in two batches, the second on top of the first's result,
      is folding them at once — for every reducer, any split, and any current value,
      be it absent or of the wrong type. */
  lemma BatchesReduceAlike(reducer: Reducer, current: Option<Value>, a: seq<Value>, b: seq<Value>)
    ensures Reduced(reducer, Some(Reduced(reducer, current, a)), b) == Reduced(reducer, current, a + b)
  {
    match reducer
    case LastWriteWins => if b == [] { assert a + b == a; }
    case Append => assert Items(current) + a + b == Items(current) + (a + b);
    case Max => BestSplits(Reading(current), a, b);
  }

  /** Committing the early contributions and then all of them again leaves the channel as
      one commit of all would, exactly when it is not an Append channel: an Append channel
      then holds the early ones twice. */
  lemma RecommittingPrefix(reducer: Reducer, current: Option<Value>, early: seq<Value>, late: seq<Value>)
    requires early != []
    ensures Reduced(reducer, Some(Reduced(reducer, current, early)), early + late)
            == Reduced(reducer, current, early + late)
            <==> reducer != Append
  {
    var all := early + late;
    match reducer
    case LastWriteWins =>
    case Append =>
      var once := Items(current) + all;
      var twice := Items(current) + early + all;
      assert |twice| == |once| + |early|;
    case Max =>
      BatchesReduceAlike(Max, current, early, all);
      assert forall c :: c in early + all <==> c in all;
      MaxDependsOnlyOnValuesSeen(current, early + all, all);
  }

  // ----------------------------------------------------------------- tracker

  /** The latest own update of `name`, else the inherited value. */
  function Lookup(channels: Channels, updates: seq<ChannelUpdate>, name: string): Option<Value> {
    if updates == [] then Get(channels, name)
    else
      var last := updates[|updates| - 1];
      if last.name == name then Some(last.value) else Lookup(channels, updates[..|updates| - 1], name)
  }

  lemma {:induction false} LookupSkips(channels: Channels, updates: seq<ChannelUpdate>, n: nat, name: string)
    requires n <= |updates| && forall j :: n <= j < |updates| ==> updates[j].name != name
    ensures Lookup(channels, updates, name) == Lookup(channels, updates[..n], name)
  {
    if n == |updates| {
      assert updates[..n] == updates;
    } else {
      LookupSkips(channels, updates[..|updates| - 1], n, name);
      assert updates[..|updates| - 1][..n] == updates[..n];
    }
  }

  /** A read answers with the update at the greatest position that names the channel. */
  lemma {:induction false} LookupSeesLatestWrite(channels: Channels, updates: seq<ChannelUpdate>, i: nat)
    requires i < |updates| && forall j :: i < j < |updates| ==> updates[j].name != updates[i].name
    ensures Lookup(channels, updates, updates[i].name) == Some(updates[i].value)
  {
    LookupSkips(channels, updates, i + 1, updates[i].name);
  }

  /** Without a write of its own, a body reads what it inherited. */
  lemma {:induction false} LookupFallsBack(channels: Channels, updates: seq<ChannelUpdate>, name: string)
    requires forall i :: 0 <= i < |updates| ==> updates[i].name != name
    ensures Lookup(channels, updates, name) == Get(channels, name)
  {
    LookupSkips(channels, updates, 0, name);
  }

  class ChannelsTracker {
    const frameId: nat
    const channels: Channels
    var updates: seq<ChannelUpdate>

    constructor (frameId: nat, channels: Channels)
      ensures this.frameId == frameId && this.channels == channels && updates == []
    {
      this.frameId := frameId;
      this.channels := channels;
      updates := [];
    }

    /** Piles up a contribution; inherited channels are never written. */
    method Write(name: string, value: Value)
      modifies this
      ensures updates == old(updates) + [ChannelUpdate(name, value, frameId)]
    {
      updates := updates + [ChannelUpdate(name, value, frameId)];
    }

    method Read(name: string) returns (value: Option<Value>)
      ensures value == Lookup(channels, updates, name)
    {
      var i := |updates|;
      assert updates[..i] == updates;
      while i > 0
        invariant 0 <= i <= |updates|
        invariant Lookup(channels, updates, name) == Lookup(channels, updates[..i], name)
      {
        i := i - 1;
        assert updates[..i + 1][..i] == updates[..i];
        if updates[i].name == name {
          return Some(updates[i].value);
        }
      }
      value := Get(channels, name);
    }
  }
}
