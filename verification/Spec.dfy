/** How layered frame specifications combine. */
module Spec {
  import opened Wrappers
  import opened Json
  import opened Channels

  datatype ChannelSpec = ChannelSpec(name: string, reducer: Reducer)

  datatype Budget = Budget(maxStep: Option<nat>, maxTokens: Option<nat>)

  datatype CommonSpec = CommonSpec(
    budget: Budget,
    channels: seq<ChannelSpec>,
    inheritedChannels: seq<string>,
    exportedChannels: seq<string>,
    defaultValues: map<string, Value>,
    overridesChannels: map<string, Value>,
    importedChannels: seq<string>)

  const DEFAULT_SPEC := CommonSpec(Budget(None, None), [], [], [], map[], map[], [])

  // --------------------------------------------------------------- channels

  /** Position of the first channel called `name`, or the length if there is none. */
  function IndexOf(channels: seq<ChannelSpec>, name: string): (i: nat)
    ensures i <= |channels|
  {
    if channels == [] || channels[0].name == name then 0 else 1 + IndexOf(channels[1..], name)
  }

  lemma {:induction false} IndexIsFirst(channels: seq<ChannelSpec>, name: string)
    ensures var i := IndexOf(channels, name);
            (i < |channels| ==> channels[i].name == name) && forall j :: 0 <= j < i ==> channels[j].name != name
  {
    if channels != [] && channels[0].name != name {
      IndexIsFirst(channels[1..], name);
    }
  }

  function Put(channels: seq<ChannelSpec>, i: nat, channel: ChannelSpec): seq<ChannelSpec>
    requires i <= |channels|
  {
    if i < |channels| then channels[i := channel] else channels + [channel]
  }

  /** One channel applied on top of a list: in place of its namesake, else at the end. */
  function Define(channels: seq<ChannelSpec>, channel: ChannelSpec): seq<ChannelSpec> {
    Put(channels, IndexOf(channels, channel.name), channel)
  }

  function MergedChannels(a: seq<ChannelSpec>, b: seq<ChannelSpec>): seq<ChannelSpec> {
    if b == [] then a
    else Define(MergedChannels(a, b[..|b| - 1]), b[|b| - 1])
  }

  ghost predicate DistinctNames(channels: seq<ChannelSpec>) {
    forall i, j :: 0 <= i < j < |channels| ==> channels[i].name != channels[j].name
  }

  /** The reducer declared by the first channel called `name`. */
  function Find(channels: seq<ChannelSpec>, name: string): Option<Reducer> {
    var i := IndexOf(channels, name);
    if i < |channels| then Some(channels[i].reducer) else None
  }

  /** The reducer declared by the last channel called `name`. */
  function FindLast(channels: seq<ChannelSpec>, name: string): Option<Reducer> {
    if channels == [] then None
    else if channels[|channels| - 1].name == name then Some(channels[|channels| - 1].reducer)
    else FindLast(channels[..|channels| - 1], name)
  }

  lemma {:induction false} FirstIndex(channels: seq<ChannelSpec>, i: nat)
    requires i < |channels| && forall j :: 0 <= j < i ==> channels[j].name != channels[i].name
    ensures IndexOf(channels, channels[i].name) == i
  {
    if i > 0 {
      FirstIndex(channels[1..], i - 1);
    }
  }

  lemma {:induction false} NoIndex(channels: seq<ChannelSpec>, name: string)
    requires forall j :: 0 <= j < |channels| ==> channels[j].name != name
    ensures IndexOf(channels, name) == |channels|
  {
    if channels != [] {
      NoIndex(channels[1..], name);
    }
  }

  lemma DefineLooksUp(channels: seq<ChannelSpec>, c: ChannelSpec, name: string)
    ensures Find(Define(channels, c), name) == if name == c.name then Some(c.reducer) else Find(channels, name)
    ensures DistinctNames(channels) ==> DistinctNames(Define(channels, c))
  {
    var i, d := IndexOf(channels, c.name), Define(channels, c);
    IndexIsFirst(channels, c.name);
    IndexIsFirst(channels, name);
    if name == c.name {
      FirstIndex(d, i);
    } else {
      var k := IndexOf(channels, name);
      if k < |channels| {
        FirstIndex(d, k);
      } else {
        NoIndex(d, name);
      }
    }
  }

  /** Every lookup in a merged list finds the right-most definition, and merging keeps
      names distinct. */
  lemma {:induction false} MergeLooksUpRightmost(a: seq<ChannelSpec>, b: seq<ChannelSpec>, name: string)
    ensures Find(MergedChannels(a, b), name)
            == if FindLast(b, name).Some? then FindLast(b, name) else Find(a, name)
    ensures DistinctNames(a) ==> DistinctNames(MergedChannels(a, b))
  {
    if b != [] {
      MergeLooksUpRightmost(a, b[..|b| - 1], name);
      DefineLooksUp(MergedChannels(a, b[..|b| - 1]), b[|b| - 1], name);
    }
  }

  lemma DefineTwice(channels: seq<ChannelSpec>, y: ChannelSpec, x: ChannelSpec)
    requires x.name == y.name
    ensures Define(Define(channels, y), x) == Define(channels, x)
  {
    IndexIsFirst(channels, y.name);
    FirstIndex(Define(channels, y), IndexOf(channels, y.name));
  }

  /** Redefining in place moves nothing; a new name goes last. */
  lemma IndexAfterDefine(channels: seq<ChannelSpec>, x: ChannelSpec, name: string)
    ensures IndexOf(channels, name) < |channels| ==> IndexOf(Define(channels, x), name) == IndexOf(channels, name)
    ensures IndexOf(channels, name) == |channels| && name != x.name ==>
              IndexOf(Define(channels, x), name) == |Define(channels, x)|
  {
    var d, k := Define(channels, x), IndexOf(channels, name);
    IndexIsFirst(channels, name);
    IndexIsFirst(channels, x.name);
    if k < |channels| {
      FirstIndex(d, k);
    } else if name != x.name {
      NoIndex(d, name);
    }
  }

  lemma PutsCommute(channels: seq<ChannelSpec>, i: nat, x: ChannelSpec, j: nat, y: ChannelSpec)
    requires i < |channels| && j <= |channels| && i != j
    ensures Put(Put(channels, i, x), j, y) == Put(Put(channels, j, y), i, x)
  {
  }

  lemma DefineCommutes(channels: seq<ChannelSpec>, x: ChannelSpec, y: ChannelSpec)
    requires x.name != y.name && IndexOf(channels, x.name) < |channels|
    ensures Define(Define(channels, x), y) == Define(Define(channels, y), x)
  {
    var i, j := IndexOf(channels, x.name), IndexOf(channels, y.name);
    IndexIsFirst(channels, x.name);
    IndexIsFirst(channels, y.name);
    IndexAfterDefine(channels, y, x.name);
    IndexAfterDefine(channels, x, y.name);
    PutsCommute(channels, i, x, j, y);
  }

  lemma {:induction false} DistinctFindsFirst(channels: seq<ChannelSpec>, name: string)
    requires DistinctNames(channels)
    ensures FindLast(channels, name) == Find(channels, name)
  {
    if channels != [] {
      var front := channels[..|channels| - 1];
      DistinctFindsFirst(front, name);
      var i := IndexOf(channels, name);
      IndexIsFirst(channels, name);
      if i < |channels| - 1 {
        FirstIndex(front, i);
      } else {
        NoIndex(front, name);
      }
    }
  }

  lemma DefinedInMerge(a: seq<ChannelSpec>, b: seq<ChannelSpec>, name: string)
    requires IndexOf(b, name) < |b| && DistinctNames(b)
    ensures IndexOf(MergedChannels(a, b), name) < |MergedChannels(a, b)|
  {
    MergeLooksUpRightmost(a, b, name);
    DistinctFindsFirst(b, name);
  }

  /** Redefining a channel inside the upper layer is redefining it on top. */
  lemma {:induction false} MergeOverDefine(a: seq<ChannelSpec>, b: seq<ChannelSpec>, x: ChannelSpec)
    requires DistinctNames(b)
    ensures MergedChannels(a, Define(b, x)) == Define(MergedChannels(a, b), x)
  {
    var i, n := IndexOf(b, x.name), |b|;
    IndexIsFirst(b, x.name);
    if i == n {
      assert (b + [x])[..n] == b;
    } else if i == n - 1 {
      assert b[i := x][..n - 1] == b[..n - 1];
      DefineTwice(MergedChannels(a, b[..n - 1]), b[n - 1], x);
    } else {
      var front, last := b[..n - 1], b[n - 1];
      assert b[i := x][..n - 1] == front[i := x];
      FirstIndex(front, i);
      MergeOverDefine(a, front, x);
      DefinedInMerge(a, front, x.name);
      DefineCommutes(MergedChannels(a, front), x, last);
    }
  }

  lemma {:induction false} MergeAssociative(a: seq<ChannelSpec>, b: seq<ChannelSpec>, c: seq<ChannelSpec>)
    requires DistinctNames(b)
    ensures MergedChannels(MergedChannels(a, b), c) == MergedChannels(a, MergedChannels(b, c))
  {
    if c != [] {
      var front, last := c[..|c| - 1], c[|c| - 1];
      MergeAssociative(a, b, front);
      MergeLooksUpRightmost(b, front, last.name);
      MergeOverDefine(a, MergedChannels(b, front), last);
    }
  }

  /** In a list with a repeated name, some earlier definition is shadowed: redefining the
      name replaces only the first occurrence, and the later one wins again. */
  lemma {:induction false} DuplicateResists(b: seq<ChannelSpec>, i: nat, j: nat, x: ChannelSpec)
    requires i < j < |b| && b[i].name == b[j].name == x.name
    ensures FindLast(Define(b, x), x.name) == FindLast(b, x.name) && FindLast(b, x.name).Some?
  {
    var k := IndexOf(b, x.name);
    IndexIsFirst(b, x.name);
    assert k <= i;
    var n := |b|;
    if b[n - 1].name != x.name {
      assert b[k := x][..n - 1] == b[..n - 1][k := x];
      FirstIndex(b[..n - 1], k);
      DuplicateResists(b[..n - 1], i, j, x);
    }
  }

  function OtherReducer(r: Reducer): Reducer {
    if r == LastWriteWins then Append else LastWriteWins
  }

  lemma MergeNotAssociative(b: seq<ChannelSpec>)
    requires !DistinctNames(b)
    ensures exists a, c :: MergedChannels(MergedChannels(a, b), c) != MergedChannels(a, MergedChannels(b, c))
  {
    var i, j :| 0 <= i < j < |b| && b[i].name == b[j].name;
    var name := b[i].name;
    DuplicateResists(b, i, j, ChannelSpec(name, LastWriteWins));
    var x := ChannelSpec(name, OtherReducer(FindLast(b, name).value));
    DuplicateResists(b, i, j, x);
    var left, right := MergedChannels(MergedChannels([], b), [x]), MergedChannels([], MergedChannels(b, [x]));
    assert [x][..0] == [];
    assert MergedChannels(b, [x]) == Define(b, x);
    MergeLooksUpRightmost(MergedChannels([], b), [x], name);
    MergeLooksUpRightmost([], Define(b, x), name);
    assert Find(left, name) == Some(x.reducer) != Find(right, name);
  }

  // ------------------------------------------------------------- name lists

  function Union(a: seq<string>, b: seq<string>): seq<string> {
    if b == [] then a
    else
      var u := Union(a, b[..|b| - 1]);
      if b[|b| - 1] in u then u else u + [b[|b| - 1]]
  }

  ghost predicate NoDuplicates(names: seq<string>) {
    forall i, j :: 0 <= i < j < |names| ==> names[i] != names[j]
  }

  lemma {:induction false} UnionMembers(a: seq<string>, b: seq<string>)
    ensures a <= Union(a, b)
    ensures forall x :: x in Union(a, b) <==> x in a || x in b
    ensures NoDuplicates(a) ==> NoDuplicates(Union(a, b))
  {
    if b != [] {
      UnionMembers(a, b[..|b| - 1]);
      assert b == b[..|b| - 1] + [b[|b| - 1]];
    }
  }

  lemma {:induction false} UnionAssociative(a: seq<string>, b: seq<string>, c: seq<string>)
    ensures Union(Union(a, b), c) == Union(a, Union(b, c))
  {
    if c != [] {
      var front, last := c[..|c| - 1], c[|c| - 1];
      UnionAssociative(a, b, front);
      var u := Union(b, front);
      UnionMembers(a, u);
      UnionMembers(b, front);
      if last !in u {
        assert (u + [last])[..|u|] == u;
      }
    }
  }

  lemma {:induction false} UnionFromEmpty(b: seq<string>)
    ensures Union([], b) == b <==> NoDuplicates(b)
    ensures |Union([], b)| <= |b|
  {
    UnionMembers([], b);
    if b != [] {
      var front := b[..|b| - 1];
      UnionFromEmpty(front);
      UnionMembers([], front);
      assert b == front + [b[|b| - 1]];
      if NoDuplicates(b) {
        assert NoDuplicates(front);
        assert b[|b| - 1] !in front;
      }
    }
  }

  method ComputeUnion(a: seq<string>, b: seq<string>) returns (u: seq<string>)
    ensures u == Union(a, b)
  {
    u := a;
    for i := 0 to |b|
      invariant u == Union(a, b[..i])
    {
      assert b[..i + 1][..i] == b[..i];
      if b[i] !in u {
        u := u + [b[i]];
      }
    }
    assert b[..|b|] == b;
  }

  // ------------------------------------------------------------- whole specs

  function OrElse<T>(first: Option<T>, second: Option<T>): Option<T> {
    if first.Some? then first else second
  }

  /** `b` applied on top of `a`. */
  function Merged(a: CommonSpec, b: CommonSpec): CommonSpec {
    CommonSpec(
      Budget(OrElse(b.budget.maxStep, a.budget.maxStep), OrElse(b.budget.maxTokens, a.budget.maxTokens)),
      MergedChannels(a.channels, b.channels),
      Union(a.inheritedChannels, b.inheritedChannels),
      Union(a.exportedChannels, b.exportedChannels),
      a.defaultValues + b.defaultValues,
      a.overridesChannels + b.overridesChannels,
      Union(a.importedChannels, b.importedChannels))
  }

  method Merge(a: CommonSpec, b: CommonSpec) returns (spec: CommonSpec)
    ensures spec == Merged(a, b)
  {
    var channels := a.channels;
    for i := 0 to |b.channels|
      invariant channels == MergedChannels(a.channels, b.channels[..i])
    {
      assert b.channels[..i + 1][..i] == b.channels[..i];
      var channel := b.channels[i];
      var existing := IndexOf(channels, channel.name);
      if existing < |channels| {
        channels := channels[existing := channel];
      } else {
        channels := channels + [channel];
      }
    }
    assert b.channels[..|b.channels|] == b.channels;
    var inherited := ComputeUnion(a.inheritedChannels, b.inheritedChannels);
    var exported := ComputeUnion(a.exportedChannels, b.exportedChannels);
    var imported := ComputeUnion(a.importedChannels, b.importedChannels);
    spec := CommonSpec(
      Budget(OrElse(b.budget.maxStep, a.budget.maxStep), OrElse(b.budget.maxTokens, a.budget.maxTokens)),
      channels, inherited, exported,
      a.defaultValues + b.defaultValues, a.overridesChannels + b.overridesChannels, imported);
  }

  /** Every single lookup in a merged spec finds the upper layer's value where it has one,
      and else the lower layer's. */
  lemma MergedLooksUpRightmost(a: CommonSpec, b: CommonSpec, name: string)
    ensures var spec := Merged(a, b);
            && spec.budget.maxStep == (if b.budget.maxStep.Some? then b.budget.maxStep else a.budget.maxStep)
            && spec.budget.maxTokens == (if b.budget.maxTokens.Some? then b.budget.maxTokens else a.budget.maxTokens)
            && (name in spec.defaultValues <==> name in a.defaultValues || name in b.defaultValues)
            && (name in b.defaultValues ==> spec.defaultValues[name] == b.defaultValues[name])
            && (name in a.defaultValues && name !in b.defaultValues ==>
                  spec.defaultValues[name] == a.defaultValues[name])
            && (name in spec.overridesChannels <==> name in a.overridesChannels || name in b.overridesChannels)
            && (name in b.overridesChannels ==> spec.overridesChannels[name] == b.overridesChannels[name])
            && (name in a.overridesChannels && name !in b.overridesChannels ==>
                  spec.overridesChannels[name] == a.overridesChannels[name])
            && Find(spec.channels, name)
               == (if FindLast(b.channels, name).Some? then FindLast(b.channels, name) else Find(a.channels, name))
            && (name in spec.inheritedChannels <==> name in a.inheritedChannels || name in b.inheritedChannels)
            && (name in spec.exportedChannels <==> name in a.exportedChannels || name in b.exportedChannels)
            && (name in spec.importedChannels <==> name in a.importedChannels || name in b.importedChannels)
  {
    MergeLooksUpRightmost(a.channels, b.channels, name);
    UnionMembers(a.inheritedChannels, b.inheritedChannels);
    UnionMembers(a.exportedChannels, b.exportedChannels);
    UnionMembers(a.importedChannels, b.importedChannels);
  }

  lemma MapsOverlayAssociatively(a: map<string, Value>, b: map<string, Value>, c: map<string, Value>)
    ensures (a + b) + c == a + (b + c)
  {
  }

  lemma MergedAssociative(a: CommonSpec, b: CommonSpec, c: CommonSpec)
    requires DistinctNames(b.channels)
    ensures Merged(Merged(a, b), c) == Merged(a, Merged(b, c))
  {
    MergeAssociative(a.channels, b.channels, c.channels);
    UnionAssociative(a.inheritedChannels, b.inheritedChannels, c.inheritedChannels);
    UnionAssociative(a.exportedChannels, b.exportedChannels, c.exportedChannels);
    UnionAssociative(a.importedChannels, b.importedChannels, c.importedChannels);
    MapsOverlayAssociatively(a.defaultValues, b.defaultValues, c.defaultValues);
    MapsOverlayAssociatively(a.overridesChannels, b.overridesChannels, c.overridesChannels);
  }

  lemma MergedNotAssociative(b: CommonSpec) returns (a: CommonSpec, c: CommonSpec)
    requires !DistinctNames(b.channels)
    ensures Merged(Merged(a, b), c) != Merged(a, Merged(b, c))
  {
    MergeNotAssociative(b.channels);
    var below, above :| MergedChannels(MergedChannels(below, b.channels), above)
                        != MergedChannels(below, MergedChannels(b.channels, above));
    a, c := DEFAULT_SPEC.(channels := below), DEFAULT_SPEC.(channels := above);
    assert Merged(Merged(a, b), c).channels != Merged(a, Merged(b, c)).channels;
  }

  /** A middle layer can be merged in either order with what is below and above it, list
      order included, exactly when it does not repeat a channel name. The layers around
      it may repeat names freely. */
  lemma AssociativeIffMiddleDistinct(b: CommonSpec)
    ensures (forall a, c :: Merged(Merged(a, b), c) == Merged(a, Merged(b, c))) <==> DistinctNames(b.channels)
  {
    if DistinctNames(b.channels) {
      forall a, c ensures Merged(Merged(a, b), c) == Merged(a, Merged(b, c)) {
        MergedAssociative(a, b, c);
      }
    } else {
      var a, c := MergedNotAssociative(b);
    }
  }

  lemma {:induction false} MergeOntoNothing(b: seq<ChannelSpec>)
    ensures MergedChannels([], b) == b <==> DistinctNames(b)
    ensures |MergedChannels([], b)| <= |b|
  {
    MergeLooksUpRightmost([], b, "");
    if b != [] {
      var front, last := b[..|b| - 1], b[|b| - 1];
      MergeOntoNothing(front);
      assert b == front + [last];
      if DistinctNames(b) {
        assert DistinctNames(front);
        NoIndex(front, last.name);
      }
    }
  }

  /** The default spec is a right identity for every spec, and a left identity for exactly
      the specs without repeated channel names or repeated names in their lists. */
  lemma DefaultIsIdentity(s: CommonSpec)
    ensures Merged(s, DEFAULT_SPEC) == s
    ensures Merged(DEFAULT_SPEC, s) == s <==>
              DistinctNames(s.channels) && NoDuplicates(s.inheritedChannels)
              && NoDuplicates(s.exportedChannels) && NoDuplicates(s.importedChannels)
  {
    assert s.defaultValues + map[] == s.defaultValues == map[] + s.defaultValues;
    assert s.overridesChannels + map[] == s.overridesChannels == map[] + s.overridesChannels;
    MergeOntoNothing(s.channels);
    UnionFromEmpty(s.inheritedChannels);
    UnionFromEmpty(s.exportedChannels);
    UnionFromEmpty(s.importedChannels);
  }
}
