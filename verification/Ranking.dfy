/** Rendezvous ranking of candidates by score, and the directory that feeds it. */
module Ranking {
  import opened Wrappers
  import opened Mixer

  // ------------------------------------------------------------------ ranking

  /** `x`, listed before all of `ys`, put where a stable descending sort keeps it. */
  function Insert<N>(x: N, ys: seq<N>, score: N -> real): seq<N> {
    if ys == [] || score(x) >= score(ys[0]) then [x] + ys else [ys[0]] + Insert(x, ys[1..], score)
  }

  /** The stable sort by decreasing score. */
  function Ranked<N>(nodes: seq<N>, score: N -> real): seq<N> {
    if nodes == [] then [] else Insert(nodes[0], Ranked(nodes[1..], score), score)
  }

  /** The first `n` of the ranking. */
  function TopN<N>(nodes: seq<N>, score: N -> real, n: nat): seq<N> {
    var ranked := Ranked(nodes, score);
    if n < |ranked| then ranked[..n] else ranked
  }

  /** The winner; among equals, the last one listed. */
  function Picked<N>(nodes: seq<N>, score: N -> real): Option<N> {
    if nodes == [] then None
    else
      var rest := Picked(nodes[1..], score);
      if rest.Some? && score(rest.value) >= score(nodes[0]) then rest else Some(nodes[0])
  }

  ghost predicate Descending<N>(nodes: seq<N>, score: N -> real) {
    forall i, j :: 0 <= i < j < |nodes| ==> score(nodes[i]) >= score(nodes[j])
  }

  /** Different candidates score differently; one candidate may be listed twice. */
  ghost predicate Tieless<N>(nodes: seq<N>, score: N -> real) {
    forall a, b :: a in nodes && b in nodes && score(a) == score(b) ==> a == b
  }

  lemma DescendingCons<N>(x: N, ys: seq<N>, score: N -> real)
    requires Descending(ys, score) && forall y :: y in ys ==> score(x) >= score(y)
    ensures Descending([x] + ys, score)
  {
  }

  lemma DescendingTail<N>(a: seq<N>, score: N -> real)
    requires Descending(a, score) && a != []
    ensures Descending(a[1..], score)
  {
  }

  lemma {:induction false} InsertAdds<N>(x: N, ys: seq<N>, score: N -> real)
    ensures multiset(Insert(x, ys, score)) == multiset{x} + multiset(ys)
  {
    if ys != [] && score(x) < score(ys[0]) {
      InsertAdds(x, ys[1..], score);
      assert ys == [ys[0]] + ys[1..];
    }
  }

  lemma {:induction false} InsertSorts<N>(x: N, ys: seq<N>, score: N -> real)
    requires Descending(ys, score)
    ensures Descending(Insert(x, ys, score), score)
  {
    if ys != [] && score(x) < score(ys[0]) {
      InsertSorts(x, ys[1..], score);
      InsertAdds(x, ys[1..], score);
      var tail := Insert(x, ys[1..], score);
      forall z | z in tail ensures score(ys[0]) >= score(z) {
        assert z in multiset(tail);
        assert z == x || z in ys[1..];
      }
      DescendingCons(ys[0], tail, score);
    }
  }

  lemma {:induction false} RankedSorts<N>(nodes: seq<N>, score: N -> real)
    ensures Descending(Ranked(nodes, score), score) && multiset(Ranked(nodes, score)) == multiset(nodes)
  {
    if nodes != [] {
      RankedSorts(nodes[1..], score);
      InsertSorts(nodes[0], Ranked(nodes[1..], score), score);
      InsertAdds(nodes[0], Ranked(nodes[1..], score), score);
      assert nodes == [nodes[0]] + nodes[1..];
    }
  }

  lemma SameMembers<N>(a: seq<N>, b: seq<N>)
    requires multiset(a) == multiset(b)
    ensures |a| == |b| && forall x :: x in a <==> x in b
  {
    assert |multiset(a)| == |multiset(b)|;
    assert forall x :: x in a <==> x in multiset(a);
    assert forall x :: x in b <==> x in multiset(b);
  }

  lemma TailMultiset<N>(a: seq<N>)
    requires a != []
    ensures multiset(a[1..]) == multiset(a) - multiset{a[0]} && forall x :: x in a[1..] ==> x in a
  {
    assert a == [a[0]] + a[1..];
  }

  lemma TielessWithin<N>(a: seq<N>, b: seq<N>, score: N -> real)
    requires Tieless(a, score) && forall x :: x in b ==> x in a
    ensures Tieless(b, score)
  {
  }

  lemma SameHead<N>(a: seq<N>, b: seq<N>, score: N -> real)
    requires Descending(a, score) && Descending(b, score) && Tieless(a, score)
    requires a != [] && b != [] && forall x :: x in a <==> x in b
    ensures a[0] == b[0]
  {
    assert a[0] in b && b[0] in a;
    var i :| 0 <= i < |b| && b[i] == a[0];
    var j :| 0 <= j < |a| && a[j] == b[0];
    assert score(b[0]) >= score(b[i]) && score(a[0]) >= score(a[j]);
  }

  ghost predicate SameRanking<N>(a: seq<N>, b: seq<N>, score: N -> real) {
    Descending(a, score) && Descending(b, score) && multiset(a) == multiset(b) && Tieless(a, score)
  }

  lemma SameRankingTail<N>(a: seq<N>, b: seq<N>, score: N -> real)
    requires SameRanking(a, b, score) && a != [] && b != [] && a[0] == b[0]
    ensures SameRanking(a[1..], b[1..], score)
  {
    TailMultiset(a);
    TailMultiset(b);
    TielessWithin(a, a[1..], score);
    DescendingTail(a, score);
    DescendingTail(b, score);
  }

  /** Without ties there is only one descending arrangement of the same candidates. */
  lemma {:induction false} DescendingIsUnique<N>(a: seq<N>, b: seq<N>, score: N -> real)
    requires SameRanking(a, b, score)
    ensures a == b
  {
    SameMembers(a, b);
    if a != [] {
      SameHead(a, b, score);
      SameRankingTail(a, b, score);
      DescendingIsUnique(a[1..], b[1..], score);
      assert a == [a[0]] + a[1..] && b == [b[0]] + b[1..];
    }
  }

  /** The first candidate with a given score. */
  function FirstWith<N>(nodes: seq<N>, score: N -> real, s: real): Option<N> {
    if nodes == [] then None
    else if score(nodes[0]) == s then Some(nodes[0])
    else FirstWith(nodes[1..], score, s)
  }

  lemma {:induction false} InsertedComesFirst<N>(x: N, ys: seq<N>, score: N -> real)
    ensures FirstWith(Insert(x, ys, score), score, score(x)) == Some(x)
  {
    if ys != [] && score(x) < score(ys[0]) {
      InsertedComesFirst(x, ys[1..], score);
    }
  }

  /** The candidates with `x` listed first. */
  lemma BringForward<N>(nodes: seq<N>, x: N) returns (rest: seq<N>)
    requires x in nodes
    ensures multiset([x] + rest) == multiset(nodes)
  {
    var i :| 0 <= i < |nodes| && nodes[i] == x;
    rest := nodes[..i] + nodes[i + 1..];
    assert nodes == nodes[..i] + [x] + nodes[i + 1..];
  }

  lemma TielessRanksAlike<N>(nodes: seq<N>, other: seq<N>, score: N -> real)
    requires Tieless(nodes, score) && multiset(other) == multiset(nodes)
    ensures Ranked(other, score) == Ranked(nodes, score)
  {
    RankedSorts(other, score);
    RankedSorts(nodes, score);
    RankedIsTieless(nodes, score);
    DescendingIsUnique(Ranked(nodes, score), Ranked(other, score), score);
  }

  lemma RankedIsTieless<N>(nodes: seq<N>, score: N -> real)
    requires Tieless(nodes, score)
    ensures Tieless(Ranked(nodes, score), score)
  {
    RankedSorts(nodes, score);
    var ranked := Ranked(nodes, score);
    forall x | x in ranked ensures x in nodes {
      assert x in multiset(ranked);
    }
    TielessWithin(nodes, ranked, score);
  }

  /** A listing whose ranking puts `x` before everything it ties with. */
  lemma RankedWithFirst<N>(nodes: seq<N>, x: N, score: N -> real) returns (listing: seq<N>)
    requires x in nodes
    ensures multiset(listing) == multiset(nodes) && FirstWith(Ranked(listing, score), score, score(x)) == Some(x)
  {
    var rest := BringForward(nodes, x);
    listing := [x] + rest;
    assert listing[1..] == rest;
    InsertedComesFirst(x, Ranked(rest, score), score);
  }

  /** The ranking does not depend on the order in which the candidates are listed exactly
      when no two different candidates tie. */
  lemma OrderIsInvisibleIff<N>(nodes: seq<N>, score: N -> real)
    ensures (forall other :: multiset(other) == multiset(nodes) ==> Ranked(other, score) == Ranked(nodes, score))
            <==> Tieless(nodes, score)
  {
    if Tieless(nodes, score) {
      forall other | multiset(other) == multiset(nodes) ensures Ranked(other, score) == Ranked(nodes, score) {
        TielessRanksAlike(nodes, other, score);
      }
    } else {
      var a, b :| a in nodes && b in nodes && score(a) == score(b) && a != b;
      var one := RankedWithFirst(nodes, a, score);
      var two := RankedWithFirst(nodes, b, score);
      assert Ranked(one, score) != Ranked(two, score);
    }
  }

  // ------------------------------------------------------- membership changes

  function Kept<N>(nodes: seq<N>, keep: N -> bool): seq<N> {
    if nodes == [] then []
    else if keep(nodes[0]) then [nodes[0]] + Kept(nodes[1..], keep)
    else Kept(nodes[1..], keep)
  }

  lemma {:induction false} KeptFrom<N>(nodes: seq<N>, keep: N -> bool)
    ensures forall i :: 0 <= i < |Kept(nodes, keep)| ==> Kept(nodes, keep)[i] in nodes && keep(Kept(nodes, keep)[i])
  {
    if nodes != [] {
      KeptFrom(nodes[1..], keep);
      assert nodes == [nodes[0]] + nodes[1..];
    }
  }

  lemma KeptStayBelow<N>(x: N, ys: seq<N>, score: N -> real, keep: N -> bool)
    requires Descending(ys, score) && (ys == [] || score(x) >= score(ys[0]))
    ensures Insert(x, Kept(ys, keep), score) == [x] + Kept(ys, keep)
  {
    var kept := Kept(ys, keep);
    KeptFrom(ys, keep);
    if kept != [] {
      var i :| 0 <= i < |ys| && ys[i] == kept[0];
      assert score(ys[0]) >= score(ys[i]);
    }
  }

  lemma {:induction false} InsertThenKeep<N>(x: N, ys: seq<N>, score: N -> real, keep: N -> bool)
    requires Descending(ys, score)
    ensures Kept(Insert(x, ys, score), keep) == if keep(x) then Insert(x, Kept(ys, keep), score) else Kept(ys, keep)
  {
    if ys == [] || score(x) >= score(ys[0]) {
      assert ([x] + ys)[1..] == ys;
      KeptStayBelow(x, ys, score, keep);
    } else {
      var tail := Insert(x, ys[1..], score);
      assert ([ys[0]] + tail)[1..] == tail;
      InsertThenKeep(x, ys[1..], score, keep);
      if keep(ys[0]) {
        assert Kept(ys, keep)[1..] == Kept(ys[1..], keep);
      }
    }
  }

  /** Ranking the candidates that remain is deleting the others from the ranking: leaving
      nodes change no other relative order, ties included. */
  lemma {:induction false} RankingCommutesWithLeaving<N>(nodes: seq<N>, score: N -> real, keep: N -> bool)
    ensures Ranked(Kept(nodes, keep), score) == Kept(Ranked(nodes, score), keep)
  {
    if nodes != [] {
      var rest := Ranked(nodes[1..], score);
      RankingCommutesWithLeaving(nodes[1..], score, keep);
      RankedSorts(nodes[1..], score);
      InsertThenKeep(nodes[0], rest, score, keep);
      if keep(nodes[0]) {
        assert Kept(nodes, keep)[1..] == Kept(nodes[1..], keep);
      }
    }
  }

  lemma {:induction false} KeptConcat<N>(a: seq<N>, b: seq<N>, keep: N -> bool)
    ensures Kept(a + b, keep) == Kept(a, keep) + Kept(b, keep)
  {
    if a == [] {
      assert a + b == b;
    } else {
      assert (a + b)[1..] == a[1..] + b;
      KeptConcat(a[1..], b, keep);
    }
  }

  lemma {:induction false} KeepAll<N>(nodes: seq<N>, keep: N -> bool)
    requires forall x :: x in nodes ==> keep(x)
    ensures Kept(nodes, keep) == nodes
  {
    if nodes != [] {
      assert nodes[0] in nodes && forall x :: x in nodes[1..] ==> x in nodes;
      KeepAll(nodes[1..], keep);
    }
  }

  lemma KeptPrefix<N>(ranked: seq<N>, n: nat, keep: N -> bool)
    requires n <= |ranked| && forall x :: x in ranked[..n] ==> keep(x)
    ensures ranked[..n] <= Kept(ranked, keep)
  {
    assert ranked == ranked[..n] + ranked[n..];
    KeptConcat(ranked[..n], ranked[n..], keep);
    KeepAll(ranked[..n], keep);
  }

  /** Nodes that leave without being among the chosen leave the choice as it was. */
  lemma LosersLeaveUnnoticed<N>(nodes: seq<N>, score: N -> real, n: nat, keep: N -> bool)
    requires forall x :: x in TopN(nodes, score, n) ==> keep(x)
    ensures TopN(Kept(nodes, keep), score, n) == TopN(nodes, score, n)
  {
    var ranked := Ranked(nodes, score);
    RankingCommutesWithLeaving(nodes, score, keep);
    if n < |ranked| {
      KeptPrefix(ranked, n, keep);
      assert Kept(ranked, keep)[..n] == ranked[..n];
    } else {
      KeepAll(ranked, keep);
    }
  }

  // ---------------------------------------------------- what the best `n` are

  lemma PrefixIsBest<N>(ranked: seq<N>, k: nat, score: N -> real)
    requires Descending(ranked, score) && k <= |ranked|
    ensures forall x, y :: x in ranked[..k] && y in ranked[k..] ==> score(x) >= score(y)
  {
    forall x, y | x in ranked[..k] && y in ranked[k..] ensures score(x) >= score(y) {
      var i :| 0 <= i < k && ranked[..k][i] == x;
      var j :| 0 <= j < |ranked[k..]| && ranked[k..][j] == y;
      assert ranked[i] == x && ranked[k + j] == y;
    }
  }

  /** The best `n` are as many as there can be, best first; with those left out they are the
      candidates, each as often as listed, and nobody left out beats anybody chosen. */
  lemma TopNIsBest<N>(nodes: seq<N>, score: N -> real, n: nat) returns (rest: seq<N>)
    ensures var top := TopN(nodes, score, n);
            && |top| == (if n < |nodes| then n else |nodes|)
            && multiset(top) + multiset(rest) == multiset(nodes)
            && Descending(top, score)
            && forall x, y :: x in top && y in rest ==> score(x) >= score(y)
  {
    var ranked, k := Ranked(nodes, score), if n < |nodes| then n else |nodes|;
    RankedSorts(nodes, score);
    SameMembers(ranked, nodes);
    rest := ranked[k..];
    assert ranked == ranked[..k] + rest;
    assert TopN(nodes, score, n) == ranked[..k];
    PrefixIsBest(ranked, k, score);
  }

  lemma {:induction false} RankedTied<N>(nodes: seq<N>, score: N -> real, s: real)
    requires forall x :: x in nodes ==> score(x) == s
    ensures Ranked(nodes, score) == nodes
  {
    if nodes != [] {
      assert nodes[0] in nodes && forall x :: x in nodes[1..] ==> x in nodes;
      RankedTied(nodes[1..], score, s);
      assert nodes[1..] != [] ==> nodes[1..][0] in nodes;
    }
  }

  /** Candidates that tie keep the order in which they are listed. */
  lemma RankingIsStable<N>(nodes: seq<N>, score: N -> real, s: real)
    ensures var tied := (x: N) => score(x) == s;
            Kept(Ranked(nodes, score), tied) == Kept(nodes, tied)
  {
    var tied := (x: N) => score(x) == s;
    RankingCommutesWithLeaving(nodes, score, tied);
    KeptFrom(nodes, tied);
    RankedTied(Kept(nodes, tied), score, s);
  }

  // ------------------------------------------------------------ a single pick

  lemma {:induction false} PickedIsLastBest<N>(nodes: seq<N>, score: N -> real) returns (i: nat)
    requires nodes != []
    ensures i < |nodes| && Picked(nodes, score) == Some(nodes[i])
    ensures forall j :: 0 <= j <= i ==> score(nodes[j]) <= score(nodes[i])
    ensures forall j :: i < j < |nodes| ==> score(nodes[j]) < score(nodes[i])
  {
    if |nodes| == 1 {
      assert nodes[1..] == [];
      i := 0;
    } else {
      var k := PickedIsLastBest(nodes[1..], score);
      if score(nodes[k + 1]) >= score(nodes[0]) {
        i := k + 1;
        forall j | 0 <= j <= i ensures score(nodes[j]) <= score(nodes[i]) {
          if j > 0 { assert nodes[j] == nodes[1..][j - 1]; }
        }
        forall j | i < j < |nodes| ensures score(nodes[j]) < score(nodes[i]) { assert nodes[j] == nodes[1..][j - 1]; }
      } else {
        i := 0;
        forall j | 0 < j < |nodes| ensures score(nodes[j]) < score(nodes[0]) { assert nodes[j] == nodes[1..][j - 1]; }
      }
    }
  }

  lemma {:induction false} TopIsFirstBest<N>(nodes: seq<N>, score: N -> real) returns (i: nat)
    requires nodes != []
    ensures i < |nodes| && Ranked(nodes, score) != [] && Ranked(nodes, score)[0] == nodes[i]
    ensures forall j :: i <= j < |nodes| ==> score(nodes[j]) <= score(nodes[i])
    ensures forall j :: 0 <= j < i ==> score(nodes[j]) < score(nodes[i])
  {
    if |nodes| == 1 {
      assert nodes[1..] == [];
      i := 0;
    } else {
      var k := TopIsFirstBest(nodes[1..], score);
      if score(nodes[0]) >= score(nodes[k + 1]) {
        i := 0;
        forall j | 0 < j < |nodes| ensures score(nodes[j]) <= score(nodes[0]) { assert nodes[j] == nodes[1..][j - 1]; }
      } else {
        i := k + 1;
        forall j | i <= j < |nodes| ensures score(nodes[j]) <= score(nodes[i]) { assert nodes[j] == nodes[1..][j - 1]; }
        forall j | 0 <= j < i ensures score(nodes[j]) < score(nodes[i]) {
          if j > 0 { assert nodes[j] == nodes[1..][j - 1]; }
        }
      }
    }
  }

  /** The best score is reached first at `first` and last at `last`. */
  ghost predicate BestFrom<N>(nodes: seq<N>, score: N -> real, first: int, last: int) {
    && 0 <= first <= last < |nodes|
    && score(nodes[first]) == score(nodes[last])
    && (forall j :: 0 <= j < |nodes| ==> score(nodes[j]) <= score(nodes[first]))
    && (forall j :: 0 <= j < first || last < j < |nodes| ==> score(nodes[j]) < score(nodes[first]))
  }

  lemma BestIsReached<N>(nodes: seq<N>, score: N -> real) returns (first: nat, last: nat)
    requires nodes != []
    ensures BestFrom(nodes, score, first, last)
    ensures Ranked(nodes, score) != [] && Ranked(nodes, score)[0] == nodes[first]
    ensures Picked(nodes, score) == Some(nodes[last])
  {
    first := TopIsFirstBest(nodes, score);
    last := PickedIsLastBest(nodes, score);
    assert score(nodes[first]) <= score(nodes[last]) <= score(nodes[first]);
    assert first <= last;
  }

  lemma BestFromIsUnique<N>(nodes: seq<N>, score: N -> real, first: int, last: int, first': int, last': int)
    requires BestFrom(nodes, score, first, last) && BestFrom(nodes, score, first', last')
    ensures first == first' && last == last'
  {
    assert score(nodes[first]) <= score(nodes[first']) <= score(nodes[first]);
    assert score(nodes[last]) == score(nodes[last']);
  }

  /** The single pick is the last candidate with the best score, the head of the ranking is
      the first: they agree exactly when those two are the same candidate. */
  lemma PickAgreesWithTopIff<N>(nodes: seq<N>, score: N -> real, first: int, last: int)
    requires BestFrom(nodes, score, first, last)
    ensures TopN(nodes, score, 1) == [nodes[first]] && Picked(nodes, score) == Some(nodes[last])
    ensures TopN(nodes, score, 1) == [Picked(nodes, score).value] <==> nodes[first] == nodes[last]
    ensures Tieless(nodes, score) ==> TopN(nodes, score, 1) == [Picked(nodes, score).value]
  {
    var first', last' := BestIsReached(nodes, score);
    BestFromIsUnique(nodes, score, first, last, first', last');
    var ranked := Ranked(nodes, score);
    assert TopN(nodes, score, 1) == [ranked[0]];
    assert nodes[first] in nodes && nodes[last] in nodes;
  }

  /** There is always a winner, and only an empty list has none. */
  lemma PickedIffAny<N>(nodes: seq<N>, score: N -> real)
    ensures Picked(nodes, score).Some? <==> exists first, last :: BestFrom(nodes, score, first, last)
  {
    if nodes != [] {
      var first, last := BestIsReached(nodes, score);
    }
  }

  // ---------------------------------------------------------------- directory

  type NodeId = Bytes

  /** The score of each node for one key; the highest wins. */
  type Score = NodeId -> real

  /** The unweighted score: the combined hash itself. */
  ghost predicate IsRawHash(score: Score, key: Bytes) {
    forall node :: score(node) == CombinedHash(key, node) as real
  }

  /** By the raw hash, distinct FNV-1a hashes are exactly what it takes for a key's ranking
      to be independent of listing order — hence for one key exactly if for all. */
  lemma DistinctHashesNeverTie(nodes: seq<NodeId>, score: Score, key: Bytes)
    requires IsRawHash(score, key)
    ensures Tieless(nodes, score) <==>
              forall a, b :: a in nodes && b in nodes && FnvHash(a) == FnvHash(b) ==> a == b
  {
    forall a, b | a in nodes && b in nodes ensures score(a) == score(b) <==> FnvHash(a) == FnvHash(b) {
      TieIffHashesEqual(key, a, b);
    }
  }

  /** Nodes of equal weight have the score that the weight makes of the combined hash,
      however it is rounded. */
  ghost predicate GradesHash(score: Score, key: Bytes, grade: Word -> real) {
    forall node :: score(node) == grade(CombinedHash(key, node))
  }

  /** By a score graded from the hash, candidates never tie exactly if their FNV-1a hashes
      differ and grading keeps their combined hashes apart: nodes whose FNV-1a hashes
      collide tie for every key and weight. */
  lemma GradedHashesNeverTieIff(nodes: seq<NodeId>, score: Score, key: Bytes, grade: Word -> real)
    requires GradesHash(score, key, grade)
    ensures Tieless(nodes, score) <==>
              && (forall a, b :: a in nodes && b in nodes && FnvHash(a) == FnvHash(b) ==> a == b)
              && (forall a, b ::
                    a in nodes && b in nodes && grade(CombinedHash(key, a)) == grade(CombinedHash(key, b)) ==>
                    CombinedHash(key, a) == CombinedHash(key, b))
  {
    forall a, b | a in nodes && b in nodes
      ensures CombinedHash(key, a) == CombinedHash(key, b) <==> FnvHash(a) == FnvHash(b) {
      TieIffHashesEqual(key, a, b);
    }
    if Tieless(nodes, score) {
      forall a, b | a in nodes && b in nodes && FnvHash(a) == FnvHash(b) ensures a == b {
        assert score(a) == score(b);
      }
      forall a, b | a in nodes && b in nodes && grade(CombinedHash(key, a)) == grade(CombinedHash(key, b))
        ensures CombinedHash(key, a) == CombinedHash(key, b) {
        assert score(a) == score(b);
      }
    }
  }

  type Capabilities = bv8

  predicate Includes(own: Capabilities, wanted: Capabilities) {
    own & wanted == wanted
  }

  /** All the wanted capability bits, and no other, decide. */
  lemma IncludesIffEachBit(own: Capabilities, wanted: Capabilities)
    ensures Includes(own, wanted) <==> forall bit: Capabilities :: wanted & bit != 0 && OneBit(bit) ==> own & bit != 0
  {
    if Includes(own, wanted) {
      forall bit: Capabilities | wanted & bit != 0 && OneBit(bit) ensures own & bit != 0 {
        assert own & wanted & bit == wanted & bit;
      }
    } else {
      var missing := wanted & !own;
      assert missing != 0;
      var bit := missing & (!missing + 1);
      LowestBit(missing);
      assert wanted & bit != 0 && own & bit == 0;
    }
  }

  predicate OneBit(b: Capabilities) {
    b == 1 || b == 2 || b == 4 || b == 8 || b == 16 || b == 32 || b == 64 || b == 128
  }

  lemma LowestBit(m: Capabilities)
    requires m != 0
    ensures OneBit(m & (!m + 1)) && m & (m & (!m + 1)) == m & (!m + 1)
  {
  }

  class Annuary {
    const capabilities: Capabilities
    const localNodeId: NodeId
    var peers: map<NodeId, Capabilities>

    constructor (capabilities: Capabilities, localNodeId: NodeId)
      ensures this.capabilities == capabilities && this.localNodeId == localNodeId && peers == map[]
    {
      this.capabilities, this.localNodeId, peers := capabilities, localNodeId, map[];
    }

    /** The answer to a capability request: a known peer keeps its first entry. */
    method PeerConnected(node: NodeId, capabilities: Capabilities)
      modifies this
      ensures peers == if node in old(peers) then old(peers) else old(peers)[node := capabilities]
    {
      if node !in peers {
        peers := peers[node := capabilities];
      }
    }

    method PeerDisconnected(node: NodeId)
      modifies this
      ensures peers == old(peers) - {node}
    {
      peers := peers - {node};
    }

    /** The peers with the wanted capabilities, and the local node if it has them too. */
    ghost function Candidates(wanted: Capabilities): multiset<NodeId>
      reads this
    {
      multiset(set id | id in peers && Includes(peers[id], wanted)) +
      if Includes(capabilities, wanted) then multiset{localNodeId} else multiset{}
    }

    /** Lists the candidates, peers in whatever order the table yields them. */
    method NodesWith(wanted: Capabilities) returns (nodes: seq<NodeId>)
      ensures multiset(nodes) == Candidates(wanted)
    {
      nodes := [];
      var left := peers.Keys;
      while left != {}
        invariant left <= peers.Keys
        invariant multiset(nodes) == multiset(set id | id in peers && id !in left && Includes(peers[id], wanted))
      {
        var id :| id in left;
        ghost var before := set x | x in peers && x !in left && Includes(peers[x], wanted);
        ghost var after := set x | x in peers && x !in left - {id} && Includes(peers[x], wanted);
        if Includes(peers[id], wanted) {
          nodes := nodes + [id];
          assert after == before + {id} && id !in before;
        } else {
          assert after == before;
        }
        left := left - {id};
      }
      assert (set id | id in peers && id !in left && Includes(peers[id], wanted))
             == set id | id in peers && Includes(peers[id], wanted);
      if Includes(capabilities, wanted) {
        nodes := nodes + [localNodeId];
      }
    }

    /** The best `n` candidates: the same answer for every listing order, unless two
        different candidates tie. */
    method PickTopN(score: Score, wanted: Capabilities, n: nat) returns (picked: seq<NodeId>)
      ensures exists nodes :: multiset(nodes) == Candidates(wanted) && picked == TopN(nodes, score, n)
      ensures forall nodes ::
              multiset(nodes) == Candidates(wanted) && Tieless(nodes, score) ==> picked == TopN(nodes, score, n)
    {
      var candidates := NodesWith(wanted);
      picked := TopN(candidates, score, n);
      forall nodes | multiset(nodes) == Candidates(wanted) && Tieless(nodes, score)
        ensures picked == TopN(nodes, score, n) {
        OrderIsInvisibleIff(nodes, score);
        assert Ranked(candidates, score) == Ranked(nodes, score);
      }
    }
  }
}
