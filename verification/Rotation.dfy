/** The rolling rotation runbook as a protocol over any number of nodes. */
module Rotation {
  import opened Wrappers
  import opened Secrets

  type Node = nat

  /** Each node's ring. */
  type Cluster = map<Node, Keyring>

  /** The key that operators hand out for each epoch. */
  type Issued = KeyEpoch -> Bytes

  datatype Step =
    | AddOn(node: Node, epoch: KeyEpoch)
    | SwitchOn(node: Node, epoch: KeyEpoch)
    | RetireOn(node: Node, epoch: KeyEpoch)

  function Operation(issued: Issued, step: Step): EpochOp {
    match step
    case AddOn(_, epoch) => AddEpoch(epoch, issued(epoch))
    case SwitchOn(_, epoch) => SetCurrentEpoch(epoch)
    case RetireOn(_, epoch) => RetireEpoch(epoch)
  }

  function After(issued: Issued, cluster: Cluster, step: Step): Cluster {
    if step.node !in cluster then cluster
    else cluster[step.node := Stepped(cluster[step.node], Operation(issued, step)).0]
  }

  ghost predicate LoadedEverywhere(cluster: Cluster, epoch: KeyEpoch) {
    forall n :: n in cluster ==> epoch in cluster[n].keys
  }

  ghost predicate CurrentNowhere(cluster: Cluster, epoch: KeyEpoch) {
    forall n :: n in cluster ==> cluster[n].current != epoch
  }

  /** The two barriers: no node switches to an epoch before all have it, and none retires
      an epoch before all have switched away from it. */
  ghost predicate Allowed(cluster: Cluster, step: Step) {
    match step
    case AddOn(_, _) => true
    case SwitchOn(_, epoch) => LoadedEverywhere(cluster, epoch)
    case RetireOn(_, epoch) => CurrentNowhere(cluster, epoch)
  }

  /** Loaded keys are the issued ones. */
  ghost predicate Genuine(issued: Issued, cluster: Cluster) {
    forall n, e :: n in cluster && e in cluster[n].keys ==> cluster[n].keys[e] == issued(e)
  }

  /** Every node's current epoch is loaded on every node, with the same key. */
  ghost predicate Interoperable(issued: Issued, cluster: Cluster) {
    Genuine(issued, cluster) && forall n :: n in cluster ==> LoadedEverywhere(cluster, cluster[n].current)
  }

  function ClusterAfter(issued: Issued, cluster: Cluster, steps: seq<Step>): Cluster {
    if steps == [] then cluster
    else After(issued, ClusterAfter(issued, cluster, steps[..|steps| - 1]), steps[|steps| - 1])
  }

  ghost predicate RespectsBarriers(issued: Issued, cluster: Cluster, steps: seq<Step>) {
    forall i :: 0 <= i < |steps| ==> Allowed(ClusterAfter(issued, cluster, steps[..i]), steps[i])
  }

  lemma StepKeepsInteroperable(issued: Issued, cluster: Cluster, step: Step)
    requires Interoperable(issued, cluster) && Allowed(cluster, step)
    ensures Interoperable(issued, After(issued, cluster, step)) && After(issued, cluster, step).Keys == cluster.Keys
  {
    var after := After(issued, cluster, step);
    forall n, m | n in after && m in after ensures after[n].current in after[m].keys {
      assert LoadedEverywhere(cluster, cluster[n].current);
    }
  }

  lemma BarriersBefore(issued: Issued, cluster: Cluster, steps: seq<Step>, k: nat)
    requires RespectsBarriers(issued, cluster, steps) && k <= |steps|
    ensures RespectsBarriers(issued, cluster, steps[..k])
  {
    forall i | 0 <= i < k ensures Allowed(ClusterAfter(issued, cluster, steps[..k][..i]), steps[..k][i]) {
      assert steps[..k][..i] == steps[..i];
    }
  }

  lemma {:induction false} RotationKeepsInteroperable(issued: Issued, cluster: Cluster, steps: seq<Step>)
    requires Interoperable(issued, cluster) && RespectsBarriers(issued, cluster, steps)
    ensures Interoperable(issued, ClusterAfter(issued, cluster, steps))
    ensures ClusterAfter(issued, cluster, steps).Keys == cluster.Keys
  {
    if steps != [] {
      var n := |steps| - 1;
      BarriersBefore(issued, cluster, steps, n);
      RotationKeepsInteroperable(issued, cluster, steps[..n]);
      assert Allowed(ClusterAfter(issued, cluster, steps[..n]), steps[n]);
      StepKeepsInteroperable(issued, ClusterAfter(issued, cluster, steps[..n]), steps[n]);
    }
  }

  ghost predicate GenuineRing(issued: Issued, ring: Keyring) {
    forall e :: e in ring.keys ==> ring.keys[e] == issued(e)
  }

  /** Between rings of issued keys, a proof is accepted exactly when its epoch is loaded. */
  lemma ProofVerifiesIff(c: Crypto, issued: Issued, prover: Keyring, verifier: Keyring, id: Bytes, nonce: Bytes)
    requires GenuineRing(issued, prover) && GenuineRing(issued, verifier) && Sound(prover)
    ensures var proof := Proved(c, prover, id, nonce);
            && proof.Ok? && proof.value.epoch == prover.current
            && (Verified(c, verifier, id, nonce, proof.value) <==> prover.current in verifier.keys)
  {
  }

  /** Over any number of nodes and rotations, in any interleaving that respects the barriers:
      a proof issued by any node at any moment is accepted by any node at any later moment
      exactly as long as that node still has its epoch loaded — in particular at once. */
  lemma ProofsAreAcceptedUntilRetired(c: Crypto, issued: Issued, cluster: Cluster, steps: seq<Step>, i: nat,
                                      prover: Node, verifier: Node, id: Bytes, nonce: Bytes)
    requires Interoperable(issued, cluster) && RespectsBarriers(issued, cluster, steps) && i <= |steps|
    requires prover in cluster && verifier in cluster
    ensures var now, later := ClusterAfter(issued, cluster, steps[..i]), ClusterAfter(issued, cluster, steps);
            && prover in now && verifier in now && verifier in later
            && var proof := Proved(c, now[prover], id, nonce);
               && proof.Ok?
               && Verified(c, now[verifier], id, nonce, proof.value)
               && (Verified(c, later[verifier], id, nonce, proof.value) <==> proof.value.epoch in later[verifier].keys)
  {
    BarriersBefore(issued, cluster, steps, i);
    RotationKeepsInteroperable(issued, cluster, steps[..i]);
    RotationKeepsInteroperable(issued, cluster, steps);
    var now := ClusterAfter(issued, cluster, steps[..i]);
    var later := ClusterAfter(issued, cluster, steps);
    assert LoadedEverywhere(now, now[prover].current);
    ProofVerifiesIff(c, issued, now[prover], now[verifier], id, nonce);
    ProofVerifiesIff(c, issued, now[prover], later[verifier], id, nonce);
  }

  ghost predicate AllVerifyAll(c: Crypto, cluster: Cluster) {
    forall n, m, id, nonce :: n in cluster && m in cluster && Proved(c, cluster[n], id, nonce).Ok? ==>
      Verified(c, cluster[m], id, nonce, Proved(c, cluster[n], id, nonce).value)
  }

  lemma AllVerifyAllIff(c: Crypto, issued: Issued, cluster: Cluster)
    requires Genuine(issued, cluster) && forall n :: n in cluster ==> Sound(cluster[n])
    ensures AllVerifyAll(c, cluster) <==> Interoperable(issued, cluster)
  {
    forall n, m, id, nonce | n in cluster && m in cluster
      ensures Proved(c, cluster[n], id, nonce).Ok?
      ensures Verified(c, cluster[m], id, nonce, Proved(c, cluster[n], id, nonce).value)
              <==> cluster[n].current in cluster[m].keys {
      ProofVerifiesIff(c, issued, cluster[n], cluster[m], id, nonce);
    }
    if AllVerifyAll(c, cluster) {
      forall n, m | n in cluster && m in cluster ensures cluster[n].current in cluster[m].keys {
        assert Verified(c, cluster[m], [], [], Proved(c, cluster[n], [], []).value);
      }
    }
  }

  lemma EarlySwitchBreaks(issued: Issued, cluster: Cluster, node: Node, epoch: KeyEpoch)
    requires node in cluster && epoch in cluster[node].keys && !LoadedEverywhere(cluster, epoch)
    ensures !Interoperable(issued, After(issued, cluster, SwitchOn(node, epoch)))
  {
    var after := After(issued, cluster, SwitchOn(node, epoch));
    var m :| m in cluster && epoch !in cluster[m].keys;
    assert after[node].current == epoch && epoch !in after[m].keys;
    assert !LoadedEverywhere(after, after[node].current);
  }

  lemma EarlyRetirementBreaks(issued: Issued, cluster: Cluster, node: Node, epoch: KeyEpoch)
    requires node in cluster && Stepped(cluster[node], RetireEpoch(epoch)).1.Ok? && !CurrentNowhere(cluster, epoch)
    ensures !Interoperable(issued, After(issued, cluster, RetireOn(node, epoch)))
  {
    var after := After(issued, cluster, RetireOn(node, epoch));
    var n :| n in cluster && cluster[n].current == epoch;
    assert after[n].current == epoch && epoch !in after[node].keys;
    assert !LoadedEverywhere(after, after[n].current);
  }

  lemma StepKeepsRings(issued: Issued, cluster: Cluster, step: Step)
    requires Interoperable(issued, cluster)
    ensures Genuine(issued, After(issued, cluster, step))
    ensures var after := After(issued, cluster, step); forall n :: n in after ==> Sound(after[n])
  {
    forall n | n in cluster ensures cluster[n].current in cluster[n].keys {
      assert LoadedEverywhere(cluster, cluster[n].current);
    }
  }

  /** The barriers are exactly what is needed: from a state where all proofs verify, a
      switch or a retirement that takes effect keeps it so if and only if the barrier
      allowed it. */
  lemma BarriersAreNecessary(c: Crypto, issued: Issued, cluster: Cluster, step: Step)
    requires Interoperable(issued, cluster)
    requires step.node in cluster && Stepped(cluster[step.node], Operation(issued, step)).1.Ok?
    requires step.RetireOn? ==> step.epoch in cluster[step.node].keys
    ensures AllVerifyAll(c, After(issued, cluster, step)) <==> Allowed(cluster, step)
  {
    StepKeepsRings(issued, cluster, step);
    AllVerifyAllIff(c, issued, After(issued, cluster, step));
    if Allowed(cluster, step) {
      StepKeepsInteroperable(issued, cluster, step);
    } else if step.SwitchOn? {
      EarlySwitchBreaks(issued, cluster, step.node, step.epoch);
    } else {
      EarlyRetirementBreaks(issued, cluster, step.node, step.epoch);
    }
  }
}
