/** Epoch-indexed master keys, storage keys and membership proofs. Key derivation,
    authentication codes and the cipher are parameters with the laws they are used for. */
module Secrets {
  import opened Wrappers

  type Bytes = seq<nat>
  type KeyEpoch = nat

  /** HKDF (RFC 5869, section 2), HMAC (RFC 2104, section 2) and ChaCha20-Poly1305
      (RFC 8439, section 2.8), as functions. */
  datatype Crypto = Crypto(
    hkdf: (Bytes, Bytes) -> Bytes,
    hmac: (Bytes, Bytes) -> Bytes,
    seal: (Bytes, Bytes, Bytes) -> Bytes,
    open: (Bytes, Bytes, Bytes) -> Option<Bytes>)

  /** The right key opens what it sealed. */
  ghost predicate Opens(c: Crypto) {
    forall key, nonce, text :: c.open(key, nonce, c.seal(key, nonce, text)) == Some(text)
  }

  /** No other key does. */
  ghost predicate Authenticates(c: Crypto) {
    forall key, other, nonce, text :: key != other ==> c.open(other, nonce, c.seal(key, nonce, text)) == None
  }

  /** Different master keys derive different keys. */
  ghost predicate Separates(c: Crypto) {
    forall a, b, info :: c.hkdf(a, info) == c.hkdf(b, info) ==> a == b
  }

  /** Keys are derived, and authentication codes made, without collisions: neither of two
      different inputs gives the same output. */
  ghost predicate Distinguishes(c: Crypto) {
    && (forall a, b, x, y {:trigger c.hkdf(a, x), c.hkdf(b, y)} :: c.hkdf(a, x) == c.hkdf(b, y) ==> a == b && x == y)
    && (forall a, b, x, y {:trigger c.hmac(a, x), c.hmac(b, y)} :: c.hmac(a, x) == c.hmac(b, y) ==> a == b && x == y)
  }

  const DEFAULT_EPOCH: KeyEpoch := 0
  const STORAGE_NAMESPACE: Bytes := [
    109, 97, 114, 105, 101, 47, 97, 116, 45, 114, 101, 115, 116, 45,
    115, 116, 111, 114, 97, 103, 101, 47, 118, 49]

  datatype SecretError =
    | UnknownEpoch(epoch: KeyEpoch)
    | CannotRetireCurrentEpoch(epoch: KeyEpoch)
    | LastEpoch
    | CurrentEpochNotProvided(epoch: KeyEpoch)
    | NoKeysProvided
    | DecryptionFailed

  datatype Unit = Unit

  /** The loaded master keys and the epoch in use. */
  datatype Keyring = Keyring(keys: map<KeyEpoch, Bytes>, current: KeyEpoch)

  datatype EpochOp =
    | AddEpoch(epoch: KeyEpoch, key: Bytes)
    | SetCurrentEpoch(epoch: KeyEpoch)
    | RetireEpoch(epoch: KeyEpoch)

  function Stepped(ring: Keyring, op: EpochOp): (Keyring, Result<Unit, SecretError>) {
    match op
    case AddEpoch(epoch, key) => (ring.(keys := ring.keys[epoch := key]), Ok(Unit))
    case SetCurrentEpoch(epoch) =>
      if epoch !in ring.keys then (ring, Err(UnknownEpoch(epoch))) else (ring.(current := epoch), Ok(Unit))
    case RetireEpoch(epoch) =>
      if ring.current == epoch then (ring, Err(CannotRetireCurrentEpoch(epoch)))
      else if |ring.keys| <= 1 then (ring, Err(LastEpoch))
      else (ring.(keys := ring.keys - {epoch}), Ok(Unit))
  }

  function DerivedKey(c: Crypto, ring: Keyring, epoch: KeyEpoch, namespace: Bytes): Result<Bytes, SecretError> {
    if epoch in ring.keys then Ok(c.hkdf(ring.keys[epoch], namespace)) else Err(UnknownEpoch(epoch))
  }

  datatype EncryptedSecret = EncryptedSecret(keyEpoch: KeyEpoch, ciphertext: Bytes, nonce: Bytes)

  /** Encryption under a bare key: it knows no epoch and stamps the default one. */
  function Encrypted(c: Crypto, key: Bytes, nonce: Bytes, secret: Bytes): EncryptedSecret {
    EncryptedSecret(DEFAULT_EPOCH, c.seal(key, nonce, secret), nonce)
  }

  function Decrypted(c: Crypto, key: Bytes, e: EncryptedSecret): Result<Bytes, SecretError> {
    var text := c.open(key, e.nonce, e.ciphertext);
    if text.Some? then Ok(text.value) else Err(DecryptionFailed)
  }

  /** Encryption under the current epoch's storage key, stamped with that epoch. */
  function StoredAtRest(c: Crypto, ring: Keyring, nonce: Bytes, secret: Bytes): Result<EncryptedSecret, SecretError> {
    match DerivedKey(c, ring, ring.current, STORAGE_NAMESPACE)
    case Err(error) => Err(error)
    case Ok(key) => Ok(Encrypted(c, key, nonce, secret).(keyEpoch := ring.current))
  }

  /** Decryption under the storage key of the stamped epoch. */
  function ReadAtRest(c: Crypto, ring: Keyring, e: EncryptedSecret): Result<Bytes, SecretError> {
    match DerivedKey(c, ring, e.keyEpoch, STORAGE_NAMESPACE)
    case Err(error) => Err(error)
    case Ok(key) => Decrypted(c, key, e)
  }

  datatype Proof = Proof(epoch: KeyEpoch, mac: Bytes)

  function Proved(c: Crypto, ring: Keyring, node: Bytes, nonce: Bytes): Result<Proof, SecretError> {
    match DerivedKey(c, ring, ring.current, node)
    case Err(error) => Err(error)
    case Ok(key) => Ok(Proof(ring.current, c.hmac(key, nonce)))
  }

  /** A proof under an epoch that is not loaded is merely not accepted. */
  function Verified(c: Crypto, ring: Keyring, node: Bytes, nonce: Bytes, proof: Proof): bool {
    match DerivedKey(c, ring, proof.epoch, node)
    case Err(_) => false
    case Ok(key) => c.hmac(key, nonce) == proof.mac
  }

  function Collected(epochs: seq<(KeyEpoch, Bytes)>): map<KeyEpoch, Bytes> {
    if epochs == [] then map[]
    else
      var last := epochs[|epochs| - 1];
      Collected(epochs[..|epochs| - 1])[last.0 := last.1]
  }

  /** The ring that a set of epochs makes, if it makes one. */
  function WithEpochs(epochs: seq<(KeyEpoch, Bytes)>, current: KeyEpoch): Result<Keyring, SecretError> {
    var keys := Collected(epochs);
    if keys == map[] then Err(NoKeysProvided)
    else if current !in keys then Err(CurrentEpochNotProvided(current))
    else Ok(Keyring(keys, current))
  }

  /** The current epoch is always one of the loaded ones. */
  ghost predicate Sound(ring: Keyring) {
    ring.current in ring.keys
  }

  class SecretManager {
    const crypto: Crypto
    var keys: map<KeyEpoch, Bytes>
    var currentEpoch: KeyEpoch

    function State(): Keyring
      reads this
    {
      Keyring(keys, currentEpoch)
    }

    constructor (crypto: Crypto, ring: Keyring)
      requires Sound(ring)
      ensures State() == ring && this.crypto == crypto
    {
      this.crypto, keys, currentEpoch := crypto, ring.keys, ring.current;
    }

    /** Builds a manager from several epochs; a later key for an epoch wins. */
    static method Build(crypto: Crypto, epochs: seq<(KeyEpoch, Bytes)>, current: KeyEpoch)
      returns (r: Result<SecretManager, SecretError>)
      ensures r.Ok? ==> fresh(r.value) && r.value.crypto == crypto
                        && WithEpochs(epochs, current) == Ok(r.value.State()) && Sound(r.value.State())
      ensures r.Err? ==> WithEpochs(epochs, current) == Err(r.error)
    {
      var keys: map<KeyEpoch, Bytes> := map[];
      for i := 0 to |epochs|
        invariant keys == Collected(epochs[..i])
      {
        assert epochs[..i + 1][..i] == epochs[..i];
        keys := keys[epochs[i].0 := epochs[i].1];
      }
      assert epochs[..|epochs|] == epochs;
      if keys == map[] {
        return Err(NoKeysProvided);
      }
      if current !in keys {
        return Err(CurrentEpochNotProvided(current));
      }
      var manager := new SecretManager(crypto, Keyring(keys, current));
      r := Ok(manager);
    }

    method Add(epoch: KeyEpoch, key: Bytes)
      modifies this
      ensures State() == Stepped(old(State()), AddEpoch(epoch, key)).0
    {
      keys := keys[epoch := key];
    }

    method SetCurrent(epoch: KeyEpoch) returns (r: Result<Unit, SecretError>)
      modifies this
      ensures (State(), r) == Stepped(old(State()), SetCurrentEpoch(epoch))
    {
      if epoch !in keys {
        return Err(UnknownEpoch(epoch));
      }
      currentEpoch := epoch;
      r := Ok(Unit);
    }

    method Retire(epoch: KeyEpoch) returns (r: Result<Unit, SecretError>)
      modifies this
      ensures (State(), r) == Stepped(old(State()), RetireEpoch(epoch))
    {
      if currentEpoch == epoch {
        return Err(CannotRetireCurrentEpoch(epoch));
      }
      if |keys| <= 1 {
        return Err(LastEpoch);
      }
      keys := keys - {epoch};
      r := Ok(Unit);
    }

    method DeriveKey(epoch: KeyEpoch, namespace: Bytes) returns (r: Result<Bytes, SecretError>)
      ensures r == DerivedKey(crypto, State(), epoch, namespace)
    {
      if epoch !in keys {
        return Err(UnknownEpoch(epoch));
      }
      r := Ok(crypto.hkdf(keys[epoch], namespace));
    }

    method ProveMembership(node: Bytes, nonce: Bytes) returns (r: Result<Proof, SecretError>)
      ensures r == Proved(crypto, State(), node, nonce)
    {
      var epoch := currentEpoch;
      var nodeKey := DeriveKey(epoch, node);
      if nodeKey.Err? {
        return Err(nodeKey.error);
      }
      r := Ok(Proof(epoch, crypto.hmac(nodeKey.value, nonce)));
    }

    method VerifyMembership(node: Bytes, nonce: Bytes, proof: Proof) returns (accepted: bool)
      ensures accepted == Verified(crypto, State(), node, nonce, proof)
    {
      var nodeKey := DeriveKey(proof.epoch, node);
      if nodeKey.Err? {
        return false;
      }
      accepted := crypto.hmac(nodeKey.value, nonce) == proof.mac;
    }
  }

  // -------------------------------------------------- what single operations do

  /** An operation takes effect exactly when it may, and then does that and nothing else; an
      operation that may not names the reason. */
  lemma StepEffect(ring: Keyring, op: EpochOp, e: KeyEpoch)
    ensures var (after, result) := Stepped(ring, op);
            match op
            case AddEpoch(epoch, key) =>
              && result.Ok? && after.current == ring.current
              && (e in after.keys <==> e == epoch || e in ring.keys)
              && (e in after.keys ==> after.keys[e] == if e == epoch then key else ring.keys[e])
            case SetCurrentEpoch(epoch) =>
              && after.keys == ring.keys
              && (result.Ok? <==> epoch in ring.keys)
              && (result.Ok? ==> after.current == epoch)
              && (result.Err? ==> after == ring && result.error == UnknownEpoch(epoch))
            case RetireEpoch(epoch) =>
              && after.current == ring.current
              && (result.Ok? <==> epoch != ring.current && |ring.keys| > 1)
              && (result.Ok? ==> (e in after.keys <==> e in ring.keys && e != epoch))
              && (e in after.keys ==> e in ring.keys && after.keys[e] == ring.keys[e])
              && (result.Err? ==> after == ring)
              && (result.Err? && epoch == ring.current ==> result.error == CannotRetireCurrentEpoch(epoch))
              && (result.Err? && epoch != ring.current ==> result.error == LastEpoch)
  {
  }

  lemma {:induction false} LastKeyCounts(epochs: seq<(KeyEpoch, Bytes)>, i: nat)
    requires i < |epochs| && forall j :: i < j < |epochs| ==> epochs[j].0 != epochs[i].0
    ensures epochs[i].0 in Collected(epochs) && Collected(epochs)[epochs[i].0] == epochs[i].1
  {
    if i < |epochs| - 1 {
      LastKeyCounts(epochs[..|epochs| - 1], i);
    }
  }

  lemma {:induction false} OnlyListedAreLoaded(epochs: seq<(KeyEpoch, Bytes)>, e: KeyEpoch)
    ensures e in Collected(epochs) <==> exists i :: 0 <= i < |epochs| && epochs[i].0 == e
  {
    if epochs != [] {
      var n := |epochs| - 1;
      OnlyListedAreLoaded(epochs[..n], e);
      assert e == epochs[n].0 ==> epochs[n].0 == e;
      if i :| 0 <= i < |epochs[..n]| && epochs[..n][i].0 == e {
        assert epochs[i].0 == e;
      }
      if i :| 0 <= i < |epochs| && epochs[i].0 == e {
        assert i < n ==> epochs[..n][i].0 == e;
      }
    }
  }

  /** A set of epochs makes a ring exactly if the current one is listed; the ring then holds
      the listed epochs and no others, each with the key listed last for it. */
  lemma WithEpochsIff(epochs: seq<(KeyEpoch, Bytes)>, current: KeyEpoch)
    ensures var r := WithEpochs(epochs, current);
            && (r.Ok? <==> exists i :: 0 <= i < |epochs| && epochs[i].0 == current)
            && (r.Err? ==> r.error == if epochs == [] then NoKeysProvided else CurrentEpochNotProvided(current))
            && (r.Ok? ==>
                  && r.value.current == current
                  && (forall e :: e in r.value.keys <==> exists i :: 0 <= i < |epochs| && epochs[i].0 == e)
                  && forall i: nat :: i < |epochs| && (forall j :: i < j < |epochs| ==> epochs[j].0 != epochs[i].0) ==>
                       r.value.keys[epochs[i].0] == epochs[i].1)
  {
    forall e ensures e in Collected(epochs) <==> exists i :: 0 <= i < |epochs| && epochs[i].0 == e {
      OnlyListedAreLoaded(epochs, e);
    }
    if epochs != [] {
      assert epochs[0].0 in Collected(epochs);
    }
    forall i: nat | i < |epochs| && (forall j :: i < j < |epochs| ==> epochs[j].0 != epochs[i].0)
      ensures epochs[i].0 in Collected(epochs) && Collected(epochs)[epochs[i].0] == epochs[i].1 {
      LastKeyCounts(epochs, i);
    }
  }

  // -------------------------------------------------------- membership proofs

  /** A proof is accepted exactly if it is the one that this ring would issue itself, for
      that node and nonce, were the proof's epoch current. */
  lemma AcceptedIffOwn(c: Crypto, ring: Keyring, node: Bytes, nonce: Bytes, proof: Proof)
    ensures Verified(c, ring, node, nonce, proof)
            <==> proof.epoch in ring.keys && Proved(c, ring.(current := proof.epoch), node, nonce) == Ok(proof)
  {
  }

  /** At most one code is accepted for an epoch, a node and a nonce. */
  lemma OneCodeIsAccepted(c: Crypto, ring: Keyring, node: Bytes, nonce: Bytes, a: Proof, b: Proof)
    requires Verified(c, ring, node, nonce, a) && Verified(c, ring, node, nonce, b) && a.epoch == b.epoch
    ensures a == b
  {
    AcceptedIffOwn(c, ring, node, nonce, a);
    AcceptedIffOwn(c, ring, node, nonce, b);
  }

  /** A proof made under one ring for a node and a nonce is accepted under another, for a
      node and a nonce, exactly if its epoch is loaded there with the same master key and
      node and nonce are those it was made for. */
  lemma ProofIsAcceptedIff(c: Crypto, prover: Keyring, verifier: Keyring, node: Bytes, nonce: Bytes,
                           node': Bytes, nonce': Bytes)
    requires Distinguishes(c) && Sound(prover)
    ensures var proof := Proved(c, prover, node, nonce);
            && proof.Ok?
            && (Verified(c, verifier, node', nonce', proof.value) <==>
                 && prover.current in verifier.keys
                 && verifier.keys[prover.current] == prover.keys[prover.current]
                 && node' == node && nonce' == nonce)
  {
    var key := c.hkdf(prover.keys[prover.current], node);
    if prover.current in verifier.keys {
      var key' := c.hkdf(verifier.keys[prover.current], node');
      assert c.hmac(key', nonce') == c.hmac(key, nonce) ==> key' == key && nonce' == nonce;
    }
  }

  // ---------------------------------------------------------- epoch histories

  function RingAfter(ring: Keyring, ops: seq<EpochOp>): Keyring {
    if ops == [] then ring else Stepped(RingAfter(ring, ops[..|ops| - 1]), ops[|ops| - 1]).0
  }

  /** Every epoch that was loaded at some moment of the history. */
  function EverLoaded(ring: Keyring, ops: seq<EpochOp>): set<KeyEpoch> {
    if ops == [] then ring.keys.Keys
    else EverLoaded(ring, ops[..|ops| - 1]) + RingAfter(ring, ops).keys.Keys
  }

  /** Every added epoch is new: never loaded before. */
  predicate AddsFreshEpochs(ring: Keyring, ops: seq<EpochOp>) {
    ops == []
    || var front, last := ops[..|ops| - 1], ops[|ops| - 1];
       AddsFreshEpochs(ring, front) && (last.AddEpoch? ==> last.epoch !in EverLoaded(ring, front))
  }

  lemma {:induction false} CurrentEpochStaysLoaded(ring: Keyring, ops: seq<EpochOp>)
    requires Sound(ring)
    ensures Sound(RingAfter(ring, ops))
  {
    if ops != [] {
      CurrentEpochStaysLoaded(ring, ops[..|ops| - 1]);
    }
  }

  lemma {:induction false} LoadedOnceIsEverLoaded(ring: Keyring, ops: seq<EpochOp>, i: nat, epoch: KeyEpoch)
    requires i <= |ops| && epoch in RingAfter(ring, ops[..i]).keys
    ensures epoch in EverLoaded(ring, ops)
  {
    if i == |ops| {
      assert ops[..i] == ops;
    } else {
      assert ops[..|ops| - 1][..i] == ops[..i];
      LoadedOnceIsEverLoaded(ring, ops[..|ops| - 1], i, epoch);
    }
  }

  /** A step keeps the key of any epoch it does not add anew. */
  lemma StepKeepsKey(ring: Keyring, op: EpochOp, epoch: KeyEpoch)
    requires op.AddEpoch? ==> op.epoch != epoch
    ensures epoch in Stepped(ring, op).0.keys ==>
              epoch in ring.keys && Stepped(ring, op).0.keys[epoch] == ring.keys[epoch]
  {
  }

  /** Between two moments of a history that adds only fresh epochs, an epoch loaded at the
      first is at the second either gone or still bound to the same key. */
  lemma {:induction false} KeysNeverChange(ring: Keyring, ops: seq<EpochOp>, i: nat, epoch: KeyEpoch)
    requires AddsFreshEpochs(ring, ops) && i <= |ops|
    requires epoch in RingAfter(ring, ops[..i]).keys
    ensures epoch in RingAfter(ring, ops).keys ==>
              RingAfter(ring, ops).keys[epoch] == RingAfter(ring, ops[..i]).keys[epoch]
  {
    if i == |ops| {
      assert ops[..i] == ops;
    } else {
      var front, last := ops[..|ops| - 1], ops[|ops| - 1];
      assert front[..i] == ops[..i];
      KeysNeverChange(ring, front, i, epoch);
      LoadedOnceIsEverLoaded(ring, front, i, epoch);
      StepKeepsKey(RingAfter(ring, front), last, epoch);
    }
  }

  /** What is stored at rest reads back later, by its own stamp, exactly when that epoch is
      still loaded with a key that derives the same storage key — where derivation keeps
      keys apart, with the same master key. */
  lemma StoredReadsBackIff(c: Crypto, before: Keyring, after: Keyring, nonce: Bytes, secret: Bytes)
    requires Opens(c) && Authenticates(c) && Sound(before)
    ensures var stored, epoch := StoredAtRest(c, before, nonce, secret), before.current;
            && stored.Ok? && stored.value.keyEpoch == epoch
            && (ReadAtRest(c, after, stored.value) == Ok(secret) <==>
                 epoch in after.keys
                 && c.hkdf(after.keys[epoch], STORAGE_NAMESPACE) == c.hkdf(before.keys[epoch], STORAGE_NAMESPACE))
            && (Separates(c) ==>
                 (ReadAtRest(c, after, stored.value) == Ok(secret) <==>
                   epoch in after.keys && after.keys[epoch] == before.keys[epoch]))
  {
  }

  /** Over every history of epoch operations that adds only fresh epochs, what was stored
      at any moment reads back at any later one until its epoch is retired, and from then
      on is refused as unknown. */
  lemma StoredReadsBackUntilRetired(c: Crypto, ring: Keyring, ops: seq<EpochOp>, i: nat, nonce: Bytes, secret: Bytes)
    requires Opens(c) && Sound(ring) && AddsFreshEpochs(ring, ops) && i <= |ops|
    ensures var before, after := RingAfter(ring, ops[..i]), RingAfter(ring, ops);
            var stored := StoredAtRest(c, before, nonce, secret);
            && stored.Ok?
            && ReadAtRest(c, after, stored.value)
               == if before.current in after.keys then Ok(secret) else Err(UnknownEpoch(before.current))
  {
    CurrentEpochStaysLoaded(ring, ops[..i]);
    KeysNeverChange(ring, ops, i, RingAfter(ring, ops[..i]).current);
  }

  /** Retirement is final as long as epochs are not reused. */
  lemma {:induction false} RetiredStaysRetired(ring: Keyring, ops: seq<EpochOp>, i: nat, j: nat, epoch: KeyEpoch)
    requires AddsFreshEpochs(ring, ops) && i <= j <= |ops|
    requires epoch in RingAfter(ring, ops[..i]).keys && epoch !in RingAfter(ring, ops[..j]).keys
    ensures epoch !in RingAfter(ring, ops).keys
  {
    if j == |ops| {
      assert ops[..j] == ops;
    } else {
      var front, last := ops[..|ops| - 1], ops[|ops| - 1];
      assert front[..i] == ops[..i] && front[..j] == ops[..j];
      RetiredStaysRetired(ring, front, i, j, epoch);
      LoadedOnceIsEverLoaded(ring, front, i, epoch);
      StepKeepsKey(RingAfter(ring, front), last, epoch);
    }
  }
}
