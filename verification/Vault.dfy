/** The vault: encrypted secrets in a store. It derives keys by hand and so stamps every
    secret with the default epoch, whichever epoch was current. */
module Vault {
  import opened Wrappers
  import opened Secrets

  type SecretRef = nat

  datatype VaultError = SecretFailure(error: SecretError) | UnknownSecret(id: SecretRef)

  /** What writing `secret` leaves in the store. */
  function Sealed(c: Crypto, ring: Keyring, namespace: Bytes, nonce: Bytes, secret: Bytes): Result<EncryptedSecret,
                  SecretError> {
    match DerivedKey(c, ring, ring.current, namespace)
    case Err(error) => Err(error)
    case Ok(key) => Ok(Encrypted(c, key, nonce, secret))
  }

  /** What reading a stored secret gives. */
  function Unsealed(c: Crypto, ring: Keyring, namespace: Bytes, e: EncryptedSecret): Result<Bytes, SecretError> {
    match DerivedKey(c, ring, e.keyEpoch, namespace)
    case Err(error) => Err(error)
    case Ok(key) => Decrypted(c, key, e)
  }

  class Vault {
    const secrets: SecretManager
    var store: map<SecretRef, EncryptedSecret>

    constructor (secrets: SecretManager)
      ensures this.secrets == secrets && store == map[]
    {
      this.secrets, store := secrets, map[];
    }

    /** `id` is the generated reference, `nonce` the cipher's random nonce. */
    method Store(id: SecretRef, namespace: Bytes, secret: Bytes,
                 nonce: Bytes) returns (r: Result<SecretRef, VaultError>)
      modifies this
      ensures match Sealed(secrets.crypto, secrets.State(), namespace, nonce, secret)
              case Ok(e) => r == Ok(id) && store == old(store)[id := e]
              case Err(error) => r == Err(SecretFailure(error)) && store == old(store)
    {
      var epoch := secrets.currentEpoch;
      var key := secrets.DeriveKey(epoch, namespace);
      if key.Err? {
        return Err(SecretFailure(key.error));
      }
      // the key is bare: it does not know the epoch it was derived for
      var ciphertext := secrets.crypto.seal(key.value, nonce, secret);
      var stored := EncryptedSecret(DEFAULT_EPOCH, ciphertext, nonce);
      store := store[id := stored];
      r := Ok(id);
    }

    method Update(id: SecretRef, namespace: Bytes, secret: Bytes, nonce: Bytes) returns (r: Result<Unit, VaultError>)
      modifies this
      ensures match Sealed(secrets.crypto, secrets.State(), namespace, nonce, secret)
              case Ok(e) => r == Ok(Unit) && store == old(store)[id := e]
              case Err(error) => r == Err(SecretFailure(error)) && store == old(store)
    {
      var epoch := secrets.currentEpoch;
      var key := secrets.DeriveKey(epoch, namespace);
      if key.Err? {
        return Err(SecretFailure(key.error));
      }
      var ciphertext := secrets.crypto.seal(key.value, nonce, secret);
      store := store[id := EncryptedSecret(DEFAULT_EPOCH, ciphertext, nonce)];
      r := Ok(Unit);
    }

    method Remove(id: SecretRef)
      modifies this
      ensures store == old(store) - {id}
    {
      store := store - {id};
    }

    method GetDecrypted(id: SecretRef, namespace: Bytes) returns (r: Result<Bytes, VaultError>)
      ensures r == if id !in store then Err(UnknownSecret(id))
                   else match Unsealed(secrets.crypto, secrets.State(), namespace, store[id])
                        case Ok(secret) => Ok(secret)
                        case Err(error) => Err(SecretFailure(error))
    {
      if id !in store {
        return Err(UnknownSecret(id));
      }
      var stored := store[id];
      var key := secrets.DeriveKey(stored.keyEpoch, namespace);
      if key.Err? {
        return Err(SecretFailure(key.error));
      }
      var text := secrets.crypto.open(key.value, stored.nonce, stored.ciphertext);
      if text.None? {
        return Err(SecretFailure(DecryptionFailed));
      }
      r := Ok(text.value);
    }
  }

  /** A secret reads back exactly when the default epoch is loaded at reading time with the
      very master key that was current at writing time. */
  lemma ReadsBackIff(c: Crypto, before: Keyring, after: Keyring, namespace: Bytes, nonce: Bytes, secret: Bytes)
    requires Opens(c) && Authenticates(c) && Separates(c) && Sound(before)
    ensures var sealed := Sealed(c, before, namespace, nonce, secret);
            && sealed.Ok?
            && (Unsealed(c, after, namespace, sealed.value) == Ok(secret) <==>
                 DEFAULT_EPOCH in after.keys && after.keys[DEFAULT_EPOCH] == before.keys[before.current])
  {
    if DEFAULT_EPOCH in after.keys && after.keys[DEFAULT_EPOCH] != before.keys[before.current] {
      var key, other := c.hkdf(before.keys[before.current], namespace), c.hkdf(after.keys[DEFAULT_EPOCH], namespace);
      assert key != other;
      assert c.open(other, nonce, c.seal(key, nonce, secret)) == None;
    }
  }

  /** Across namespaces too: a secret reads back exactly if it is asked for under the namespace
      it was written under, and the default epoch holds the key that was then current. */
  lemma NamespaceReadsBackIff(c: Crypto, before: Keyring, after: Keyring, namespace: Bytes, other: Bytes,
                              nonce: Bytes, secret: Bytes)
    requires Opens(c) && Authenticates(c) && Distinguishes(c) && Sound(before)
    ensures var sealed := Sealed(c, before, namespace, nonce, secret);
            && sealed.Ok?
            && (Unsealed(c, after, other, sealed.value) == Ok(secret) <==>
                 && other == namespace
                 && DEFAULT_EPOCH in after.keys && after.keys[DEFAULT_EPOCH] == before.keys[before.current])
            && (other != namespace && DEFAULT_EPOCH in after.keys ==>
                  Unsealed(c, after, other, sealed.value) == Err(DecryptionFailed))
  {
    if DEFAULT_EPOCH in after.keys {
      var key, key' := c.hkdf(before.keys[before.current], namespace), c.hkdf(after.keys[DEFAULT_EPOCH], other);
      assert key' == key ==> after.keys[DEFAULT_EPOCH] == before.keys[before.current] && other == namespace;
      assert key' != key ==> c.open(key', nonce, c.seal(key, nonce, secret)) == None;
    }
  }

  /** No master key serves two epochs, now or later in the history. */
  ghost predicate KeysAreDistinct(before: Keyring, after: Keyring) {
    forall e, f :: e in before.keys && f in after.keys && before.keys[e] == after.keys[f] ==> e == f
  }

  /** Over every history that adds only fresh epochs and never reuses a master key, a write
      can be read back exactly when the default epoch was current at the write — which the
      writer can check beforehand — and has not been retired since. */
  lemma VaultReadsBackIff(c: Crypto, ring: Keyring, ops: seq<EpochOp>, i: nat, namespace: Bytes, nonce: Bytes,
                          secret: Bytes)
    requires Opens(c) && Authenticates(c) && Separates(c)
    requires Sound(ring) && AddsFreshEpochs(ring, ops) && i <= |ops|
    requires KeysAreDistinct(RingAfter(ring, ops[..i]), RingAfter(ring, ops))
    ensures var before, after := RingAfter(ring, ops[..i]), RingAfter(ring, ops);
            var sealed := Sealed(c, before, namespace, nonce, secret);
            && sealed.Ok?
            && (Unsealed(c, after, namespace, sealed.value) == Ok(secret) <==>
                 before.current == DEFAULT_EPOCH && DEFAULT_EPOCH in after.keys)
  {
    var before, after := RingAfter(ring, ops[..i]), RingAfter(ring, ops);
    CurrentEpochStaysLoaded(ring, ops[..i]);
    ReadsBackIff(c, before, after, namespace, nonce, secret);
    KeysNeverChange(ring, ops, i, before.current);
  }

  /** After one rotation away from the default epoch, with both epochs still loaded, what
      the vault writes it cannot read — whatever the two keys, as long as they differ. */
  lemma RotationLosesNewSecrets(c: Crypto, oldKey: Bytes, newKey: Bytes, namespace: Bytes, nonce: Bytes, secret: Bytes)
    requires Opens(c) && Authenticates(c) && Separates(c) && oldKey != newKey
    ensures var ring := RingAfter(Keyring(map[DEFAULT_EPOCH := oldKey], DEFAULT_EPOCH),
                                  [AddEpoch(1, newKey), SetCurrentEpoch(1)]);
            && ring == Keyring(map[DEFAULT_EPOCH := oldKey, 1 := newKey], 1)
            && Unsealed(c, ring, namespace, Sealed(c, ring, namespace, nonce, secret).value) == Err(DecryptionFailed)
  {
    var start, ops := Keyring(map[DEFAULT_EPOCH := oldKey], DEFAULT_EPOCH), [AddEpoch(1, newKey), SetCurrentEpoch(1)];
    assert ops[..1] == [AddEpoch(1, newKey)] && ops[..1][..0] == [];
    assert RingAfter(start, ops[..1]) == Stepped(start, AddEpoch(1, newKey)).0;
    var ring := RingAfter(start, ops);
    ReadsBackIff(c, ring, ring, namespace, nonce, secret);
  }
}
