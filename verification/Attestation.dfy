/**
 * Attestations of an agent's key, issued and signed by the registry.
 * Source: crates/core/mesh/src/identity/attestation.rs and get_attestation of
 * crates/core/mesh/src/identity/registry.rs.
 */
module Attestation {
  import opened Common
  import opened Identity

  datatype AttestationClaim = AttestationClaim(subjectDid: string, publicKey: string, issuedAt: int, expiresAt: int)

  datatype SignedAttestation = SignedAttestation(claim: AttestationClaim, registryDid: string, signature: string)

  datatype AttestationError = InvalidSignature | Expired | InvalidPublicKey

  // Ed25519 and the serialisation of claims: whether a text decodes to a key, whether a signature
  // verifies for a key and a message, and the bytes of a claim.
  datatype Crypto = Crypto(
    isKey: string -> bool,
    verifies: (string, string, string) -> bool,
    claimBytes: AttestationClaim -> string)

  // A registry entry: the agent's key and ring.
  datatype Entry = Entry(publicKey: string, ring: PrivilegeRing)

  // The registry's own signing function and name.
  datatype Issuer = Issuer(did: string, sign: string -> string)

  const VALIDITY: int := 24 * HOUR

  /** The answer for one agent; the two instants are the two clock readings made under the lock. */
  function Issue(crypto: Crypto, issuer: Issuer, entries: map<string, Entry>, did: string, issuedAt: int, readAgainAt: int)
    : Option<SignedAttestation>
  {
    if did !in entries then None
    else
      var claim := AttestationClaim(did, entries[did].publicKey, issuedAt, readAgainAt + VALIDITY);
      Some(SignedAttestation(claim, issuer.did, issuer.sign(crypto.claimBytes(claim))))
  }

  function Verify(crypto: Crypto, registryKey: string, a: SignedAttestation, now: int): Result<(), AttestationError> {
    if a.claim.expiresAt < now then Err(Expired)
    else if !crypto.isKey(registryKey) then Err(InvalidPublicKey)
    else if crypto.verifies(registryKey, crypto.claimBytes(a.claim), a.signature) then Ok(())
    else Err(InvalidSignature)
  }

  /** What passes: an unexpired claim that carries a signature verifying under the registry's decodable key. */
  lemma VerifyExact(crypto: Crypto, registryKey: string, a: SignedAttestation, now: int)
    ensures Verify(crypto, registryKey, a, now) == Ok(()) <==>
              && now <= a.claim.expiresAt
              && crypto.isKey(registryKey)
              && crypto.verifies(registryKey, crypto.claimBytes(a.claim), a.signature)
    ensures Verify(crypto, registryKey, a, now) == Err(Expired) <==> a.claim.expiresAt < now
    ensures Verify(crypto, registryKey, a, now) == Err(InvalidPublicKey) <==>
              now <= a.claim.expiresAt && !crypto.isKey(registryKey)
  {
  }
}
