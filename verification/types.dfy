/**
 The value types of the cryptolib package: public keys, attestations, the
 trusted claim extracted from a verified payload, and the errors that the
 verification engine and its verifiers report.
 */
module Cryptolib {

  /** One octet of key material, signature or payload. */
  newtype Byte = x: int | 0 <= x < 256

  /** Opaque byte strings: key material, signatures and payloads. */
  type Bytes = seq<Byte>

  /** The key families the engine knows, plus any other declared type, so that
      the dispatch's default branch is reachable. */
  datatype KeyType = Pkix | Pgp | Jwt | Other(name: string)
  {
    /** True for the three families the engine has a verifier for. */
    predicate Supported() {
      !Other?
    }
  }

  /** Public key material of any family, located through `id`. */
  datatype PublicKey = PublicKey(keyType: KeyType, keyData: Bytes, id: string)

  /** Builds a public key from its three parts. */
  function NewPublicKey(keyType: KeyType, keyData: Bytes, keyId: string): PublicKey
  {
    PublicKey(keyType, keyData, keyId)
  }

  /** An attestation as it arrives: `serializedPayload` is untrusted until a
      signature over it (or carrying it) has been verified. */
  datatype Attestation = Attestation(publicKeyId: string, signature: Bytes, serializedPayload: Bytes)

  /** The claim extracted from a payload after its signature was verified.
      Being a type of its own, it cannot be confused with raw payload bytes. */
  datatype AuthenticatedAttestation = AuthenticatedAttestation(imageDigest: string)

  /** Failures of verification. A verifier may return any of them; the engine
      passes a verifier's or checker's error on unchanged. */
  datatype Error =
    | UnknownKeyId(id: string)         // no key in the index has the claimed ID
    | UnsupportedKeyMode               // the key's type is none of the known families
    | NotImplemented(family: KeyType)  // the family is known but its verifier is a stub
    | InvalidSignature(reason: string) // a working verifier rejected the signature
    | InvalidPayload                   // the trusted claim does not match the image digest

  /** A computation that yields a `T` or fails with an `Error` (Go's `(T, error)`). */
  datatype Result<+T> = Ok(value: T) | Err(error: Error)

  /** A computation that only succeeds or fails (Go's bare `error`, nil meaning `Pass`). */
  datatype Outcome = Pass | Fail(error: Error)
}
