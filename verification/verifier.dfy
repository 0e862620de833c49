/**
 The verification engine: a verifier holds the image digest supplied by the
 policy evaluator, the index of its public keys, and one backend per key
 family plus the checker of authenticated attestations. Verifying an
 attestation looks its key up, dispatches on the key's type, passes a
 verifier's error on unchanged, turns the verified payload into an
 authenticated attestation and returns the checker's verdict.
 */
module Verification {
  import opened Cryptolib
  import opened KeyIndex

  /** Verifies a detached signature over a payload: (signature, payload, key data). */
  type PkixVerify = (Bytes, Bytes, Bytes) -> Outcome

  /** Verifies a self-contained signature and recovers its payload: (signature, key data). */
  type PayloadVerify = (Bytes, Bytes) -> Result<Bytes>

  /** Compares an authenticated attestation with the image digest under evaluation. */
  type AttestationCheck = (AuthenticatedAttestation, string) -> Outcome

  /** The capabilities a verifier delegates to, one per key family plus the checker. */
  datatype Backends = Backends(
    verifyPkix: PkixVerify,
    verifyPgp: PayloadVerify,
    verifyJwt: PayloadVerify,
    checkAuthenticatedAttestation: AttestationCheck)

  /** A verifier bound to one image digest and one key index. */
  datatype Verifier = Verifier(imageDigest: string, publicKeys: map<string, PublicKey>, backends: Backends)

  /** What building a verifier yields: the verifier and the warnings logged while
      indexing its keys. */
  datatype Built = Built(verifier: Verifier, warnings: seq<string>)

  /** The PKIX verifier wired by default: not implemented, whatever its inputs. */
  function PkixVerifierImpl(signature: Bytes, payload: Bytes, publicKey: Bytes): (r: Outcome)
    ensures r == Fail(NotImplemented(Pkix))
  {
    Fail(NotImplemented(Pkix))
  }

  /** The JWT verifier wired by default: not implemented, whatever its inputs. */
  function JwtVerifierImpl(signature: Bytes, publicKey: Bytes): (r: Result<Bytes>)
    ensures r == Err(NotImplemented(Jwt))
  {
    Err(NotImplemented(Jwt))
  }

  /** Turns a verified payload into an authenticated attestation. As the package
      stands it reads nothing from the payload, so the digest is always empty. */
  function FormAuthenticatedAttestation(payload: Bytes): (r: AuthenticatedAttestation)
    ensures r.imageDigest == ""
  {
    AuthenticatedAttestation("")
  }

  /** The default checker: the attestation is accepted exactly when its digest
      is the image digest, character for character; otherwise the payload is
      reported invalid. */
  function CheckAuthenticatedAttestation(actual: AuthenticatedAttestation, imageDigest: string): (r: Outcome)
    ensures r.Pass? <==> actual.imageDigest == imageDigest
    ensures r.Fail? ==> r.error == InvalidPayload
  {
    if actual.imageDigest != imageDigest then Fail(InvalidPayload) else Pass
  }

  /** Builds a verifier for `imageDigest` over `publicKeySet`, wiring the default
      backends; the PGP verifier, defined in another file of the package, is a
      parameter here. Building never fails. */
  function NewVerifier(imageDigest: string, publicKeySet: seq<PublicKey>, verifyPgp: PayloadVerify): (r: Result<Built>)
    ensures r.Ok?
    ensures r.value.verifier.imageDigest == imageDigest
    ensures IsIndexOf(publicKeySet, Index(r.value.verifier.publicKeys, r.value.warnings))
    ensures var b := r.value.verifier.backends;
            && (forall sig, payload, key :: b.verifyPkix(sig, payload, key) == Fail(NotImplemented(Pkix)))
            && (forall sig, key :: b.verifyPgp(sig, key) == verifyPgp(sig, key))
            && (forall sig, key :: b.verifyJwt(sig, key) == Err(NotImplemented(Jwt)))
            && (forall actual, digest :: b.checkAuthenticatedAttestation(actual, digest) == CheckAuthenticatedAttestation(actual, digest))
  {
    var index := IndexPublicKeysByID(publicKeySet);
    var backends := Backends(PkixVerifierImpl, verifyPgp, JwtVerifierImpl, CheckAuthenticatedAttestation);
    Ok(Built(Verifier(imageDigest, index.keys, backends), index.warnings))
  }

  /** Steps before the trust check: the payload that `att`'s signature has been
      verified over, or the error that stopped verification. A payload is
      produced only by a supported key's verifier accepting the signature: for
      PKIX it is the attestation's own serialized payload, for PGP and JWT it
      is what the verifier recovered. */
  function VerifiedPayload(v: Verifier, att: Attestation): (r: Result<Bytes>)
    ensures att.publicKeyId !in v.publicKeys ==> r == Err(UnknownKeyId(att.publicKeyId))
    ensures r.Ok? ==> att.publicKeyId in v.publicKeys && v.publicKeys[att.publicKeyId].keyType.Supported()
    ensures att.publicKeyId in v.publicKeys ==>
              var key := v.publicKeys[att.publicKeyId];
              match key.keyType
              case Pkix =>
                var outcome := v.backends.verifyPkix(att.signature, att.serializedPayload, key.keyData);
                && (r.Ok? <==> outcome.Pass?)
                && (r.Ok? ==> r.value == att.serializedPayload)
                && (r.Err? ==> r.error == outcome.error)
              case Pgp => r == v.backends.verifyPgp(att.signature, key.keyData)
              case Jwt => r == v.backends.verifyJwt(att.signature, key.keyData)
              case Other(_) => r == Err(UnsupportedKeyMode)
  {
    if att.publicKeyId !in v.publicKeys then Err(UnknownKeyId(att.publicKeyId))
    else
      var publicKey := v.publicKeys[att.publicKeyId];
      match publicKey.keyType
      case Pkix =>
        (match v.backends.verifyPkix(att.signature, att.serializedPayload, publicKey.keyData)
         case Pass => Ok(att.serializedPayload)
         case Fail(e) => Err(e))
      case Pgp => v.backends.verifyPgp(att.signature, publicKey.keyData)
      case Jwt => v.backends.verifyJwt(att.signature, publicKey.keyData)
      case Other(_) => Err(UnsupportedKeyMode)
  }

  /** Verifies `att` against the verifier's keys and image digest. A failure
      before the trust check is returned unchanged; otherwise the verdict is the
      checker's on the authenticated attestation formed from the verified
      payload. */
  function VerifyAttestation(v: Verifier, att: Attestation): (r: Outcome)
    ensures att.publicKeyId !in v.publicKeys ==> r == Fail(UnknownKeyId(att.publicKeyId))
    ensures att.publicKeyId in v.publicKeys ==>
              var key := v.publicKeys[att.publicKeyId];
              var check := v.backends.checkAuthenticatedAttestation;
              match key.keyType
              case Pkix =>
                (match v.backends.verifyPkix(att.signature, att.serializedPayload, key.keyData)
                 case Fail(e) => r == Fail(e)
                 case Pass => r == check(FormAuthenticatedAttestation(att.serializedPayload), v.imageDigest))
              case Pgp =>
                (match v.backends.verifyPgp(att.signature, key.keyData)
                 case Err(e) => r == Fail(e)
                 case Ok(payload) => r == check(FormAuthenticatedAttestation(payload), v.imageDigest))
              case Jwt =>
                (match v.backends.verifyJwt(att.signature, key.keyData)
                 case Err(e) => r == Fail(e)
                 case Ok(payload) => r == check(FormAuthenticatedAttestation(payload), v.imageDigest))
              case Other(_) => r == Fail(UnsupportedKeyMode)
  {
    match VerifiedPayload(v, att)
    case Err(e) => Fail(e)
    case Ok(payload) =>
      var actual := FormAuthenticatedAttestation(payload);
      v.backends.checkAuthenticatedAttestation(actual, v.imageDigest)
  }
}
