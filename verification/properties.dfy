/**
 Properties of the verification engine that relate several calls or hold for
 every behaviour of the injected backends, and what the default wiring built
 by NewVerifier accepts.
 */
module VerificationProperties {
  import opened Cryptolib
  import opened KeyIndex
  import opened Verification

  /** An attestation naming an absent key fails with UnknownKeyId, and no
      backend is consulted: replacing every backend leaves the result unchanged. */
  lemma UnknownKeyConsultsNoBackend(v: Verifier, other: Backends, att: Attestation)
    requires att.publicKeyId !in v.publicKeys
    ensures VerifyAttestation(v, att) == Fail(UnknownKeyId(att.publicKeyId))
    ensures VerifyAttestation(v.(backends := other), att) == VerifyAttestation(v, att)
  {
  }

  /** A key of an unsupported type fails with UnsupportedKeyMode whatever the
      signature, the payload and the backends. */
  lemma UnsupportedKeyConsultsNoBackend(v: Verifier, other: Backends, att: Attestation, signature: Bytes, payload: Bytes)
    requires att.publicKeyId in v.publicKeys
    requires !v.publicKeys[att.publicKeyId].keyType.Supported()
    ensures VerifyAttestation(v, att) == Fail(UnsupportedKeyMode)
    ensures VerifyAttestation(v.(backends := other), att.(signature := signature, serializedPayload := payload)) == Fail(UnsupportedKeyMode)
  {
  }

  /** When the selected verifier fails, its error is the result and the
      checker is never reached: any other checker gives the same result. */
  lemma VerifierErrorSkipsChecker(v: Verifier, check: AttestationCheck, att: Attestation)
    requires VerifiedPayload(v, att).Err?
    ensures VerifyAttestation(v, att) == Fail(VerifiedPayload(v, att).error)
    ensures VerifyAttestation(v.(backends := v.backends.(checkAuthenticatedAttestation := check)), att) == VerifyAttestation(v, att)
  {
  }

  /** Once verification has produced a payload, the result is the checker's;
      with the default checker that means success exactly when the digest of
      the authenticated attestation equals the image digest, and InvalidPayload
      otherwise. Since that digest is empty, only an empty image digest passes. */
  lemma DefaultCheckerExactMatch(v: Verifier, att: Attestation)
    requires forall actual, digest :: v.backends.checkAuthenticatedAttestation(actual, digest) == CheckAuthenticatedAttestation(actual, digest)
    requires VerifiedPayload(v, att).Ok?
    ensures VerifyAttestation(v, att).Pass? <==>
            FormAuthenticatedAttestation(VerifiedPayload(v, att).value).imageDigest == v.imageDigest
    ensures VerifyAttestation(v, att).Pass? <==> v.imageDigest == ""
    ensures VerifyAttestation(v, att).Fail? ==> VerifyAttestation(v, att).error == InvalidPayload
  {
  }

  /** With the default wiring, an attestation whose key is PKIX or JWT fails
      as not implemented, whatever its signature and payload. */
  lemma DefaultPkixAndJwtNotImplemented(imageDigest: string, publicKeySet: seq<PublicKey>, verifyPgp: PayloadVerify, att: Attestation)
    requires att.publicKeyId in IdsOf(publicKeySet)
    requires publicKeySet[LastIndexOf(publicKeySet, att.publicKeyId)].keyType in {Pkix, Jwt}
    ensures var v := NewVerifier(imageDigest, publicKeySet, verifyPgp).value.verifier;
            VerifyAttestation(v, att) == Fail(NotImplemented(publicKeySet[LastIndexOf(publicKeySet, att.publicKeyId)].keyType))
  {
  }

  /** What the default wiring accepts: an attestation passes exactly when its
      key ID is among the input keys, the last key with that ID is a PGP key,
      the PGP verifier accepts the signature under that key, and the image
      digest is empty. */
  lemma DefaultAcceptance(imageDigest: string, publicKeySet: seq<PublicKey>, verifyPgp: PayloadVerify, att: Attestation)
    ensures var v := NewVerifier(imageDigest, publicKeySet, verifyPgp).value.verifier;
            VerifyAttestation(v, att).Pass? <==>
              && att.publicKeyId in IdsOf(publicKeySet)
              && var key := publicKeySet[LastIndexOf(publicKeySet, att.publicKeyId)];
              && key.keyType == Pgp
              && verifyPgp(att.signature, key.keyData).Ok?
              && imageDigest == ""
  {
    var v := NewVerifier(imageDigest, publicKeySet, verifyPgp).value.verifier;
    if att.publicKeyId in IdsOf(publicKeySet) {
      var key := publicKeySet[LastIndexOf(publicKeySet, att.publicKeyId)];
      assert v.publicKeys[att.publicKeyId] == key;
    }
  }

  /** With the default wiring, an attestation whose last matching key is PGP
      and whose signature the PGP verifier accepts still fails with
      InvalidPayload against any non-empty image digest. */
  lemma DefaultPgpDigestMismatch(imageDigest: string, publicKeySet: seq<PublicKey>, verifyPgp: PayloadVerify, att: Attestation)
    requires att.publicKeyId in IdsOf(publicKeySet)
    requires publicKeySet[LastIndexOf(publicKeySet, att.publicKeyId)].keyType == Pgp
    requires verifyPgp(att.signature, publicKeySet[LastIndexOf(publicKeySet, att.publicKeyId)].keyData).Ok?
    requires imageDigest != ""
    ensures var v := NewVerifier(imageDigest, publicKeySet, verifyPgp).value.verifier;
            VerifyAttestation(v, att) == Fail(InvalidPayload)
  {
    var v := NewVerifier(imageDigest, publicKeySet, verifyPgp).value.verifier;
    assert v.publicKeys[att.publicKeyId] == publicKeySet[LastIndexOf(publicKeySet, att.publicKeyId)];
  }
}
