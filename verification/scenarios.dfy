/**
 Concrete cases: a missing key, a JWT key under the
 default wiring, a repeated key ID, and a PKIX attestation whose signature an
 injected verifier accepts, checked against a matching and a different digest.
 */
module Scenarios {
  import opened Cryptolib
  import opened KeyIndex
  import opened Verification

  /** A PKIX verifier that accepts every signature, standing in for a working backend. */
  function AcceptAll(signature: Bytes, payload: Bytes, publicKey: Bytes): Outcome
  {
    Pass
  }

  /** A verifier over one PKIX key "k1" whose PKIX backend accepts every
      signature, with the default checker. */
  function PkixVerifierFor(imageDigest: string): Verifier
  {
    Verifier(imageDigest, map["k1" := PublicKey(Pkix, [7, 7], "k1")],
             Backends(AcceptAll, (s, k) => Err(NotImplemented(Pgp)), JwtVerifierImpl, CheckAuthenticatedAttestation))
  }

  /** An attestation naming a key that is not in the set fails with UnknownKeyId. */
  lemma ScenarioUnknownKey(verifyPgp: PayloadVerify)
    ensures var v := NewVerifier("sha256:abc", [PublicKey(Pkix, [7, 7], "k1")], verifyPgp).value.verifier;
            VerifyAttestation(v, Attestation("missing", [1], [2])) == Fail(UnknownKeyId("missing"))
  {
  }

  /** A JWT key under the default wiring fails as not implemented, which is a
      different error from a rejected signature. */
  lemma ScenarioJwtNotImplemented(verifyPgp: PayloadVerify, reason: string)
    ensures var v := NewVerifier("sha256:abc", [PublicKey(Jwt, [7, 7], "k1")], verifyPgp).value.verifier;
            && VerifyAttestation(v, Attestation("k1", [1], [2])) == Fail(NotImplemented(Jwt))
            && VerifyAttestation(v, Attestation("k1", [1], [2])) != Fail(InvalidSignature(reason))
  {
  }

  /** Two keys share the ID "k1": the later PKIX key replaces the earlier PGP
      key and one warning names "k1". */
  lemma ScenarioRepeatedKeyIdIndex()
    ensures IndexPublicKeysByID([PublicKey(Pgp, [1], "k1"), PublicKey(Pkix, [2], "k1")])
            == Index(map["k1" := PublicKey(Pkix, [2], "k1")], ["k1"])
  {
    var first, second := PublicKey(Pgp, [1], "k1"), PublicKey(Pkix, [2], "k1");
    var keys := [first, second];
    assert keys[..1] == [first] && [first][..0] == [];
    assert IndexPublicKeysByID([first]) == Index(map["k1" := first], []);
    assert map["k1" := first]["k1" := second] == map["k1" := second];
  }

  /** With those two keys, verification under the default wiring uses the
      PKIX key and so fails as not implemented. */
  lemma ScenarioRepeatedKeyId(verifyPgp: PayloadVerify)
    ensures var keys := [PublicKey(Pgp, [1], "k1"), PublicKey(Pkix, [2], "k1")];
            var v := NewVerifier("", keys, verifyPgp).value.verifier;
            VerifyAttestation(v, Attestation("k1", [1], [2])) == Fail(NotImplemented(Pkix))
  {
    var keys := [PublicKey(Pgp, [1], "k1"), PublicKey(Pkix, [2], "k1")];
    var v := NewVerifier("", keys, verifyPgp).value.verifier;
    assert v.publicKeys["k1"].keyType == Pkix by {
      ScenarioRepeatedKeyIdIndex();
    }
  }

  /** A PKIX signature accepted by the backend, checked against a different
      digest, fails with InvalidPayload. */
  lemma ScenarioDigestMismatch()
    ensures VerifyAttestation(PkixVerifierFor("sha256:def"), Attestation("k1", [1], [2])) == Fail(InvalidPayload)
  {
  }

  /** A PKIX signature accepted by the backend still fails against
      "sha256:abc", whatever the payload holds: the authenticated attestation
      carries an empty digest. The payload handed on is the attestation's
      serialized payload. */
  lemma ScenarioAcceptedPkixSignature()
    ensures VerifiedPayload(PkixVerifierFor("sha256:abc"), Attestation("k1", [1], [2])) == Ok([2])
    ensures VerifyAttestation(PkixVerifierFor("sha256:abc"), Attestation("k1", [1], [2])) == Fail(InvalidPayload)
    ensures VerifyAttestation(PkixVerifierFor(""), Attestation("k1", [1], [2])) == Pass
  {
  }
}
