# Attestation verification engine of kritis `cryptolib`, in Dafny

This project models the attestation verifier in `pkg/kritis/cryptolib/verifier.go`. A verifier
is built from an image digest, supplied by the policy evaluator, and a set of public keys. It
then decides whether one attestation is valid for that image. It does this in five steps:

1. It looks up the key named by the attestation's `PublicKeyID`.
2. It dispatches on the key's type (PKIX, PGP or JWT) to a per-family verifier.
3. It returns any verifier error unchanged.
4. It forms an authenticated attestation from the verified payload.
5. It returns the checker's verdict, which compares that attestation's digest with the image digest.

Modules:

- `Cryptolib` (`types.dfy`): the package's value types. `KeyType` has an `Other` variant, so
  the `default:` branch of the dispatch is reachable. The file also defines `PublicKey`,
  `Attestation`, `AuthenticatedAttestation`, the `Error` kinds, and `Result`/`Outcome`, which
  stand for Go's `(T, error)` and bare `error`.
- `KeyIndex` (`key_index.dfy`): `indexPublicKeysByID` as a fold over the key sequence. The
  warning it logs becomes an explicit `warnings` list. `IdsOf`, `Occurrences` and
  `LastIndexOf` are reference definitions used to state what the fold computes.
- `Verification` (`verifier.dfy`): the verifier record, the default stubs, `NewVerifier` and
  `VerifyAttestation`. The Go code embeds four interfaces so that tests can inject them. Here
  they are the function-typed fields of `Backends`. Every property about the engine is
  therefore proved for every possible verifier and checker behaviour. `VerifiedPayload` is
  the part of `VerifyAttestation` before the trust check.
- `VerificationProperties` (`properties.dfy`): properties that hold for all backend
  behaviours. "Not consulted" is stated as "replacing that backend does not change the
  result". It also shows what the default wiring of `NewVerifier` accepts.
- `Scenarios` (`scenarios.dfy`): concrete end-to-end cases.

The comment on `authenticatedAttestation` (lines 158-164) says it holds data extracted from
the payload once the signature is verified. The code does something else, and the model follows the code. `formAuthenticatedAttestation`
(lines 169-171) ignores its payload and returns an empty digest. So with the default checker,
a verified attestation passes exactly when the image digest is empty.
`ScenarioAcceptedPkixSignature` shows this. The same comment says the concept is still under
discussion, so this is recorded as a divergence and not as a defect.

## Model

| member | source | states |
|---|---|---|
| KeyIndex.IndexPublicKeysByID | pkg/kritis/cryptolib/verifier.go:103-112 | the index's keys are exactly the IDs of the input; each ID maps to the last key in input order carrying it; each ID is warned about once for every key after its first |
| KeyIndex.WarningsInInputOrder | pkg/kritis/cryptolib/verifier.go:105-109 | the warnings are the IDs of the keys that repeat an earlier key's ID, one per such key, in input order |
| KeyIndex.EntriesPlusWarnings | pkg/kritis/cryptolib/verifier.go:105-110 | every input key either adds a map entry or records a warning, so entries plus warnings equal the number of keys |
| KeyIndex.WarnedIffRepeated | pkg/kritis/cryptolib/verifier.go:105-108 | a warning names an ID if and only if two distinct input positions carry that ID |
| KeyIndex.NoWarningsIffDistinct | pkg/kritis/cryptolib/verifier.go:103-111 | building warns about nothing if and only if all IDs are distinct |
| KeyIndex.LookupYieldsLastKey | pkg/kritis/cryptolib/verifier.go:105-110 | looking up an ID of the input yields a key of the input with that ID that no later input key with the same ID follows (last write wins) |
| Verification.NewVerifier | pkg/kritis/cryptolib/verifier.go:91-101 | building never fails; the verifier keeps the image digest and the index of the key set; PKIX and JWT are wired to not-implemented stubs, PGP to the given verifier, and the checker to the default checker, which passes on an exact digest match and otherwise fails with InvalidPayload |
| Verification.PkixVerifierImpl | pkg/kritis/cryptolib/verifier.go:148-150 | the default PKIX verifier fails as not implemented for PKIX, whatever its inputs |
| Verification.JwtVerifierImpl | pkg/kritis/cryptolib/verifier.go:154-156 | the default JWT verifier recovers no payload and fails as not implemented for JWT, whatever its inputs |
| Verification.FormAuthenticatedAttestation | pkg/kritis/cryptolib/verifier.go:169-171 | the authenticated attestation formed from any payload carries an empty image digest |
| Verification.CheckAuthenticatedAttestation | pkg/kritis/cryptolib/verifier.go:178-183 | the default checker passes if and only if the authenticated digest equals the image digest exactly, and otherwise reports an invalid payload |
| Verification.VerifiedPayload | pkg/kritis/cryptolib/verifier.go:118-138 | an absent key gives UnknownKeyId; an unsupported type gives UnsupportedKeyMode; PKIX calls its verifier with signature, serialized payload and key data and hands on the serialized payload; PGP and JWT call theirs with signature and key data and hand on what it returned; verifier errors pass through unchanged |
| Verification.VerifyAttestation | pkg/kritis/cryptolib/verifier.go:115-144 | end to end, for each key family: a verifier error is the result; otherwise the result is the checker's verdict on the attestation formed from the verified payload and the image digest |
| VerificationProperties.UnknownKeyConsultsNoBackend | pkg/kritis/cryptolib/verifier.go:118-121 | an absent key ID fails with UnknownKeyId, and the result does not depend on any verifier or checker |
| VerificationProperties.UnsupportedKeyConsultsNoBackend | pkg/kritis/cryptolib/verifier.go:125-135 | a key of an unsupported type fails with UnsupportedKeyMode whatever the signature, the payload and the backends |
| VerificationProperties.VerifierErrorSkipsChecker | pkg/kritis/cryptolib/verifier.go:136-143 | when the selected verifier fails, that error is the result and the checker is not reached: any other checker gives the same result |
| VerificationProperties.DefaultCheckerExactMatch | pkg/kritis/cryptolib/verifier.go:169-183 | after successful signature verification under the default checker, the result passes if and only if the formed digest equals the image digest; since it is empty, if and only if the image digest is empty; any failure is InvalidPayload |
| VerificationProperties.DefaultPkixAndJwtNotImplemented | pkg/kritis/cryptolib/verifier.go:146-156 | under the default wiring every attestation whose key is PKIX or JWT fails as not implemented for that family |
| VerificationProperties.DefaultAcceptance | pkg/kritis/cryptolib/verifier.go:96-99 | under the default wiring an attestation passes if and only if its key ID is in the key set, the last key with that ID is PGP, the PGP verifier accepts, and the image digest is empty |
| VerificationProperties.DefaultPgpDigestMismatch | pkg/kritis/cryptolib/verifier.go:96-99 | under the default wiring, an attestation whose last matching key is PGP and whose signature the PGP verifier accepts fails with InvalidPayload against any non-empty image digest |
| Scenarios.ScenarioUnknownKey | pkg/kritis/cryptolib/verifier.go:118-121 | an attestation naming "missing" against the key set {"k1"} fails with UnknownKeyId("missing") |
| Scenarios.ScenarioJwtNotImplemented | pkg/kritis/cryptolib/verifier.go:152-156 | a JWT key under the default wiring fails with NotImplemented(Jwt), which differs from any InvalidSignature |
| Scenarios.ScenarioRepeatedKeyIdIndex | pkg/kritis/cryptolib/verifier.go:103-112 | for keys [PGP "k1", PKIX "k1"], the index holds only the PKIX key and warns once about "k1" |
| Scenarios.ScenarioRepeatedKeyId | pkg/kritis/cryptolib/verifier.go:118-132 | with those keys under the default wiring, verification uses the PKIX key and fails as PKIX not implemented |
| Scenarios.ScenarioDigestMismatch | pkg/kritis/cryptolib/verifier.go:178-183 | an accepted PKIX signature checked against "sha256:def" fails with InvalidPayload |
| Scenarios.ScenarioAcceptedPkixSignature | pkg/kritis/cryptolib/verifier.go:126-143 | an accepted PKIX signature hands on the serialized payload, yet fails against "sha256:abc" and passes only against the empty digest |

## Left out

- Cryptography. PKIX/X.509, OpenPGP (RFC 4880) and JWT signature checking are abstract function parameters. So whether a bit flipped in a signature or payload turns success into failure depends on the backend rejecting it. What the model shows is that a backend rejection is always the result.
- `pgpVerifierImpl` is not part of this model. It does real OpenPGP verification in another file of the package, so, like the other backends, it is an abstract parameter of `NewVerifier`.
- Go strings are byte strings; key IDs and digests are modelled as character strings (`seq<char>`), so IDs or digests that are not valid UTF-8 cannot be represented. Only exact equality and map lookup use them, so no property depends on this.
- The values of the `KeyType` constants `Pkix`, `Pgp` and `Jwt`, and the definition of `Attestation`, are defined outside the file. `KeyType` is a datatype with an `Other(name)` variant. `Attestation` is the record of key ID, signature and serialized payload.
- Logging. `glog.Warningf` becomes the returned `warnings` list of repeated IDs.
- Error message strings. They are `Error` variants: `UnknownKeyId(id)`, `UnsupportedKeyMode`, `NotImplemented(family)` for the stubs' "not implemented" errors, `InvalidSignature` for what a working backend would report, and `InvalidPayload` for the checker's mismatch.
- Go's `Verifier` interface, pointers and nil values. A nil attestation pointer is not modelled, and the embedded testing interfaces become the `Backends` record.
- Cryptolib.NewPublicKey is modelled but has no contract: it only assembles the record.
- `VerifyAttestation` is a pure function of immutable values, so repeated calls with the same inputs give the same result and neither the key map nor the image digest can change.
