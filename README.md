# polyproto identity certificates in Dafny

A model of the identity-certificate core of polyproto, a Rust library that defines
the "ID-Cert" (a constrained X.509 certificate) and the "ID-CSR" (a constrained
PKCS#10 certification request) and converts both to and from their wire structures.
Three source files are modelled:

- `src/certificates.rs`, the flat certificate model (module `Certificates`). A request
  (`IdCsr`) becomes a to-be-signed certificate (`IdCertTbs`) and can be recovered from
  one. The TBS is serialised by a length-prefixed big-endian encoder (`to_bytes`).
  `try_sign` signs that byte string, unless the private key's signature type differs
  from the TBS public key's.
- `src/certs/idcsr.rs`, the PKCS#10 ID-CSR (module `Idcsr`). It covers construction
  that fails on the first invalid input, the actor and home-server role checks keyed
  on the CA flag, and the conversions to and from `CertReqInfo` / `CertReq` and their
  DER encoding. The structures are those of sections 4.1 and 4.2 of RFC 2986.
- `src/certs/idcert.rs`, the X.509 ID-Cert (module `Idcert`). It covers issuance from
  a request: issuer validation, the domain-component check, TBS construction, signing
  and re-validation. It also covers the conversions to and from `Certificate`
  (section 4.1 of RFC 5280) and DER.

Supporting modules:

- `Wrappers`: `Option`, `Result` and `Outcome`.
- `Bytes`: bytes and Rust's `to_be_bytes`.
- `X509`: the generic wire structures, and the DER codec as a record of functions.
- `Certs`: the polyproto entities and errors. It also holds `Collaborators`, a record
  of every function the modelled code calls but does not define:
  - `Name::validate`, `Capabilities::validate`, `IdCsr::validate` and `IdCert::validate`;
  - `equal_domain_components`;
  - the `Capabilities` to `Attributes` conversions;
  - the signature and public-key trait methods;
  - the `IdCertTbs` constructors and conversions.

  The round-trip laws these collaborators are trusted to obey are ghost predicates
  (`SignatureLaws`, `PublicKeyLaws`, `CapabilitiesLaws`, `TbsLaws`, `X509.Lossless`,
  together `CodecLaws`). Every round-trip lemma states them as a precondition.

Modelling assumptions:

- In `src/certificates.rs`, a Rust `String` is its UTF-8 bytes (`RustString`), because
  `len()` and `as_bytes()` both work on bytes.
- `usize` is 8 bytes wide (a 64-bit target), so each length prefix is 8 big-endian bytes.
- The public key in that file is its signature type plus its raw bytes (`as_bytes()`).

What the model shows beyond field-by-field construction:

- **The signed bytes are decodable.** `ParseTbsBytes` recovers every field that
  `to_bytes` writes (`ParseTbsBytesOfTbsBytes`), so for public keys of one length the
  signed bytes determine the TBS except its key's signature type (`TbsBytesInjective`).
- **Two limits of that encoding:**
  - The public key itself is not length-prefixed. Keys of different lengths can give
    equal bytes for different TBS values (`TbsBytesAmbiguousAcrossKeyLengths`).
  - The key's signature type is never part of the signed bytes. Two TBS values that
    differ only in it have equal bytes (`TbsBytesOmitSignatureType`).
- **Requests and certificates round-trip through DER** under the collaborator laws
  (`Idcsr.DerRoundTrip`, `Idcert.DerRoundTrip`). A request must have a valid subject,
  because decoding re-validates it. A certificate must pass `validate()`, because
  `from_der` checks it. The outputs of `IdCsr::new`, `IdCert::from_actor_csr` and
  `IdCert::from_ca_csr` survive the round trip
  (`NewRequestDecodes`, `IssuedActorCertificateDecodes`, `IssuedCaCertificateDecodes`).
- **Decoding a `Certificate` never reads its outer `signatureAlgorithm`**
  (`FromCertificateIgnoresOuterAlgorithm`). Two `Certificate`s that differ only in the
  outer `signatureAlgorithm` decode to the same ID-Cert, so re-encoding gives back at
  most one of them (`ReencodingRestoresOneAlgorithm`). Which one it gives back depends
  on the unseen `TbsCertificate` conversion.

Behaviour of the code that the model keeps as written:

- Decoding a request's signature cannot fail, because `S::from_bytes` is infallible
  (src/certs/idcsr.rs:194).
- `IdCert::from_der` validates the decoded certificate (src/certs/idcert.rs:117).
- The doc comment of `from_ca_csr` says it fails when the request's `ca` flag is
  `false` (src/certs/idcert.rs:43-44). Nothing in idcert.rs reads that flag. Any such
  check would be in the unseen `IdCertTbs` constructors, which are parameters here.
  The doc comment of `from_actor_csr` (src/certs/idcert.rs:75-78) repeats the same
  CA-flag wording.
- idcert.rs compares no algorithm identifiers at run time. Any such check would be in
  the unseen `IdCertTbs` constructors or `IdCert::validate`, which are parameters here.

## Model

| member | source | states |
|---|---|---|
| Bytes.BeBytes | src/certificates.rs:93-102 | `to_be_bytes` gives exactly `width` bytes, and they denote the number encoded |
| Bytes.BeBytesOfBeValue | src/certificates.rs:93-102 | every byte string of a given width is the big-endian encoding of the value it denotes, so the encoding is invertible |
| Certificates.ToIdCertTbs | src/certificates.rs:24-44 | copies `pub_key`, `federation_id` and `session_id` unchanged and sets `expiry` and `serial` to the arguments; converting the TBS back into a request gives the original request with only `expiry` replaced by `Some(expiry)` |
| Certificates.FromIdCertTbs | src/certificates.rs:35-44 | keeps key, federation ID and session ID; the request's expiry is `Some` of the TBS expiry |
| Certificates.ToIdCertTbsOfFromIdCertTbs | src/certificates.rs:24-44 | a TBS is rebuilt exactly from its request form plus its own expiry and serial |
| Certificates.UsizeBytes | src/certificates.rs:93 | a length prefix is 8 bytes (64-bit `usize`) and denotes the length |
| Certificates.U64Bytes | src/certificates.rs:101 | the expiry is 8 big-endian bytes denoting the expiry |
| Certificates.TbsBytes | src/certificates.rs:90-105 | the signed bytes start with the public-key bytes; their length is key length + 5·8 + the four string lengths + 8 + serial length |
| Certificates.ExtendPrefixed | src/certificates.rs:93-94 | one length-then-bytes pair of appends adds the length-prefixed string to the buffer |
| Certificates.ToBytes | src/certificates.rs:90-105 | the buffer built by the successive appends is the specified byte layout |
| Certificates.ReadPrefixed | src/certificates.rs:93-94 | whatever the reader returns is a length-prefixed string followed by the rest of the input |
| Certificates.ReadPrefixedOfPrefixed | src/certificates.rs:93-103 | a length-prefixed string is read back exactly, whatever follows it |
| Certificates.ParseTailOfTail | src/certificates.rs:101-103 | expiry and length-prefixed serial are read back from the end of the signed bytes |
| Certificates.ParseTbsBytesOfTbsBytes | src/certificates.rs:90-105 | parsing the signed bytes with the key length recovers key bytes, actor name, domain, TLD, session ID, expiry and serial |
| Certificates.TbsBytesInjective | src/certificates.rs:92-103 | for equal key lengths, equal signed bytes imply equal key bytes, federation IDs, session IDs, expiries and serials |
| Certificates.TbsBytesAmbiguousAcrossKeyLengths | src/certificates.rs:92-103 | the key is not length-prefixed: two TBS values with different key lengths and different fields have the same signed bytes |
| Certificates.TbsBytesOmitSignatureType | src/certificates.rs:90-105 | the key's signature type is not among the signed bytes: two different TBS values, differing only in it, have equal bytes |
| Certificates.TrySign | src/certificates.rs:107-126 | fails exactly when the private key's signature type differs from the TBS key's, with `SignatureTypeMismatch(private type, public type)`; on success every TBS field is kept and the signature is the key's signature of the `to_bytes` output |
| Certificates.SignedCertificatesAgree | src/certificates.rs:111-125 | when both signings succeed over equal bytes with keys of one length, `try_sign` gives the same result for both: the same certificate, with the same signature and every signed field equal |
| Idcsr.InnerNew | src/certs/idcsr.rs:156-174 | succeeds iff subject and capabilities validate; the subject error is reported before the capabilities error; on success version 1 with subject, key and capabilities as given |
| Idcsr.ToCertReqInfo | src/certs/idcsr.rs:232-242 | fails iff the capabilities cannot become attributes; on success version 1, the subject unchanged, the key's public-key info, and the attributes |
| Idcsr.FromCertReqInfo | src/certs/idcsr.rs:199-218 | succeeds iff the subject validates, the public-key info converts and the attributes convert; the failures take precedence in that order; the result is always version 1 |
| Idcsr.InnerRoundTrip | src/certs/idcsr.rs:199-242 | a request body with a valid subject survives conversion to `CertReqInfo` and back |
| Idcsr.InnerToDer | src/certs/idcsr.rs:181-184 | succeeds iff conversion and encoding succeed, and yields the encoding of the converted body |
| Idcsr.InnerFromDer | src/certs/idcsr.rs:176-179 | a decode error is reported as such; otherwise the result is the conversion of the decoded `CertReqInfo`, with a valid subject and version 1 |
| Idcsr.InnerDerRoundTrip | src/certs/idcsr.rs:176-184 | a request body with a valid subject is recovered from its DER encoding |
| Idcsr.New | src/certs/idcsr.rs:62-77 | an invalid subject is reported before anything else; succeeds iff subject and capabilities validate and the body encodes; the body holds the signing key's public key, the signature is the signing key's signature of the body's DER encoding, and the algorithm is the signature type's |
| Idcsr.ValidateActor | src/certs/idcsr.rs:82-90 | passes iff the request validates and its CA flag is false; otherwise the validation error, or `Malformed` for a CA request |
| Idcsr.ValidateHomeServer | src/certs/idcsr.rs:95-105 | passes iff the request validates and its CA flag is true; otherwise the validation error, or `Malformed` for a non-CA request |
| Idcsr.ExactlyOneRole | src/certs/idcsr.rs:82-105 | a valid request passes exactly one of the two role checks; an invalid one passes neither |
| Idcsr.ToCertReq | src/certs/idcsr.rs:220-230 | the body is converted first; the signature algorithm is copied unchanged and the signature is encoded with `to_bitstring` |
| Idcsr.FromCertReq | src/certs/idcsr.rs:187-197 | fails exactly when the body fails; the algorithm is copied unchanged and the signature rebuilt from the raw bytes |
| Idcsr.CertReqRoundTrip | src/certs/idcsr.rs:187-230 | a request with a valid subject survives conversion to `CertReq` and back |
| Idcsr.ToDer | src/certs/idcsr.rs:113-116 | succeeds iff conversion and encoding succeed, and yields the encoding of the converted request |
| Idcsr.FromDer | src/certs/idcsr.rs:107-111 | a decode error is reported as such; otherwise the result is the conversion of the decoded `CertReq`, with a valid subject |
| Idcsr.DerRoundTrip | src/certs/idcsr.rs:107-116 | a request with a valid subject is recovered from its DER encoding |
| Idcsr.NewRequestDecodes | src/certs/idcsr.rs:62-116 | every request `new` builds decodes from its DER encoding to itself |
| Idcert.Issue | src/certs/idcert.rs:54-72 | an invalid issuer is reported first; then a domain-component mismatch gives `Malformed`, whatever the key or TBS constructor; success iff every step succeeds; on success the TBS is the constructor's, the signature is the signing key's signature of the TBS DER, and the certificate validates |
| Idcert.FromCaCsr | src/certs/idcert.rs:47-73 | issuer error first, then domain mismatch; a returned certificate has the TBS of `IdCertTbs::from_ca_csr` with the key's algorithm, the key's signature of its DER, and passes `validate()` |
| Idcert.FromActorCsr | src/certs/idcert.rs:81-112 | the same as `from_ca_csr`, with `IdCertTbs::from_actor_csr` |
| Idcert.CaAndActorDifferOnlyInTbs | src/certs/idcert.rs:47-112 | when both TBS constructors agree, both certificate constructors return the same result |
| Idcert.ToCertificate | src/certs/idcert.rs:127-136 | the TBS is converted first; the outer signature algorithm is the TBS's and the signature is encoded with `to_bitstring` |
| Idcert.FromCertificate | src/certs/idcert.rs:138-149 | fails exactly when the TBS fails; the signature is rebuilt with `from_bitstring` on the raw bytes |
| Idcert.CertificateRoundTrip | src/certs/idcert.rs:127-149 | a certificate survives conversion to `Certificate` and back |
| Idcert.FromCertificateIgnoresOuterAlgorithm | src/certs/idcert.rs:141-147 | changing the outer signature algorithm of a `Certificate` does not change what it decodes to |
| Idcert.ReencodingRestoresOneAlgorithm | src/certs/idcert.rs:127-147 | of two `Certificate`s differing only in the outer signature algorithm, converting the decoded ID-Cert back gives at most one |
| Idcert.ToDer | src/certs/idcert.rs:121-124 | succeeds iff conversion and encoding succeed, and yields the encoding of the converted certificate |
| Idcert.FromDer | src/certs/idcert.rs:114-119 | succeeds iff decoding, conversion and validation succeed; a returned certificate passes `validate()` |
| Idcert.DerRoundTrip | src/certs/idcert.rs:114-124 | a certificate that passes `validate()` is recovered from its DER encoding |
| Idcert.IssuedActorCertificateDecodes | src/certs/idcert.rs:81-124 | every certificate `from_actor_csr` issues decodes from its DER encoding to itself |
| Idcert.IssuedCaCertificateDecodes | src/certs/idcert.rs:47-124 | every certificate `from_ca_csr` issues decodes from its DER encoding to itself |

## Left out

- PEM: `IdCsr::from_pem` and `IdCsr::to_pem` (src/certs/idcsr.rs:118-126) and their `LineEnding` are not modelled. They differ from the DER pair only in the external codec.
- The DER codec of the `der` and `x509_cert` crates is a record of functions (`X509.DerCodec`). Its tag/length format is not modelled; only the decode-after-encode law is assumed.
- Cryptography: signing is a function carried by the private key, and verification is not modelled. Signing is deterministic in the model, although a real signer may use randomness. The anti-malleability requirement on `verify_signature` cannot be stated.
- These functions are parameters, not definitions: `Name::validate`, `Capabilities::validate`, `IdCsr::validate`, `IdCert::validate`, `equal_domain_components`, the `Capabilities` / `Attributes` conversions, `PublicKey::try_from_public_key_info` and `public_key_info`, and the `IdCertTbs` constructors, DER encoding and `TbsCertificate` conversions. The protocol constraints they enforce (names, CA flag of the TBS, session-ID length) are therefore not modelled.
- `SubjectPublicKeyInfo` and the crate's `PublicKeyInfo` are one datatype. The `.into()` between them (src/certs/idcsr.rs:238) is taken to copy both fields.
- The contents of `Name`, `Capabilities`, `Attributes`, `TbsCertificate`, serial numbers and validity are plain values compared only for equality.
- The `PhantomData` marker of `IdCsrInner` has no counterpart: the signature type is fixed by the `Collaborators` record.
- Error values of the unseen code are not modelled: they are whatever the collaborators return. Only the errors the modelled code builds itself have fixed contents (`Malformed` with its message, `SignatureTypeMismatch`).
- Certificates.TrySign: that the key is never asked to sign on the mismatch path is not observable in a pure model. The contract states only that the error then does not depend on the signing function.
- `usize` is fixed at 64 bits. On a 32-bit target each length prefix in `to_bytes` would be 4 bytes.
- src/key.rs, src/lib.rs and src/types/spki/algorithmidentifierowned.rs are not part of this model beyond the key operations named above. The algorithm identifier is a plain value with equality.
