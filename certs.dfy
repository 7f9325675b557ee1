/**
 * The polyproto certificate entities (ID-CSR, ID-Cert TBS, ID-Cert), their
 * errors, and the collaborators the request and certificate code calls but
 * does not define: name and capability validation, the capabilities to
 * attributes conversion, the signature and public-key types, the TBS
 * constructors and the DER codec.
 */
module Certs {
  import opened Wrappers
  import opened Bytes
  import opened X509

  /** A public key of the pluggable key type `P`; compared only for equality. */
  datatype PublicKey = PublicKey(material: seq<byte>)

  /** A signature of the pluggable signature type `S`; compared only for equality. */
  datatype Signature = Signature(material: seq<byte>)

  /**
   * A private key of the pluggable key type: its public key (`pubkey()`), its
   * algorithm identifier (`algorithm_identifier()`) and its signing operation
   * (`sign`), which is not modelled further.
   */
  datatype PrivateKey = PrivateKey(pubkey: PublicKey, algorithmIdentifier: AlgorithmIdentifier, sign: seq<byte> -> Signature)

  /** The X.509 basic-constraints extension: is the subject a CA, and how long may its chain be. */
  datatype BasicConstraints = BasicConstraints(ca: bool, pathLength: Option<nat>)

  /** The capabilities a subject asks for: basic constraints and the other extension flags. */
  datatype Capabilities = Capabilities(basicConstraints: BasicConstraints, otherFlags: seq<Attribute>)

  /** `PkcsVersion`: the protocol only knows version 1. */
  datatype PkcsVersion = V1

  /** `CertificationRequestInfo` in polyproto terms. */
  datatype IdCsrInner = IdCsrInner(version: PkcsVersion, subject: Name, subjectPublicKey: PublicKey, capabilities: Capabilities)

  /** `CertificationRequest` in polyproto terms. */
  datatype IdCsr = IdCsr(innerCsr: IdCsrInner, signatureAlgorithm: AlgorithmIdentifier, signature: Signature)

  /** The to-be-signed ID-Cert, as built by the authority. */
  datatype IdCertTbs = IdCertTbs(
    serialNumber: Uint,
    signatureAlgorithm: AlgorithmIdentifier,
    issuer: Name,
    validity: Validity,
    subject: Name,
    subjectPublicKey: PublicKey,
    capabilities: Capabilities)

  /** A signed ID-Cert. */
  datatype IdCert = IdCert(idCertTbs: IdCertTbs, signature: Signature)

  /** A protocol constraint that does not hold, with an optional description. */
  datatype ConstraintError = Malformed(detail: Option<string>)

  /** Errors of the request code and of wire conversions. */
  datatype ConversionError =
    | ConstraintFailure(constraint: ConstraintError)
    | DerFailure(derError: DerError)

  /** Errors of the certificate code. */
  datatype IdCertError =
    | CertConstraintFailure(constraint: ConstraintError)
    | CertDerFailure(derError: DerError)

  /** The signature of `IdCertTbs::from_ca_csr` and `IdCertTbs::from_actor_csr`. */
  type TbsConstructor = (IdCsr, Uint, AlgorithmIdentifier, Name, Validity) -> Result<IdCertTbs, IdCertError>

  /**
   * Everything the request and certificate code calls without defining it,
   * for one choice of signature type `S` and public-key type `P`.
   */
  datatype Collaborators = Collaborators(
    /** `Name::validate` */
    validateName: Name -> Outcome<ConstraintError>,
    /** `Capabilities::validate` */
    validateCapabilities: Capabilities -> Outcome<ConstraintError>,
    /** `IdCsr::validate` */
    validateCsr: IdCsr -> Outcome<ConstraintError>,
    /** `IdCert::validate` */
    validateCert: IdCert -> Outcome<ConstraintError>,
    /** `equal_domain_components(subject, issuer)` */
    equalDomainComponents: (Name, Name) -> bool,
    /** `Attributes::try_from(Capabilities)` and `Capabilities::try_from(Attributes)` */
    capabilitiesToAttributes: Capabilities -> Result<Attributes, ConversionError>,
    capabilitiesFromAttributes: Attributes -> Result<Capabilities, ConversionError>,
    /** `S::algorithm_identifier()` */
    signatureAlgorithm: AlgorithmIdentifier,
    /** `S::to_bitstring`, `S::from_bytes` and `S::from_bitstring` */
    signatureToBitString: Signature -> Result<BitString, DerError>,
    signatureFromBytes: seq<byte> -> Signature,
    signatureFromBitString: seq<byte> -> Signature,
    /** `P::public_key_info` and `P::try_from_public_key_info` */
    publicKeyInfo: PublicKey -> PublicKeyInfo,
    publicKeyFromInfo: PublicKeyInfo -> Result<PublicKey, ConversionError>,
    /** `IdCertTbs::from_ca_csr` and `IdCertTbs::from_actor_csr` */
    tbsFromCaCsr: TbsConstructor,
    tbsFromActorCsr: TbsConstructor,
    /** `IdCertTbs::to_der`, and the `TbsCertificate` conversions of `IdCertTbs` */
    tbsToDer: IdCertTbs -> Result<seq<byte>, IdCertError>,
    tbsToTbsCertificate: IdCertTbs -> Result<TbsCertificate, IdCertError>,
    tbsFromTbsCertificate: TbsCertificate -> Result<IdCertTbs, IdCertError>,
    /** the DER codec of the `der` and `x509_cert` crates */
    der: DerCodec)

  /** The signature encodings round-trip through the raw bytes of the bit string. */
  ghost predicate SignatureLaws(env: Collaborators)
  {
    && (forall s :: env.signatureToBitString(s).Success? ==>
          env.signatureFromBytes(env.signatureToBitString(s).value.rawBytes) == s)
    && (forall s :: env.signatureToBitString(s).Success? ==>
          env.signatureFromBitString(env.signatureToBitString(s).value.rawBytes) == s)
  }

  /** A public key is recovered from its public-key info. */
  ghost predicate PublicKeyLaws(env: Collaborators)
  {
    forall p :: env.publicKeyFromInfo(env.publicKeyInfo(p)) == Success(p)
  }

  /** Capabilities are recovered from the attributes they were encoded as. */
  ghost predicate CapabilitiesLaws(env: Collaborators)
  {
    forall c :: env.capabilitiesToAttributes(c).Success? ==>
      env.capabilitiesFromAttributes(env.capabilitiesToAttributes(c).value) == Success(c)
  }

  /** A TBS is recovered from the `TbsCertificate` it was converted to. */
  ghost predicate TbsLaws(env: Collaborators)
  {
    forall t :: env.tbsToTbsCertificate(t).Success? ==>
      env.tbsFromTbsCertificate(env.tbsToTbsCertificate(t).value) == Success(t)
  }

  /** All the round-trip laws the wire conversions rely on. */
  ghost predicate CodecLaws(env: Collaborators)
  {
    && SignatureLaws(env)
    && PublicKeyLaws(env)
    && CapabilitiesLaws(env)
    && TbsLaws(env)
    && Lossless(env.der)
  }
}
