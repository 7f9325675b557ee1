/**
 * The polyproto ID-Cert of src/certs/idcert.rs: an X.509 certificate
 * (section 4.1 of RFC 5280) issued from an ID-CSR by a home server, and its
 * conversion to and from the generic `Certificate` and its DER encoding.
 */
module Idcert {
  import opened Wrappers
  import opened Bytes
  import opened X509
  import opened Certs

  const DOMAIN_MISMATCH := "Domain components of the issuer and the subject do not match"

  /** The error both constructors return when issuer and subject are in different domains. */
  const DomainMismatch := CertConstraintFailure(Malformed(Some(DOMAIN_MISMATCH)))

  /**
   * The steps `IdCert::from_ca_csr` and `IdCert::from_actor_csr` share, with
   * the TBS constructor as a parameter: validate the issuer, compare the
   * domain components of subject and issuer, build the TBS with the signing
   * key's algorithm, sign its DER encoding, and validate the assembled
   * certificate before returning it. The first two failures do not depend on
   * the signing key or on the TBS constructor: they happen before either is used.
   */
  function Issue(env: Collaborators, makeTbs: TbsConstructor, idCsr: IdCsr, signingKey: PrivateKey,
                 serialNumber: Uint, issuer: Name, validity: Validity): (r: Result<IdCert, IdCertError>)
    ensures env.validateName(issuer).Fail? ==> r == Failure(CertConstraintFailure(env.validateName(issuer).error))
    ensures env.validateName(issuer).Pass? && !env.equalDomainComponents(idCsr.innerCsr.subject, issuer) ==>
      r == Failure(DomainMismatch)
    ensures r.Success? <==>
      && env.validateName(issuer).Pass?
      && env.equalDomainComponents(idCsr.innerCsr.subject, issuer)
      && makeTbs(idCsr, serialNumber, signingKey.algorithmIdentifier, issuer, validity).Success?
      && env.tbsToDer(makeTbs(idCsr, serialNumber, signingKey.algorithmIdentifier, issuer, validity).value).Success?
      && env.validateCert(IdCert(
           makeTbs(idCsr, serialNumber, signingKey.algorithmIdentifier, issuer, validity).value,
           signingKey.sign(env.tbsToDer(makeTbs(idCsr, serialNumber, signingKey.algorithmIdentifier, issuer, validity).value).value))).Pass?
    ensures r.Success? ==>
      && r.value.idCertTbs == makeTbs(idCsr, serialNumber, signingKey.algorithmIdentifier, issuer, validity).value
      && r.value.signature == signingKey.sign(env.tbsToDer(r.value.idCertTbs).value)
      && env.validateCert(r.value).Pass?
  {
    var signatureAlgorithm := signingKey.algorithmIdentifier;
    match env.validateName(issuer)
    case Fail(e) => Failure(CertConstraintFailure(e))
    case Pass =>
      if !env.equalDomainComponents(idCsr.innerCsr.subject, issuer) then Failure(DomainMismatch)
      else
        match makeTbs(idCsr, serialNumber, signatureAlgorithm, issuer, validity)
        case Failure(e) => Failure(e)
        case Success(idCertTbs) =>
          match env.tbsToDer(idCertTbs)
          case Failure(e) => Failure(e)
          case Success(bytes) =>
            var cert := IdCert(idCertTbs, signingKey.sign(bytes));
            match env.validateCert(cert)
            case Fail(e) => Failure(CertConstraintFailure(e))
            case Pass => Success(cert)
  }

  /** `IdCert::from_ca_csr`: issuance with `IdCertTbs::from_ca_csr`. */
  function FromCaCsr(env: Collaborators, idCsr: IdCsr, signingKey: PrivateKey,
                     serialNumber: Uint, issuer: Name, validity: Validity): (r: Result<IdCert, IdCertError>)
    ensures env.validateName(issuer).Fail? ==> r == Failure(CertConstraintFailure(env.validateName(issuer).error))
    ensures env.validateName(issuer).Pass? && !env.equalDomainComponents(idCsr.innerCsr.subject, issuer) ==>
      r == Failure(DomainMismatch)
    ensures r.Success? ==>
      && env.validateName(issuer).Pass?
      && env.equalDomainComponents(idCsr.innerCsr.subject, issuer)
      && env.tbsFromCaCsr(idCsr, serialNumber, signingKey.algorithmIdentifier, issuer, validity).Success?
      && r.value.idCertTbs == env.tbsFromCaCsr(idCsr, serialNumber, signingKey.algorithmIdentifier, issuer, validity).value
      && env.tbsToDer(r.value.idCertTbs).Success?
      && r.value.signature == signingKey.sign(env.tbsToDer(r.value.idCertTbs).value)
      && env.validateCert(r.value).Pass?
  {
    Issue(env, env.tbsFromCaCsr, idCsr, signingKey, serialNumber, issuer, validity)
  }

  /** `IdCert::from_actor_csr`: issuance with `IdCertTbs::from_actor_csr`. */
  function FromActorCsr(env: Collaborators, idCsr: IdCsr, signingKey: PrivateKey,
                        serialNumber: Uint, issuer: Name, validity: Validity): (r: Result<IdCert, IdCertError>)
    ensures env.validateName(issuer).Fail? ==> r == Failure(CertConstraintFailure(env.validateName(issuer).error))
    ensures env.validateName(issuer).Pass? && !env.equalDomainComponents(idCsr.innerCsr.subject, issuer) ==>
      r == Failure(DomainMismatch)
    ensures r.Success? ==>
      && env.validateName(issuer).Pass?
      && env.equalDomainComponents(idCsr.innerCsr.subject, issuer)
      && env.tbsFromActorCsr(idCsr, serialNumber, signingKey.algorithmIdentifier, issuer, validity).Success?
      && r.value.idCertTbs == env.tbsFromActorCsr(idCsr, serialNumber, signingKey.algorithmIdentifier, issuer, validity).value
      && env.tbsToDer(r.value.idCertTbs).Success?
      && r.value.signature == signingKey.sign(env.tbsToDer(r.value.idCertTbs).value)
      && env.validateCert(r.value).Pass?
  {
    Issue(env, env.tbsFromActorCsr, idCsr, signingKey, serialNumber, issuer, validity)
  }

  /** The two constructors differ only in the TBS constructor they call. */
  lemma CaAndActorDifferOnlyInTbs(env: Collaborators, idCsr: IdCsr, signingKey: PrivateKey,
                                  serialNumber: Uint, issuer: Name, validity: Validity)
    requires env.tbsFromCaCsr(idCsr, serialNumber, signingKey.algorithmIdentifier, issuer, validity)
          == env.tbsFromActorCsr(idCsr, serialNumber, signingKey.algorithmIdentifier, issuer, validity)
    ensures FromCaCsr(env, idCsr, signingKey, serialNumber, issuer, validity)
         == FromActorCsr(env, idCsr, signingKey, serialNumber, issuer, validity)
  {
  }

  /**
   * `TryFrom<IdCert> for Certificate`: converts the TBS, takes the outer
   * signature algorithm from the TBS, and encodes the signature as a bit string.
   */
  function ToCertificate(env: Collaborators, cert: IdCert): (r: Result<Certificate, IdCertError>)
    ensures r.Success? <==> env.tbsToTbsCertificate(cert.idCertTbs).Success? && env.signatureToBitString(cert.signature).Success?
    ensures env.tbsToTbsCertificate(cert.idCertTbs).Failure? ==> r == Failure(env.tbsToTbsCertificate(cert.idCertTbs).error)
    ensures r.Success? ==>
      && r.value.tbsCertificate == env.tbsToTbsCertificate(cert.idCertTbs).value
      && r.value.signatureAlgorithm == cert.idCertTbs.signatureAlgorithm
      && r.value.signature == env.signatureToBitString(cert.signature).value
  {
    match env.tbsToTbsCertificate(cert.idCertTbs)
    case Failure(e) => Failure(e)
    case Success(tbsCertificate) =>
      match env.signatureToBitString(cert.signature)
      case Failure(e) => Failure(CertDerFailure(e))
      case Success(bits) => Success(Certificate(tbsCertificate, cert.idCertTbs.signatureAlgorithm, bits))
  }

  /**
   * `TryFrom<Certificate> for IdCert`: converts the TBS and rebuilds the
   * signature from the raw bytes of the bit string. The outer signature
   * algorithm is not read.
   */
  function FromCertificate(env: Collaborators, certificate: Certificate): (r: Result<IdCert, IdCertError>)
    ensures r.Success? <==> env.tbsFromTbsCertificate(certificate.tbsCertificate).Success?
    ensures r.Failure? ==> r.error == env.tbsFromTbsCertificate(certificate.tbsCertificate).error
    ensures r.Success? ==>
      && r.value.idCertTbs == env.tbsFromTbsCertificate(certificate.tbsCertificate).value
      && r.value.signature == env.signatureFromBitString(certificate.signature.rawBytes)
  {
    match env.tbsFromTbsCertificate(certificate.tbsCertificate)
    case Failure(e) => Failure(e)
    case Success(idCertTbs) => Success(IdCert(idCertTbs, env.signatureFromBitString(certificate.signature.rawBytes)))
  }

  /** A certificate survives conversion to `Certificate` and back. */
  lemma CertificateRoundTrip(env: Collaborators, cert: IdCert)
    requires SignatureLaws(env) && TbsLaws(env)
    requires ToCertificate(env, cert).Success?
    ensures FromCertificate(env, ToCertificate(env, cert).value) == Success(cert)
  {
    var certificate := ToCertificate(env, cert).value;
    assert env.tbsFromTbsCertificate(certificate.tbsCertificate) == Success(cert.idCertTbs);
    assert env.signatureFromBitString(certificate.signature.rawBytes) == cert.signature;
  }

  /** Decoding reads nothing from the outer signature algorithm: changing it changes nothing. */
  lemma FromCertificateIgnoresOuterAlgorithm(env: Collaborators, certificate: Certificate, algorithm: AlgorithmIdentifier)
    ensures FromCertificate(env, certificate.(signatureAlgorithm := algorithm)) == FromCertificate(env, certificate)
  {
  }

  /**
   * Two `Certificate`s that differ only in the outer signature algorithm decode
   * to one ID-Cert, so converting it back gives at most one of them.
   */
  lemma ReencodingRestoresOneAlgorithm(env: Collaborators, certificate: Certificate, algorithm: AlgorithmIdentifier)
    ensures (algorithm != certificate.signatureAlgorithm && FromCertificate(env, certificate).Success?) ==>
      !(ToCertificate(env, FromCertificate(env, certificate).value) == Success(certificate)
        && ToCertificate(env, FromCertificate(env, certificate.(signatureAlgorithm := algorithm)).value)
           == Success(certificate.(signatureAlgorithm := algorithm)))
  {
    FromCertificateIgnoresOuterAlgorithm(env, certificate, algorithm);
  }

  /** `IdCert::to_der`: the DER encoding of the certificate's `Certificate`. */
  function ToDer(env: Collaborators, cert: IdCert): (r: Result<seq<byte>, IdCertError>)
    ensures r.Success? <==> ToCertificate(env, cert).Success? && env.der.encodeCertificate(ToCertificate(env, cert).value).Success?
    ensures r.Success? ==> r.value == env.der.encodeCertificate(ToCertificate(env, cert).value).value
  {
    match ToCertificate(env, cert)
    case Failure(e) => Failure(e)
    case Success(certificate) =>
      match env.der.encodeCertificate(certificate)
      case Failure(e) => Failure(CertDerFailure(e))
      case Success(bytes) => Success(bytes)
  }

  /** `IdCert::from_der`: decodes and converts, then returns the certificate only if it validates. */
  function FromDer(env: Collaborators, bytes: seq<byte>): (r: Result<IdCert, IdCertError>)
    ensures r.Success? <==>
      && env.der.decodeCertificate(bytes).Success?
      && FromCertificate(env, env.der.decodeCertificate(bytes).value).Success?
      && env.validateCert(FromCertificate(env, env.der.decodeCertificate(bytes).value).value).Pass?
    ensures r.Success? ==> r.value == FromCertificate(env, env.der.decodeCertificate(bytes).value).value
    ensures r.Success? ==> env.validateCert(r.value).Pass?
  {
    match env.der.decodeCertificate(bytes)
    case Failure(e) => Failure(CertDerFailure(e))
    case Success(certificate) =>
      match FromCertificate(env, certificate)
      case Failure(e) => Failure(e)
      case Success(cert) =>
        match env.validateCert(cert)
        case Fail(e) => Failure(CertConstraintFailure(e))
        case Pass => Success(cert)
  }

  /** A valid certificate is recovered from its DER encoding. */
  lemma DerRoundTrip(env: Collaborators, cert: IdCert)
    requires CodecLaws(env)
    requires env.validateCert(cert).Pass?
    requires ToDer(env, cert).Success?
    ensures FromDer(env, ToDer(env, cert).value) == Success(cert)
  {
    var certificate := ToCertificate(env, cert).value;
    assert env.der.decodeCertificate(env.der.encodeCertificate(certificate).value) == Success(certificate);
    CertificateRoundTrip(env, cert);
  }

  /** Every certificate `from_actor_csr` issues, once DER-encoded, decodes to itself. */
  lemma IssuedActorCertificateDecodes(env: Collaborators, idCsr: IdCsr, signingKey: PrivateKey,
                                      serialNumber: Uint, issuer: Name, validity: Validity)
    requires CodecLaws(env)
    requires FromActorCsr(env, idCsr, signingKey, serialNumber, issuer, validity).Success?
    requires ToDer(env, FromActorCsr(env, idCsr, signingKey, serialNumber, issuer, validity).value).Success?
    ensures FromDer(env, ToDer(env, FromActorCsr(env, idCsr, signingKey, serialNumber, issuer, validity).value).value)
         == FromActorCsr(env, idCsr, signingKey, serialNumber, issuer, validity)
  {
    DerRoundTrip(env, FromActorCsr(env, idCsr, signingKey, serialNumber, issuer, validity).value);
  }

  /** Every certificate `from_ca_csr` issues, once DER-encoded, decodes to itself. */
  lemma IssuedCaCertificateDecodes(env: Collaborators, idCsr: IdCsr, signingKey: PrivateKey,
                                   serialNumber: Uint, issuer: Name, validity: Validity)
    requires CodecLaws(env)
    requires FromCaCsr(env, idCsr, signingKey, serialNumber, issuer, validity).Success?
    requires ToDer(env, FromCaCsr(env, idCsr, signingKey, serialNumber, issuer, validity).value).Success?
    ensures FromDer(env, ToDer(env, FromCaCsr(env, idCsr, signingKey, serialNumber, issuer, validity).value).value)
         == FromCaCsr(env, idCsr, signingKey, serialNumber, issuer, validity)
  {
    DerRoundTrip(env, FromCaCsr(env, idCsr, signingKey, serialNumber, issuer, validity).value);
  }
}
