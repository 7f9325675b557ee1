/**
 * The polyproto ID-CSR of src/certs/idcsr.rs: a PKCS#10 certification request
 * (RFC 2986) whose construction validates its subject and capabilities, whose
 * role checks are keyed on the CA flag, and which converts to and from the
 * generic `CertReqInfo` / `CertReq` structures and their DER encoding.
 */
module Idcsr {
  import opened Wrappers
  import opened Bytes
  import opened X509
  import opened Certs

  /** The constraints `IdCsrInner::new` checks: a valid subject and valid capabilities. */
  ghost predicate InnerWellFormed(env: Collaborators, inner: IdCsrInner)
  {
    env.validateName(inner.subject).Pass? && env.validateCapabilities(inner.capabilities).Pass?
  }

  /**
   * `IdCsrInner::new`: checks the subject, then the capabilities, and only
   * then builds a version-1 request body from the inputs.
   */
  function InnerNew(env: Collaborators, subject: Name, publicKey: PublicKey, capabilities: Capabilities): (r: Result<IdCsrInner, ConversionError>)
    ensures r.Success? <==> env.validateName(subject).Pass? && env.validateCapabilities(capabilities).Pass?
    ensures env.validateName(subject).Fail? ==> r == Failure(ConstraintFailure(env.validateName(subject).error))
    ensures env.validateName(subject).Pass? && env.validateCapabilities(capabilities).Fail? ==>
      r == Failure(ConstraintFailure(env.validateCapabilities(capabilities).error))
    ensures r.Success? ==>
      && r.value.version == V1 && r.value.subject == subject
      && r.value.subjectPublicKey == publicKey && r.value.capabilities == capabilities
      && InnerWellFormed(env, r.value)
  {
    match env.validateName(subject)
    case Fail(e) => Failure(ConstraintFailure(e))
    case Pass =>
      match env.validateCapabilities(capabilities)
      case Fail(e) => Failure(ConstraintFailure(e))
      case Pass => Success(IdCsrInner(V1, subject, publicKey, capabilities))
  }

  /**
   * `TryFrom<IdCsrInner> for CertReqInfo`: version 1, the subject as is, the
   * key's public-key info, and the capabilities as attributes; fails only when
   * the capabilities cannot be turned into attributes.
   */
  function ToCertReqInfo(env: Collaborators, inner: IdCsrInner): (r: Result<CertReqInfo, ConversionError>)
    ensures r.Success? <==> env.capabilitiesToAttributes(inner.capabilities).Success?
    ensures r.Failure? ==> r.error == env.capabilitiesToAttributes(inner.capabilities).error
    ensures r.Success? ==>
      && r.value.version == CertReqV1 && r.value.subject == inner.subject
      && r.value.publicKey == env.publicKeyInfo(inner.subjectPublicKey)
      && r.value.attributes == env.capabilitiesToAttributes(inner.capabilities).value
  {
    match env.capabilitiesToAttributes(inner.capabilities)
    case Failure(e) => Failure(e)
    case Success(attributes) => Success(CertReqInfo(CertReqV1, inner.subject, env.publicKeyInfo(inner.subjectPublicKey), attributes))
  }

  /**
   * `TryFrom<CertReqInfo> for IdCsrInner`: checks the subject, then rebuilds
   * the public key, then the capabilities, reporting the first failure; the
   * result is always version 1.
   */
  function FromCertReqInfo(env: Collaborators, info: CertReqInfo): (r: Result<IdCsrInner, ConversionError>)
    ensures r.Success? <==>
      && env.validateName(info.subject).Pass?
      && env.publicKeyFromInfo(info.publicKey).Success?
      && env.capabilitiesFromAttributes(info.attributes).Success?
    ensures env.validateName(info.subject).Fail? ==> r == Failure(ConstraintFailure(env.validateName(info.subject).error))
    ensures env.validateName(info.subject).Pass? && env.publicKeyFromInfo(info.publicKey).Failure? ==>
      r == Failure(env.publicKeyFromInfo(info.publicKey).error)
    ensures r.Success? ==>
      && r.value.version == V1 && r.value.subject == info.subject
      && r.value.subjectPublicKey == env.publicKeyFromInfo(info.publicKey).value
      && r.value.capabilities == env.capabilitiesFromAttributes(info.attributes).value
  {
    match env.validateName(info.subject)
    case Fail(e) => Failure(ConstraintFailure(e))
    case Pass =>
      match env.publicKeyFromInfo(info.publicKey)
      case Failure(e) => Failure(e)
      case Success(publicKey) =>
        match env.capabilitiesFromAttributes(info.attributes)
        case Failure(e) => Failure(e)
        case Success(capabilities) => Success(IdCsrInner(V1, info.subject, publicKey, capabilities))
  }

  /** A request body with a valid subject survives conversion to `CertReqInfo` and back. */
  lemma InnerRoundTrip(env: Collaborators, inner: IdCsrInner)
    requires PublicKeyLaws(env) && CapabilitiesLaws(env)
    requires env.validateName(inner.subject).Pass?
    requires ToCertReqInfo(env, inner).Success?
    ensures FromCertReqInfo(env, ToCertReqInfo(env, inner).value) == Success(inner)
  {
    var info := ToCertReqInfo(env, inner).value;
    assert env.publicKeyFromInfo(env.publicKeyInfo(inner.subjectPublicKey)) == Success(inner.subjectPublicKey);
    var attributes := env.capabilitiesToAttributes(inner.capabilities).value;
    assert env.capabilitiesFromAttributes(attributes) == Success(inner.capabilities);
    assert info.publicKey == env.publicKeyInfo(inner.subjectPublicKey) && info.attributes == attributes;
    assert inner.version == V1 by { match inner.version { case V1 => } }
  }

  /** `IdCsrInner::to_der`: the DER encoding of the request body's `CertReqInfo`. */
  function InnerToDer(env: Collaborators, inner: IdCsrInner): (r: Result<seq<byte>, ConversionError>)
    ensures r.Success? <==>
      ToCertReqInfo(env, inner).Success? && env.der.encodeCertReqInfo(ToCertReqInfo(env, inner).value).Success?
    ensures r.Success? ==> r.value == env.der.encodeCertReqInfo(ToCertReqInfo(env, inner).value).value
  {
    match ToCertReqInfo(env, inner)
    case Failure(e) => Failure(e)
    case Success(info) =>
      match env.der.encodeCertReqInfo(info)
      case Failure(e) => Failure(DerFailure(e))
      case Success(bytes) => Success(bytes)
  }

  /** `IdCsrInner::from_der`: decodes a `CertReqInfo` and converts it. */
  function InnerFromDer(env: Collaborators, bytes: seq<byte>): (r: Result<IdCsrInner, ConversionError>)
    ensures env.der.decodeCertReqInfo(bytes).Failure? ==> r == Failure(DerFailure(env.der.decodeCertReqInfo(bytes).error))
    ensures r.Success? <==>
      env.der.decodeCertReqInfo(bytes).Success? && FromCertReqInfo(env, env.der.decodeCertReqInfo(bytes).value).Success?
    ensures r.Success? ==>
      && r.value == FromCertReqInfo(env, env.der.decodeCertReqInfo(bytes).value).value
      && env.validateName(r.value.subject).Pass? && r.value.version == V1
  {
    match env.der.decodeCertReqInfo(bytes)
    case Failure(e) => Failure(DerFailure(e))
    case Success(info) => FromCertReqInfo(env, info)
  }

  /** A request body with a valid subject is recovered from its DER encoding. */
  lemma InnerDerRoundTrip(env: Collaborators, inner: IdCsrInner)
    requires CodecLaws(env)
    requires env.validateName(inner.subject).Pass?
    requires InnerToDer(env, inner).Success?
    ensures InnerFromDer(env, InnerToDer(env, inner).value) == Success(inner)
  {
    var info := ToCertReqInfo(env, inner).value;
    assert env.der.decodeCertReqInfo(env.der.encodeCertReqInfo(info).value) == Success(info);
    InnerRoundTrip(env, inner);
  }

  /**
   * `IdCsr::new`: validates the subject before anything else, builds the
   * request body from the signing key's public key, signs the body's DER
   * encoding with the signing key, and records the signature algorithm.
   */
  function New(env: Collaborators, subject: Name, signingKey: PrivateKey, capabilities: Capabilities): (r: Result<IdCsr, ConversionError>)
    ensures env.validateName(subject).Fail? ==> r == Failure(ConstraintFailure(env.validateName(subject).error))
    ensures r.Success? <==>
      && env.validateName(subject).Pass?
      && env.validateCapabilities(capabilities).Pass?
      && InnerToDer(env, IdCsrInner(V1, subject, signingKey.pubkey, capabilities)).Success?
    ensures r.Success? ==>
      && r.value.innerCsr == IdCsrInner(V1, subject, signingKey.pubkey, capabilities)
      && InnerWellFormed(env, r.value.innerCsr)
      && r.value.signature == signingKey.sign(InnerToDer(env, r.value.innerCsr).value)
      && r.value.signatureAlgorithm == env.signatureAlgorithm
  {
    match env.validateName(subject)
    case Fail(e) => Failure(ConstraintFailure(e))
    case Pass =>
      match InnerNew(env, subject, signingKey.pubkey, capabilities)
      case Failure(e) => Failure(e)
      case Success(innerCsr) =>
        match InnerToDer(env, innerCsr)
        case Failure(e) => Failure(e)
        case Success(bytes) => Success(IdCsr(innerCsr, env.signatureAlgorithm, signingKey.sign(bytes)))
  }

  const ACTOR_IS_CA := "Actor CSR must not be a CA"
  const HOME_SERVER_NOT_CA := "Home server CSR must have the CA capability set to true"

  /** `IdCsr::validate_actor`: a valid request that does not ask to be a CA. */
  function ValidateActor(env: Collaborators, csr: IdCsr): (r: Outcome<ConversionError>)
    ensures r.Pass? <==> env.validateCsr(csr).Pass? && !csr.innerCsr.capabilities.basicConstraints.ca
    ensures env.validateCsr(csr).Fail? ==> r == Fail(ConstraintFailure(env.validateCsr(csr).error))
    ensures env.validateCsr(csr).Pass? && csr.innerCsr.capabilities.basicConstraints.ca ==>
      r == Fail(ConstraintFailure(Malformed(Some(ACTOR_IS_CA))))
  {
    match env.validateCsr(csr)
    case Fail(e) => Fail(ConstraintFailure(e))
    case Pass =>
      if csr.innerCsr.capabilities.basicConstraints.ca then Fail(ConstraintFailure(Malformed(Some(ACTOR_IS_CA))))
      else Pass
  }

  /** `IdCsr::validate_home_server`: a valid request that asks to be a CA. */
  function ValidateHomeServer(env: Collaborators, csr: IdCsr): (r: Outcome<ConversionError>)
    ensures r.Pass? <==> env.validateCsr(csr).Pass? && csr.innerCsr.capabilities.basicConstraints.ca
    ensures env.validateCsr(csr).Fail? ==> r == Fail(ConstraintFailure(env.validateCsr(csr).error))
    ensures env.validateCsr(csr).Pass? && !csr.innerCsr.capabilities.basicConstraints.ca ==>
      r == Fail(ConstraintFailure(Malformed(Some(HOME_SERVER_NOT_CA))))
  {
    match env.validateCsr(csr)
    case Fail(e) => Fail(ConstraintFailure(e))
    case Pass =>
      if !csr.innerCsr.capabilities.basicConstraints.ca then Fail(ConstraintFailure(Malformed(Some(HOME_SERVER_NOT_CA))))
      else Pass
  }

  /** A valid request passes exactly one of the two role checks; an invalid one passes neither. */
  lemma ExactlyOneRole(env: Collaborators, csr: IdCsr)
    ensures env.validateCsr(csr).Pass? ==> (ValidateActor(env, csr).Pass? <==> !ValidateHomeServer(env, csr).Pass?)
    ensures env.validateCsr(csr).Fail? ==> ValidateActor(env, csr).Fail? && ValidateHomeServer(env, csr).Fail?
  {
  }

  /**
   * `TryFrom<IdCsr> for CertReq`: converts the body, keeps the signature
   * algorithm, and encodes the signature as a bit string; the body is
   * converted first.
   */
  function ToCertReq(env: Collaborators, csr: IdCsr): (r: Result<CertReq, ConversionError>)
    ensures r.Success? <==> ToCertReqInfo(env, csr.innerCsr).Success? && env.signatureToBitString(csr.signature).Success?
    ensures ToCertReqInfo(env, csr.innerCsr).Failure? ==> r == Failure(ToCertReqInfo(env, csr.innerCsr).error)
    ensures r.Success? ==>
      && r.value.info == ToCertReqInfo(env, csr.innerCsr).value
      && r.value.algorithm == csr.signatureAlgorithm
      && r.value.signature == env.signatureToBitString(csr.signature).value
  {
    match ToCertReqInfo(env, csr.innerCsr)
    case Failure(e) => Failure(e)
    case Success(info) =>
      match env.signatureToBitString(csr.signature)
      case Failure(e) => Failure(DerFailure(e))
      case Success(bits) => Success(CertReq(info, csr.signatureAlgorithm, bits))
  }

  /**
   * `TryFrom<CertReq> for IdCsr`: converts the body, keeps the algorithm, and
   * rebuilds the signature from the raw bytes; it fails only when the body does.
   */
  function FromCertReq(env: Collaborators, req: CertReq): (r: Result<IdCsr, ConversionError>)
    ensures r.Success? <==> FromCertReqInfo(env, req.info).Success?
    ensures r.Failure? ==> r.error == FromCertReqInfo(env, req.info).error
    ensures r.Success? ==>
      && r.value.innerCsr == FromCertReqInfo(env, req.info).value
      && r.value.signatureAlgorithm == req.algorithm
      && r.value.signature == env.signatureFromBytes(req.signature.rawBytes)
  {
    match FromCertReqInfo(env, req.info)
    case Failure(e) => Failure(e)
    case Success(innerCsr) => Success(IdCsr(innerCsr, req.algorithm, env.signatureFromBytes(req.signature.rawBytes)))
  }

  /** A request with a valid subject survives conversion to `CertReq` and back. */
  lemma CertReqRoundTrip(env: Collaborators, csr: IdCsr)
    requires PublicKeyLaws(env) && CapabilitiesLaws(env) && SignatureLaws(env)
    requires env.validateName(csr.innerCsr.subject).Pass?
    requires ToCertReq(env, csr).Success?
    ensures FromCertReq(env, ToCertReq(env, csr).value) == Success(csr)
  {
    InnerRoundTrip(env, csr.innerCsr);
    assert env.signatureToBitString(csr.signature).Success?;
  }

  /** `IdCsr::to_der`: the DER encoding of the request's `CertReq`. */
  function ToDer(env: Collaborators, csr: IdCsr): (r: Result<seq<byte>, ConversionError>)
    ensures r.Success? <==> ToCertReq(env, csr).Success? && env.der.encodeCertReq(ToCertReq(env, csr).value).Success?
    ensures r.Success? ==> r.value == env.der.encodeCertReq(ToCertReq(env, csr).value).value
  {
    match ToCertReq(env, csr)
    case Failure(e) => Failure(e)
    case Success(req) =>
      match env.der.encodeCertReq(req)
      case Failure(e) => Failure(DerFailure(e))
      case Success(bytes) => Success(bytes)
  }

  /** `IdCsr::from_der`: decodes a `CertReq` and converts it; no signature is verified. */
  function FromDer(env: Collaborators, bytes: seq<byte>): (r: Result<IdCsr, ConversionError>)
    ensures env.der.decodeCertReq(bytes).Failure? ==> r == Failure(DerFailure(env.der.decodeCertReq(bytes).error))
    ensures r.Success? <==>
      env.der.decodeCertReq(bytes).Success? && FromCertReq(env, env.der.decodeCertReq(bytes).value).Success?
    ensures r.Success? ==>
      && r.value == FromCertReq(env, env.der.decodeCertReq(bytes).value).value
      && env.validateName(r.value.innerCsr.subject).Pass?
  {
    match env.der.decodeCertReq(bytes)
    case Failure(e) => Failure(DerFailure(e))
    case Success(req) => FromCertReq(env, req)
  }

  /** A request with a valid subject is recovered from its DER encoding. */
  lemma DerRoundTrip(env: Collaborators, csr: IdCsr)
    requires CodecLaws(env)
    requires env.validateName(csr.innerCsr.subject).Pass?
    requires ToDer(env, csr).Success?
    ensures FromDer(env, ToDer(env, csr).value) == Success(csr)
  {
    var req := ToCertReq(env, csr).value;
    assert env.der.decodeCertReq(env.der.encodeCertReq(req).value) == Success(req);
    CertReqRoundTrip(env, csr);
  }

  /** Every request `IdCsr::new` builds, once DER-encoded, decodes to itself. */
  lemma NewRequestDecodes(env: Collaborators, subject: Name, signingKey: PrivateKey, capabilities: Capabilities)
    requires CodecLaws(env)
    requires New(env, subject, signingKey, capabilities).Success?
    requires ToDer(env, New(env, subject, signingKey, capabilities).value).Success?
    ensures FromDer(env, ToDer(env, New(env, subject, signingKey, capabilities).value).value)
      == New(env, subject, signingKey, capabilities)
  {
    DerRoundTrip(env, New(env, subject, signingKey, capabilities).value);
  }
}
