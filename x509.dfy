/**
 * The generic certificate structures the polyproto types are converted to and
 * from: PKCS#10 `CertificationRequestInfo` / `CertificationRequest`
 * (sections 4.1 and 4.2 of RFC 2986) and the X.509 `Certificate` (section 4.1
 * of RFC 5280), as plain values. Their DER encoding is done by an external
 * codec, represented here by `DerCodec` and the laws it is assumed to obey.
 */
module X509 {
  import opened Wrappers
  import opened Bytes

  /** An object identifier, as its arcs. */
  type ObjectIdentifier = seq<nat>

  /** `AlgorithmIdentifier`: an OID and optional DER-encoded parameters; compared only for equality. */
  datatype AlgorithmIdentifier = AlgorithmIdentifier(oid: ObjectIdentifier, parameters: Option<seq<byte>>)

  /** A DER BIT STRING, by its raw bytes. */
  datatype BitString = BitString(rawBytes: seq<byte>)

  /** `SubjectPublicKeyInfo`: the key's algorithm and its bits. */
  datatype PublicKeyInfo = PublicKeyInfo(algorithm: AlgorithmIdentifier, publicKeyBitString: BitString)

  /** One attribute of a relative distinguished name (common name, domain component, ...). */
  datatype AttributeTypeAndValue = AttributeTypeAndValue(attributeType: ObjectIdentifier, value: string)

  /** An X.501 `Name`: a sequence of relative distinguished names. */
  datatype Name = Name(rdnSequence: seq<seq<AttributeTypeAndValue>>)

  /** A PKCS#10 attribute: its type and DER-encoded values. */
  datatype Attribute = Attribute(attributeType: ObjectIdentifier, values: seq<seq<byte>>)

  datatype Attributes = Attributes(items: seq<Attribute>)

  /** The only `CertificationRequestInfo` version, `v1(0)`. */
  datatype CertReqVersion = CertReqV1

  /** `CertificationRequestInfo` (section 4.1 of RFC 2986). */
  datatype CertReqInfo = CertReqInfo(version: CertReqVersion, subject: Name, publicKey: PublicKeyInfo, attributes: Attributes)

  /** `CertificationRequest` (section 4.2 of RFC 2986). */
  datatype CertReq = CertReq(info: CertReqInfo, algorithm: AlgorithmIdentifier, signature: BitString)

  /** A non-negative DER INTEGER such as a serial number, by its big-endian bytes. */
  datatype Uint = Uint(bytes: seq<byte>)

  /** The validity window, as seconds since the UNIX epoch. */
  datatype Validity = Validity(notBefore: int, notAfter: int)

  /** `TBSCertificate` (section 4.1 of RFC 5280). */
  datatype TbsCertificate = TbsCertificate(
    serialNumber: Uint,
    signature: AlgorithmIdentifier,
    issuer: Name,
    validity: Validity,
    subject: Name,
    subjectPublicKeyInfo: PublicKeyInfo,
    subjectUniqueId: Option<BitString>,
    extensions: seq<Attribute>)

  /** `Certificate` (section 4.1 of RFC 5280). */
  datatype Certificate = Certificate(tbsCertificate: TbsCertificate, signatureAlgorithm: AlgorithmIdentifier, signature: BitString)

  /** A failure of the DER codec. */
  datatype DerError = DerError(reason: string)

  /** The external DER encoder and decoder of the three top-level structures. */
  datatype DerCodec = DerCodec(
    encodeCertReqInfo: CertReqInfo -> Result<seq<byte>, DerError>,
    decodeCertReqInfo: seq<byte> -> Result<CertReqInfo, DerError>,
    encodeCertReq: CertReq -> Result<seq<byte>, DerError>,
    decodeCertReq: seq<byte> -> Result<CertReq, DerError>,
    encodeCertificate: Certificate -> Result<seq<byte>, DerError>,
    decodeCertificate: seq<byte> -> Result<Certificate, DerError>)

  /** What the codec is trusted to do: decoding what it encoded gives the value back. */
  ghost predicate Lossless(der: DerCodec)
  {
    && (forall x :: der.encodeCertReqInfo(x).Success? ==> der.decodeCertReqInfo(der.encodeCertReqInfo(x).value) == Success(x))
    && (forall x :: der.encodeCertReq(x).Success? ==> der.decodeCertReq(der.encodeCertReq(x).value) == Success(x))
    && (forall x :: der.encodeCertificate(x).Success? ==> der.decodeCertificate(der.encodeCertificate(x).value) == Success(x))
  }
}
