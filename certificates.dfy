/**
 * The flat polyproto identity-certificate model of src/certificates.rs:
 * a certificate signing request (`IdCsr`), the to-be-signed certificate
 * (`IdCertTbs`) a certificate authority derives from it, the byte string
 * that gets signed, and the signing step that yields an `IdCert`.
 *
 * Rust `String`s are modelled as their UTF-8 bytes (`len()` and `as_bytes()`
 * both work on those bytes), and `usize` as a 64-bit word.
 */
module Certificates {
  import opened Wrappers
  import opened Bytes

  /** Byte width of `usize` on the 64-bit targets this model assumes. */
  const USIZE_WIDTH: nat := 8

  /** Byte width of `u64`. */
  const U64_WIDTH: nat := 8

  /** A Rust `String`, as its UTF-8 bytes; its length fits in a `usize`. */
  type RustString = s: seq<byte> | |s| < 0x1_0000_0000_0000_0000

  newtype u64 = x: int | 0 <= x < 0x1_0000_0000_0000_0000

  /** The signature algorithm a key or signature belongs to; compared only for equality. */
  datatype SignatureType = SignatureType(id: nat)

  /** A public key: the algorithm it belongs to and its raw bytes (`as_bytes()`). */
  datatype PublicKey = PublicKey(signatureType: SignatureType, bytes: seq<byte>)

  /** An actor's identity: actor name, domain and top-level domain. */
  datatype FederationId = FederationId(actorName: RustString, domain: RustString, tld: RustString)

  /** A certificate signing request; `expiry` is the requested UNIX expiry, if any. */
  datatype IdCsr = IdCsr(pubKey: PublicKey, federationId: FederationId, sessionId: RustString, expiry: Option<u64>)

  /** A to-be-signed certificate: the request's fields plus expiry and serial number. */
  datatype IdCertTbs = IdCertTbs(pubKey: PublicKey, federationId: FederationId, sessionId: RustString, expiry: u64, serial: RustString)

  /** A signature and the algorithm that produced it. */
  datatype Signature = Signature(signatureType: SignatureType, signature: RustString)

  /** A signed certificate. */
  datatype IdCert = IdCert(pubKey: PublicKey, federationId: FederationId, sessionId: RustString, expiry: u64, serial: RustString, signature: Signature)
  {
    /** The to-be-signed part of this certificate. */
    function Tbs(): IdCertTbs {
      IdCertTbs(pubKey, federationId, sessionId, expiry, serial)
    }
  }

  /**
   * A private key as `try_sign` sees it: its signature type (`HasSignatureType`)
   * and its signing operation (`Signer::sign`), which is not modelled further.
   */
  datatype SigningKey = SigningKey(signatureType: SignatureType, sign: seq<byte> -> Signature)

  datatype Error = SignatureTypeMismatch(privateKeyType: SignatureType, publicKeyType: SignatureType)

  /**
   * `IdCsr::to_id_cert_tbs`: the authority adds expiry and serial number; the
   * request's key and identity are carried over, and turning the TBS back into
   * a request gives the original one with the granted expiry.
   */
  function ToIdCertTbs(csr: IdCsr, expiry: u64, serial: RustString): (tbs: IdCertTbs)
    ensures tbs.pubKey == csr.pubKey && tbs.federationId == csr.federationId && tbs.sessionId == csr.sessionId
    ensures tbs.expiry == expiry && tbs.serial == serial
    ensures FromIdCertTbs(tbs) == csr.(expiry := Some(expiry))
  {
    IdCertTbs(csr.pubKey, csr.federationId, csr.sessionId, expiry, serial)
  }

  /** `From<IdCertTBS> for IdCsr`: forgets the serial number, keeps the expiry as requested. */
  function FromIdCertTbs(tbs: IdCertTbs): (csr: IdCsr)
    ensures csr.pubKey == tbs.pubKey && csr.federationId == tbs.federationId && csr.sessionId == tbs.sessionId
    ensures csr.expiry == Some(tbs.expiry)
  {
    IdCsr(tbs.pubKey, tbs.federationId, tbs.sessionId, Some(tbs.expiry))
  }

  /** A TBS is recovered from its request form and its own expiry and serial. */
  lemma ToIdCertTbsOfFromIdCertTbs(tbs: IdCertTbs)
    ensures ToIdCertTbs(FromIdCertTbs(tbs), tbs.expiry, tbs.serial) == tbs
  {
  }

  /** `len().to_be_bytes()` for a `usize` length. */
  function UsizeBytes(n: nat): (r: seq<byte>)
    requires n < 0x1_0000_0000_0000_0000
    ensures |r| == USIZE_WIDTH && BeValue(r) == n
  {
    assert Pow256(USIZE_WIDTH) == 0x1_0000_0000_0000_0000;
    BeBytes(n, USIZE_WIDTH)
  }

  /** `expiry.to_be_bytes()` for a `u64`. */
  function U64Bytes(n: u64): (r: seq<byte>)
    ensures |r| == U64_WIDTH && BeValue(r) == n as nat
  {
    assert Pow256(U64_WIDTH) == 0x1_0000_0000_0000_0000;
    BeBytes(n as nat, U64_WIDTH)
  }

  /** A string preceded by its length. */
  function Prefixed(s: RustString): seq<byte> {
    UsizeBytes(|s|) + s
  }

  /**
   * The byte string `IdCertTBS::to_bytes` produces and `try_sign` signs: the
   * public-key bytes, then actor name, domain, TLD and session ID each preceded
   * by its length, then the expiry as 8 big-endian bytes, then the
   * length-prefixed serial number.
   */
  function TbsBytes(tbs: IdCertTbs): (bytes: seq<byte>)
    ensures |bytes| == |tbs.pubKey.bytes| + 5 * USIZE_WIDTH
      + |tbs.federationId.actorName| + |tbs.federationId.domain| + |tbs.federationId.tld|
      + |tbs.sessionId| + U64_WIDTH + |tbs.serial|
    ensures bytes[..|tbs.pubKey.bytes|] == tbs.pubKey.bytes
  {
    tbs.pubKey.bytes
      + Prefixed(tbs.federationId.actorName)
      + Prefixed(tbs.federationId.domain)
      + Prefixed(tbs.federationId.tld)
      + Prefixed(tbs.sessionId)
      + U64Bytes(tbs.expiry)
      + Prefixed(tbs.serial)
  }

  /** Regrouping seven concatenated byte strings from the left to the right. */
  lemma Regroup(x1: seq<byte>, x2: seq<byte>, x3: seq<byte>, x4: seq<byte>, x5: seq<byte>, x6: seq<byte>, x7: seq<byte>)
    ensures x1 + x2 + x3 + x4 + x5 + x6 + x7 == x1 + (x2 + (x3 + (x4 + (x5 + (x6 + x7)))))
  {
  }

  /** The signed bytes as the key followed by the fields, each field followed by the rest. */
  lemma TbsBytesGrouped(tbs: IdCertTbs)
    ensures TbsBytes(tbs) == tbs.pubKey.bytes
      + (Prefixed(tbs.federationId.actorName)
      + (Prefixed(tbs.federationId.domain)
      + (Prefixed(tbs.federationId.tld)
      + (Prefixed(tbs.sessionId)
      + (U64Bytes(tbs.expiry)
      + Prefixed(tbs.serial))))))
  {
    var id := tbs.federationId;
    Regroup(tbs.pubKey.bytes, Prefixed(id.actorName), Prefixed(id.domain), Prefixed(id.tld),
            Prefixed(tbs.sessionId), U64Bytes(tbs.expiry), Prefixed(tbs.serial));
  }

  /** One `len().to_be_bytes()` / `as_bytes()` pair of appends. */
  method ExtendPrefixed(bytes: seq<byte>, s: RustString) returns (extended: seq<byte>)
    ensures extended == bytes + Prefixed(s)
  {
    extended := bytes + UsizeBytes(|s|);
    extended := extended + s;
  }

  /** `IdCertTBS::to_bytes`: appends each field to a growing buffer. */
  method ToBytes(tbs: IdCertTbs) returns (bytes: seq<byte>)
    ensures bytes == TbsBytes(tbs)
  {
    bytes := [];
    bytes := bytes + tbs.pubKey.bytes;
    bytes := ExtendPrefixed(bytes, tbs.federationId.actorName);
    bytes := ExtendPrefixed(bytes, tbs.federationId.domain);
    bytes := ExtendPrefixed(bytes, tbs.federationId.tld);
    bytes := ExtendPrefixed(bytes, tbs.sessionId);
    bytes := bytes + U64Bytes(tbs.expiry);
    bytes := ExtendPrefixed(bytes, tbs.serial);
  }

  /** What the signed bytes determine: everything in a TBS except the key's signature type. */
  datatype TbsContent = TbsContent(keyBytes: seq<byte>, federationId: FederationId, sessionId: RustString, expiry: u64, serial: RustString)

  function Content(tbs: IdCertTbs): TbsContent {
    TbsContent(tbs.pubKey.bytes, tbs.federationId, tbs.sessionId, tbs.expiry, tbs.serial)
  }

  /** Reads one length-prefixed string off the front of `s`, returning it and the rest. */
  function ReadPrefixed(s: seq<byte>): (r: Option<(RustString, seq<byte>)>)
    ensures r.Some? ==> s == Prefixed(r.value.0) + r.value.1
  {
    if |s| < USIZE_WIDTH then None
    else
      var n := BeValue(s[..USIZE_WIDTH]);
      if |s| - USIZE_WIDTH < n then None
      else
        BeBytesOfBeValue(s[..USIZE_WIDTH]);
        assert s == s[..USIZE_WIDTH] + s[USIZE_WIDTH..USIZE_WIDTH + n] + s[USIZE_WIDTH + n..];
        Some((s[USIZE_WIDTH..USIZE_WIDTH + n], s[USIZE_WIDTH + n..]))
  }

  /** A length-prefixed string is read back exactly, whatever follows it. */
  lemma ReadPrefixedOfPrefixed(x: RustString, rest: seq<byte>)
    ensures ReadPrefixed(Prefixed(x) + rest) == Some((x, rest))
  {
    var s := Prefixed(x) + rest;
    assert s[..USIZE_WIDTH] == UsizeBytes(|x|);
    assert s[USIZE_WIDTH..USIZE_WIDTH + |x|] == x;
    assert s[USIZE_WIDTH + |x|..] == rest;
  }

  /** Reads the expiry and the length-prefixed serial number that end the signed bytes. */
  function ParseTail(s: seq<byte>): (r: Option<(u64, RustString)>)
  {
    if |s| < U64_WIDTH then None
    else
      var expiry := BeValue(s[..U64_WIDTH]);
      match ReadPrefixed(s[U64_WIDTH..])
      case None => None
      case Some((serial, rest)) =>
        if rest != [] then None else Some((expiry as u64, serial))
  }

  lemma ParseTailOfTail(expiry: u64, serial: RustString)
    ensures ParseTail(U64Bytes(expiry) + Prefixed(serial)) == Some((expiry, serial))
  {
    var s := U64Bytes(expiry) + Prefixed(serial);
    assert s[..U64_WIDTH] == U64Bytes(expiry);
    assert s[U64_WIDTH..] == Prefixed(serial) + [];
    ReadPrefixedOfPrefixed(serial, []);
  }

  /**
   * Parses the output of `to_bytes`, given the length of the public key
   * (fixed for a given signature algorithm). Fails on truncated input and on
   * trailing bytes.
   */
  function ParseTbsBytes(keyLength: nat, bytes: seq<byte>): (r: Option<TbsContent>)
  {
    if |bytes| < keyLength then None
    else
      match ReadPrefixed(bytes[keyLength..])
      case None => None
      case Some((actorName, rest1)) =>
        match ReadPrefixed(rest1)
        case None => None
        case Some((domain, rest2)) =>
          match ReadPrefixed(rest2)
          case None => None
          case Some((tld, rest3)) =>
            match ReadPrefixed(rest3)
            case None => None
            case Some((sessionId, rest4)) =>
              match ParseTail(rest4)
              case None => None
              case Some((expiry, serial)) =>
                Some(TbsContent(bytes[..keyLength], FederationId(actorName, domain, tld), sessionId, expiry, serial))
  }

  /** Parsing the signed bytes of a TBS recovers its content. */
  lemma ParseTbsBytesOfTbsBytes(tbs: IdCertTbs)
    ensures ParseTbsBytes(|tbs.pubKey.bytes|, TbsBytes(tbs)) == Some(Content(tbs))
  {
    var id := tbs.federationId;
    var k := |tbs.pubKey.bytes|;
    var rest4 := U64Bytes(tbs.expiry) + Prefixed(tbs.serial);
    var rest3 := Prefixed(tbs.sessionId) + rest4;
    var rest2 := Prefixed(id.tld) + rest3;
    var rest1 := Prefixed(id.domain) + rest2;
    var bytes := TbsBytes(tbs);
    TbsBytesGrouped(tbs);
    assert bytes == tbs.pubKey.bytes + (Prefixed(id.actorName) + rest1);
    assert bytes[..k] == tbs.pubKey.bytes;
    assert bytes[k..] == Prefixed(id.actorName) + rest1;
    ReadPrefixedOfPrefixed(id.actorName, rest1);
    ReadPrefixedOfPrefixed(id.domain, rest2);
    ReadPrefixedOfPrefixed(id.tld, rest3);
    ReadPrefixedOfPrefixed(tbs.sessionId, rest4);
    ParseTailOfTail(tbs.expiry, tbs.serial);
  }

  /**
   * For public keys of one length, the signed bytes determine the key bytes,
   * the federation ID, the session ID, the expiry and the serial number.
   */
  lemma TbsBytesInjective(a: IdCertTbs, b: IdCertTbs)
    ensures |a.pubKey.bytes| == |b.pubKey.bytes| && TbsBytes(a) == TbsBytes(b) ==> Content(a) == Content(b)
  {
    ParseTbsBytesOfTbsBytes(a);
    ParseTbsBytesOfTbsBytes(b);
  }

  /**
   * The public key is not length-prefixed, so without a fixed key length the
   * signed bytes are ambiguous: a TBS with an empty key and one with an
   * 8-byte zero key yield the same bytes while their fields differ.
   */
  lemma TbsBytesAmbiguousAcrossKeyLengths()
    ensures exists a: IdCertTbs, b: IdCertTbs :: TbsBytes(a) == TbsBytes(b) && Content(a) != Content(b)
  {
    var zeros := UsizeBytes(0);
    var keyType := SignatureType(0);
    var a := IdCertTbs(PublicKey(keyType, []), FederationId([], [], []), [], 0, zeros);
    var b := IdCertTbs(PublicKey(keyType, zeros), FederationId([], [], []), [], 8, []);
    // a: len(actor) | len(domain) | len(tld) | len(session) | expiry 0 | len(serial) = 8 | serial = 0^8
    // b: key 0^8     | len(actor) | len(domain) | len(tld) | len(session) | expiry 8 | len(serial) = 0
    var eight := U64Bytes(8);
    assert UsizeBytes(8) == eight;
    assert U64Bytes(0) == zeros;
    assert Prefixed([]) == zeros;
    assert Prefixed(zeros) == eight + zeros;
    var tail := zeros + (zeros + (zeros + (zeros + (eight + zeros))));
    TbsBytesGrouped(a);
    TbsBytesGrouped(b);
    assert TbsBytes(a) == [] + (zeros + tail);
    assert TbsBytes(b) == zeros + tail;
    assert Content(a).keyBytes != Content(b).keyBytes;
  }

  /**
   * The key's signature type is not part of the signed bytes: two TBS values
   * that differ only in it yield the same bytes.
   */
  lemma TbsBytesOmitSignatureType()
    ensures exists a: IdCertTbs, b: IdCertTbs :: TbsBytes(a) == TbsBytes(b) && a != b
  {
    var id := FederationId([], [], []);
    var a := IdCertTbs(PublicKey(SignatureType(0), []), id, [], 0, []);
    var b := IdCertTbs(PublicKey(SignatureType(1), []), id, [], 0, []);
    assert TbsBytes(a) == TbsBytes(b);
    assert a != b;
  }

  /**
   * `IdCertTBS::try_sign`: refuses a private key of another signature type
   * than the TBS public key, before anything is signed; otherwise signs the
   * `to_bytes` output and keeps every TBS field.
   */
  function TrySign(tbs: IdCertTbs, privateKey: SigningKey): (r: Result<IdCert, Error>)
    ensures r.Failure? <==> privateKey.signatureType != tbs.pubKey.signatureType
    ensures r.Failure? ==> r.error == SignatureTypeMismatch(privateKey.signatureType, tbs.pubKey.signatureType)
    ensures r.Success? ==> r.value.Tbs() == tbs && r.value.signature == privateKey.sign(TbsBytes(tbs))
  {
    if privateKey.signatureType != tbs.pubKey.signatureType then
      Failure(SignatureTypeMismatch(privateKey.signatureType, tbs.pubKey.signatureType))
    else
      Success(IdCert(tbs.pubKey, tbs.federationId, tbs.sessionId, tbs.expiry, tbs.serial, privateKey.sign(TbsBytes(tbs))))
  }

  /**
   * Two TBS values with keys of one length whose signed bytes are equal, both
   * accepted by the same key, give the same certificate: both keys have the
   * signing key's type, and the bytes determine every other field.
   */
  lemma SignedCertificatesAgree(t1: IdCertTbs, t2: IdCertTbs, key: SigningKey)
    ensures (TrySign(t1, key).Success? && TrySign(t2, key).Success?
             && |t1.pubKey.bytes| == |t2.pubKey.bytes| && TbsBytes(t1) == TbsBytes(t2)) ==>
              TrySign(t1, key) == TrySign(t2, key)
  {
    TbsBytesInjective(t1, t2);
  }
}
