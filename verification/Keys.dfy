/** Public keys as the program sees them, and certificate validity
    (pkg/sshsig/certificate.go, publicKeyType in pkg/sshsig/signature.go). */
module Keys {
  import opened Wrappers

  /** One byte of a wire format, kept as a char so that fields read off the
      wire are ordinary strings. */
  type Byte = c: char | c as int < 0x100 witness '\0'
  type Bytes = seq<Byte>

  type Uint32 = n: int | 0 <= n < 0x1_0000_0000
  type Uint64 = n: int | 0 <= n < 0x1_0000_0000_0000_0000

  /** What the program reads from a certificate. */
  datatype Cert = Cert(inner: string, certType: Uint32, validAfter: Uint64, validBefore: Uint64)

  /** An SSH public key: a plain key, a parsed certificate, or a key an agent
      holds, of which only the type and the blob are known. */
  datatype PublicKey =
    | Plain(typ: string, blob: Bytes)
    | Certificate(typ: string, blob: Bytes, cert: Cert)
    | Held(typ: string, blob: Bytes)

  /** ssh.ParsePublicKey, which the model takes as given. */
  type KeyParser = Bytes -> Option<PublicKey>

  predicate SameKey(a: PublicKey, b: PublicKey) {
    a.blob == b.blob
  }

  /** Keys as parsed are the same exactly when they are equal. */
  lemma SameKeyIsEquality(parse: KeyParser, a: PublicKey, b: PublicKey)
    requires parse(a.blob) == Some(a) && parse(b.blob) == Some(b)
    ensures SameKey(a, b) <==> a == b
  {
  }

  const CERTIFICATE_SUFFIX := "-cert-v01@openssh.com"

  predicate HasSuffix(s: string, suffix: string) {
    |suffix| <= |s| && s[|s| - |suffix|..] == suffix
  }

  /** Parsing and marshalling are inverse on every blob the parser accepts,
      and the types ending in the certificate suffix are those of certificates. */
  ghost predicate Faithful(parse: KeyParser) {
    forall b: Bytes | parse(b).Some? ::
      var pk := parse(b).value;
      pk.blob == b && !pk.Held? && (pk.Certificate? <==> HasSuffix(pk.typ, CERTIFICATE_SUFFIX))
  }

  /** The certificate behind a key: none for a plain key, an error for a
      certificate type whose blob does not hold one. */
  function AsCertificate(parse: KeyParser, pk: PublicKey): Result<Option<Cert>, ()> {
    if pk.Certificate? then Ok(Some(pk.cert))
    else if !HasSuffix(pk.typ, CERTIFICATE_SUFFIX) then Ok(None)
    else match parse(pk.blob)
      case Some(Certificate(_, _, cert)) => Ok(Some(cert))
      case _ => Err(())
  }

  /** The type of the key that signs, seeing through certificates. */
  function PublicKeyType(parse: KeyParser, pk: PublicKey): string {
    match AsCertificate(parse, pk)
    case Ok(Some(cert)) => cert.inner
    case _ => pk.typ
  }

  /** The certificate in a key of an agent, if the parser finds one. */
  function HeldCertificate(parse: KeyParser, blob: Bytes): Option<Cert> {
    match parse(blob)
    case Some(Certificate(_, _, cert)) => Some(cert)
    case _ => None
  }

  /** The signing type, key by key: that of the key inside a certificate, also
      of one that an agent holds, and otherwise the key's own. */
  lemma PublicKeyTypeMeans(parse: KeyParser, typ: string, blob: Bytes, cert: Cert)
    ensures PublicKeyType(parse, Certificate(typ, blob, cert)) == cert.inner
    ensures !HasSuffix(typ, "-cert-v01@openssh.com") ==>
              PublicKeyType(parse, Plain(typ, blob)) == PublicKeyType(parse, Held(typ, blob)) == typ
    ensures HasSuffix(typ, "-cert-v01@openssh.com") ==>
              PublicKeyType(parse, Held(typ, blob))
              == match HeldCertificate(parse, blob) case Some(c) => c.inner case None => typ
  {
  }

  /** A suffix is what a text ends with. */
  lemma HasSuffixMeans(s: string, suffix: string)
    ensures HasSuffix(s, suffix) <==> exists base :: s == base + suffix
  {
    if HasSuffix(s, suffix) {
      assert s == s[..|s| - |suffix|] + suffix;
    }
  }

  // ----- certificate validity

  const USER_CERT := 1
  const CERT_TIME_INFINITY := 0xFFFF_FFFF_FFFF_FFFF
  const INT64_LIMIT := 0x8000_0000_0000_0000
  const SECOND := 1_000_000_000

  /** Seconds since 1970 of an instant given in nanoseconds, rounded down. */
  function Unix(at: int): int {
    at / SECOND
  }

  lemma UnixRoundsDown(at: int, seconds: int)
    ensures seconds <= Unix(at) <==> seconds * 1_000_000_000 <= at
  {
  }

  /** A time.Time, in nanoseconds since 1970, whose seconds fit an int64. */
  type Instant = at: int | -INT64_LIMIT <= Unix(at) < INT64_LIMIT

  /** Go's int64(n). */
  function Int64(n: Uint64): int {
    if n < INT64_LIMIT then n else n - 0x1_0000_0000_0000_0000
  }

  datatype CertificateError = Unparseable | NotUserCertificate | BeforeWindow | AfterWindow

  function CertificateValidAt(parse: KeyParser, pk: PublicKey, at: Instant): Option<CertificateError> {
    match AsCertificate(parse, pk)
    case Err(_) => Some(Unparseable)
    case Ok(None) => None
    case Ok(Some(cert)) =>
      if cert.certType != USER_CERT then Some(NotUserCertificate)
      else
        var unix, after, before := Unix(at), Int64(cert.validAfter), Int64(cert.validBefore);
        if after < 0 || unix < after then Some(BeforeWindow)
        else if cert.validBefore != CERT_TIME_INFINITY && (unix >= before || before < 0) then Some(AfterWindow)
        else None
  }

  /** The window in unbounded integers: from validAfter inclusive to
      validBefore exclusive, where an expiry of 2^63 or later counts only when
      it is the infinity mark. */
  predicate InForce(cert: Cert, t: int) {
    && cert.certType == USER_CERT
    && cert.validAfter <= t
    && (cert.validBefore == CERT_TIME_INFINITY || t < cert.validBefore < INT64_LIMIT)
  }

  predicate CertificatePermits(parse: KeyParser, pk: PublicKey, at: Instant) {
    match AsCertificate(parse, pk)
    case Err(_) => false
    case Ok(None) => true
    case Ok(Some(cert)) => InForce(cert, Unix(at))
  }

  /** The checks on wrapped 64-bit values decide the window in unbounded integers. */
  lemma CertificateWindow(parse: KeyParser, pk: PublicKey, at: Instant)
    ensures CertificateValidAt(parse, pk, at).None? <==> CertificatePermits(parse, pk, at)
  {
    match AsCertificate(parse, pk)
    case Ok(Some(cert)) => assert Int64(cert.validAfter) < 0 <==> cert.validAfter >= INT64_LIMIT;
    case _ =>
  }

  /** The documented window alone is not what is checked: a certificate that
      expires in 2^63 seconds or later, short of infinity, is refused today. */
  lemma DistantExpiryIsRefused(parse: KeyParser, pk: PublicKey, at: Instant)
    requires AsCertificate(parse, pk).Ok? && AsCertificate(parse, pk).value.Some?
    ensures var cert := AsCertificate(parse, pk).value.value;
            (cert.certType == USER_CERT && cert.validAfter <= Unix(at) < cert.validBefore
             && CertificateValidAt(parse, pk, at).Some?)
            <==> (cert.certType == USER_CERT && cert.validAfter <= Unix(at)
                  && INT64_LIMIT <= cert.validBefore < CERT_TIME_INFINITY)
  {
    CertificateWindow(parse, pk, at);
  }

  /** An instance: valid from 1970 to the year 292277026596, refused in 1970. */
  lemma DistantExpiryExample(parse: KeyParser)
    ensures var cert := Cert("ssh-ed25519", USER_CERT, 0, INT64_LIMIT);
            var pk := Certificate("ssh-ed25519" + CERTIFICATE_SUFFIX, [], cert);
            cert.validAfter <= Unix(0) < cert.validBefore && CertificateValidAt(parse, pk, 0) == Some(AfterWindow)
  {
  }
}
