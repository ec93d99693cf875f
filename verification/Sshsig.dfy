/** SSHSIG signatures: the signature file layout, the signed data, and the
    checks shared by parsing and verifying
    (pkg/sshsig/protocol.go, validateSignatureAlgorithm in pkg/sshsig/signature.go). */
module Sshsig {
  import opened Wrappers
  import opened Keys
  import opened Wire

  const MAGIC: Bytes := "SSHSIG"
  const VERSION := 1
  const HASH_SHA256 := "sha256"
  const HASH_SHA512 := "sha512"

  const RSA := "ssh-rsa"
  const RSA_SHA256 := "rsa-sha2-256"
  const RSA_SHA512 := "rsa-sha2-512"
  const DSA := "ssh-dss"
  const SK_ED25519 := "sk-ssh-ed25519@openssh.com"
  const SK_ECDSA := "sk-ecdsa-sha2-nistp256@openssh.com"

  /** ssh.Signature: `rest` is whatever follows the signature blob. */
  datatype SshSignature = SshSignature(format: Bytes, blob: Bytes, rest: Bytes)

  datatype Signature = Signature(
    version: Uint32, publicKey: PublicKey, namespace: Bytes, reserved: Bytes, hashAlgorithm: Bytes,
    signature: SshSignature)

  datatype Error =
    | Malformed | BadMagic | BadKey | BadSignatureField
    | BadVersion | BadSecurityKeyFields | TrailingData | ReservedNotEmpty | NamespaceEmpty | NamespaceHasNul
    | UnsupportedHash | BadFormat
    | UnsupportedAlgorithm | BadRsaFormat
    | ReadError | WrongSignature

  // ----- layout

  function MarshalSshSignature(s: SshSignature): Bytes {
    PutString(s.format) + (PutString(s.blob) + s.rest)
  }

  function UnmarshalSshSignature(b: Bytes): Option<SshSignature> {
    match TakeString(b)
    case Short => None
    case Taken(format, more) =>
      match TakeString(more)
      case Short => None
      case Taken(blob, rest) => Some(SshSignature(format, blob, rest))
  }

  /** Strings one after the other. */
  function PutStrings(ss: seq<Bytes>): Bytes {
    if ss == [] then [] else PutString(ss[0]) + PutStrings(ss[1..])
  }

  /** Exactly n strings and nothing after them. */
  function TakeStrings(b: Bytes, n: nat): (ss: Option<seq<Bytes>>)
    ensures ss.Some? ==> |ss.value| == n
  {
    if n == 0 then if b == [] then Some([]) else None
    else match TakeString(b)
      case Short => None
      case Taken(s, rest) =>
        match TakeStrings(rest, n - 1)
        case None => None
        case Some(more) => Some([s] + more)
  }

  function WireStrings(sig: Signature): (ss: seq<Bytes>)
    ensures |ss| == 5
  {
    [sig.publicKey.blob, sig.namespace, sig.reserved, sig.hashAlgorithm, MarshalSshSignature(sig.signature)]
  }

  function Marshal(sig: Signature): Bytes {
    MAGIC + PutUint32(sig.version) + PutStrings(WireStrings(sig))
  }

  /** What is signed: no version, and an empty reserved field always. */
  function SignedData(namespace: Bytes, hashAlgorithm: Bytes, digest: Bytes): Bytes {
    MAGIC + PutStrings([namespace, [], hashAlgorithm, digest])
  }

  // ----- validation

  predicate IsSecurityKey(keyType: string) {
    keyType == SK_ED25519 || keyType == SK_ECDSA
  }

  datatype SecurityKeyFields = SecurityKeyFields(flags: Byte, counter: Uint32)

  /** One byte of flags and a 32-bit counter for a security key, nothing for
      any other key. */
  function SecurityFields(parse: KeyParser, sig: Signature): Result<Option<SecurityKeyFields>, Error> {
    if !IsSecurityKey(PublicKeyType(parse, sig.publicKey)) then Ok(None)
    else if |sig.signature.rest| != 5 then Err(BadSecurityKeyFields)
    else Ok(Some(SecurityKeyFields(sig.signature.rest[0], Uint32At(sig.signature.rest[1..]))))
  }

  predicate SupportedHash(h: Bytes) {
    h == HASH_SHA256 || h == HASH_SHA512
  }

  predicate FormatAllowed(keyType: string, format: Bytes) {
    format == keyType || (keyType == RSA && (format == RSA_SHA256 || format == RSA_SHA512))
  }

  /** A format that only an RSA key signs in besides its own type. */
  predicate RsaFormat(keyType: string, format: Bytes) {
    keyType == "ssh-rsa" && format in {"rsa-sha2-256", "rsa-sha2-512"}
  }

  method ValidateSignatureFormat(parse: KeyParser, pk: PublicKey, format: Bytes) returns (ok: bool)
    ensures ok <==> FormatAllowed(PublicKeyType(parse, pk), format)
    ensures pk.Certificate? ==> (ok <==> format == pk.cert.inner || RsaFormat(pk.cert.inner, format))
    ensures pk.Plain? && !HasSuffix(pk.typ, CERTIFICATE_SUFFIX) ==>
              (ok <==> format == pk.typ || RsaFormat(pk.typ, format))
  {
    var expected := [PublicKeyType(parse, pk)];
    if expected[0] == RSA {
      expected := expected + [RSA_SHA256, RSA_SHA512];
    }
    for i := 0 to |expected|
      invariant forall j | 0 <= j < i :: expected[j] != format
    {
      if format == expected[i] {
        return true;
      }
    }
    assert format != expected[0];
    assert expected[0] == RSA ==> format != expected[1] && format != expected[2];
    return false;
  }

  function ValidateStructure(parse: KeyParser, sig: Signature): Option<Error> {
    if sig.version != VERSION then Some(BadVersion)
    else match SecurityFields(parse, sig)
      case Err(e) => Some(e)
      case Ok(fields) =>
        if fields == None && sig.signature.rest != [] then Some(TrailingData)
        else if sig.reserved != [] then Some(ReservedNotEmpty)
        else if sig.namespace == [] then Some(NamespaceEmpty)
        else if '\0' in sig.namespace then Some(NamespaceHasNul)
        else if !SupportedHash(sig.hashAlgorithm) then Some(UnsupportedHash)
        else if !FormatAllowed(PublicKeyType(parse, sig.publicKey), sig.signature.format) then Some(BadFormat)
        else None
  }

  function ValidateAlgorithm(parse: KeyParser, sig: Signature): Option<Error> {
    var keyType, format := PublicKeyType(parse, sig.publicKey), sig.signature.format;
    if keyType == DSA || format == DSA then Some(UnsupportedAlgorithm)
    else if keyType == RSA && format != RSA_SHA256 && format != RSA_SHA512 then Some(BadRsaFormat)
    else None
  }

  function ParseSignature(parse: KeyParser, blob: Bytes): (r: Result<Signature, Error>)
    ensures r.Ok? ==> ValidateStructure(parse, r.value).None?
  {
    if |blob| < 10 then Err(Malformed)
    else match TakeStrings(blob[10..], 5)
      case None => Err(Malformed)
      case Some(ss) =>
        if blob[..6] != MAGIC then Err(BadMagic)
        else match parse(ss[0])
          case None => Err(BadKey)
          case Some(pk) =>
            match UnmarshalSshSignature(ss[4])
            case None => Err(BadSignatureField)
            case Some(s) =>
              var sig := Signature(Uint32At(blob[6..]), pk, ss[1], ss[2], ss[3], s);
              match ValidateStructure(parse, sig)
              case Some(e) => Err(e)
              case None => Ok(sig)
  }

  /** Hashing and signature checking, which the model takes as given. */
  datatype Crypto = Crypto(hash: (Bytes, Bytes) -> Bytes, check: (PublicKey, Bytes, SshSignature) -> bool)

  /** Verify over a message, or over one that could not be read. */
  function Verify(crypto: Crypto, parse: KeyParser, message: Option<Bytes>, sig: Signature): Option<Error> {
    match ValidateStructure(parse, sig)
    case Some(e) => Some(e)
    case None =>
      match ValidateAlgorithm(parse, sig)
      case Some(e) => Some(e)
      case None =>
        match message
        case None => Some(ReadError)
        case Some(data) =>
          var signed := SignedData(sig.namespace, sig.hashAlgorithm, crypto.hash(sig.hashAlgorithm, data));
          if crypto.check(sig.publicKey, signed, sig.signature) then None else Some(WrongSignature)
  }

  // ----- round trips

  lemma {:induction false} TakeInvertsPutStrings(ss: seq<Bytes>)
    requires forall i | 0 <= i < |ss| :: Fits(ss[i])
    ensures TakeStrings(PutStrings(ss), |ss|) == Some(ss)
  {
    hide TakeString, PutString;
    if ss != [] {
      TakeInvertsPut(ss[0], PutStrings(ss[1..]));
      TakeInvertsPutStrings(ss[1..]);
      assert ss == [ss[0]] + ss[1..];
    }
  }

  lemma {:induction false} PutInvertsTakeStrings(b: Bytes, n: nat)
    requires TakeStrings(b, n).Some?
    ensures PutStrings(TakeStrings(b, n).value) == b
    ensures forall i | 0 <= i < n :: Fits(TakeStrings(b, n).value[i])
    decreases n
  {
    if n > 0 {
      PutInvertsTake(b);
      PutInvertsTakeStrings(TakeString(b).rest, n - 1);
      var ss := TakeStrings(b, n).value;
      assert ss[1..] == TakeStrings(TakeString(b).rest, n - 1).value;
    }
  }

  lemma SshSignatureReadsBack(s: SshSignature)
    requires Fits(s.format) && Fits(s.blob)
    ensures UnmarshalSshSignature(MarshalSshSignature(s)) == Some(s)
  {
    TakeInvertsPut(s.format, PutString(s.blob) + s.rest);
    TakeInvertsPut(s.blob, s.rest);
  }

  lemma SshSignatureIsCanonical(b: Bytes)
    requires UnmarshalSshSignature(b).Some?
    ensures MarshalSshSignature(UnmarshalSshSignature(b).value) == b
  {
    PutInvertsTake(b);
    PutInvertsTake(TakeString(b).rest);
  }

  /** Every length that Marshal writes is what it says. */
  predicate FieldsFit(sig: Signature) {
    && Fits(sig.signature.format) && Fits(sig.signature.blob)
    && forall i | 0 <= i < 5 :: Fits(WireStrings(sig)[i])
  }

  /** A key whose blob parses, to a key of the same type and blob. */
  predicate Readable(parse: KeyParser, pk: PublicKey) {
    parse(pk.blob).Some? && parse(pk.blob).value.blob == pk.blob && parse(pk.blob).value.typ == pk.typ
    && (pk.Certificate? ==> parse(pk.blob).value == pk)
  }

  /** The signature as a reader gets it: the key parsed from its blob. */
  function Reread(parse: KeyParser, sig: Signature): Signature
    requires parse(sig.publicKey.blob).Some?
  {
    sig.(publicKey := parse(sig.publicKey.blob).value)
  }

  lemma MarshalLayout(sig: Signature)
    ensures var b := Marshal(sig);
            |b| >= 10 && b[..6] == MAGIC && Uint32At(b[6..]) == sig.version && b[10..] == PutStrings(WireStrings(sig))
  {
    var b := Marshal(sig);
    var tail := PutStrings(WireStrings(sig));
    assert b == MAGIC + (PutUint32(sig.version) + tail);
    assert b[6..] == PutUint32(sig.version) + tail;
    Uint32ReadsBack(sig.version, tail);
  }

  /** The bytes of a signature: magic, version, and five strings, of which the
      last holds the format, the signature proper, and what follows them. */
  lemma BlobLayout(sig: Signature)
    requires FieldsFit(sig)
    ensures var b := Marshal(sig);
            && |b| >= 10 && b[..6] == "SSHSIG" && Uint32At(b[6..10]) == sig.version
            && exists last ::
                 && TakeStrings(b[10..], 5)
                    == Some([sig.publicKey.blob, sig.namespace, sig.reserved, sig.hashAlgorithm, last])
                 && TakeString(last).Taken? && TakeString(last).value == sig.signature.format
                 && TakeString(TakeString(last).rest) == Taken(sig.signature.blob, sig.signature.rest)
  {
    MarshalLayout(sig);
    TakeInvertsPutStrings(WireStrings(sig));
    var s := sig.signature;
    TakeInvertsPut(s.format, PutString(s.blob) + s.rest);
    TakeInvertsPut(s.blob, s.rest);
    var b := Marshal(sig);
    assert b[6..][..4] == b[6..10];
    assert WireStrings(sig)[4] == MarshalSshSignature(s);
  }

  /** Parsing what was marshalled runs the same checks on the same fields. */
  lemma ParseOfMarshal(parse: KeyParser, sig: Signature)
    requires FieldsFit(sig) && parse(sig.publicKey.blob).Some?
    ensures ParseSignature(parse, Marshal(sig))
            == match ValidateStructure(parse, Reread(parse, sig))
               case Some(e) => Err(e)
               case None => Ok(Reread(parse, sig))
  {
    MarshalLayout(sig);
    TakeInvertsPutStrings(WireStrings(sig));
    SshSignatureReadsBack(sig.signature);
  }

  /** What a reader sees of the key decides the same checks as the key itself. */
  lemma RereadKeepsChecks(parse: KeyParser, sig: Signature)
    requires Faithful(parse) && Readable(parse, sig.publicKey)
    ensures PublicKeyType(parse, Reread(parse, sig).publicKey) == PublicKeyType(parse, sig.publicKey)
    ensures ValidateStructure(parse, Reread(parse, sig)) == ValidateStructure(parse, sig)
    ensures ValidateAlgorithm(parse, Reread(parse, sig)) == ValidateAlgorithm(parse, sig)
  {
  }

  /** Marshalling then parsing: the same signature, or the error its checks give. */
  lemma ParseInvertsMarshal(parse: KeyParser, sig: Signature)
    requires Faithful(parse) && Readable(parse, sig.publicKey) && FieldsFit(sig)
    ensures ParseSignature(parse, Marshal(sig))
            == match ValidateStructure(parse, sig)
               case Some(e) => Err(e)
               case None => Ok(Reread(parse, sig))
    ensures !sig.publicKey.Held? && parse(sig.publicKey.blob) == Some(sig.publicKey) ==> Reread(parse, sig) == sig
  {
    ParseOfMarshal(parse, sig);
    RereadKeepsChecks(parse, sig);
  }

  /** The wire form is canonical: an accepted blob is the only one its
      signature has. What it holds beyond the signed fields is fixed: nothing
      in the reserved field, and nothing after the signature except a security
      key's five bytes. */
  lemma MarshalInvertsParse(parse: KeyParser, blob: Bytes)
    requires Faithful(parse) && ParseSignature(parse, blob).Ok?
    ensures var sig := ParseSignature(parse, blob).value;
            && Marshal(sig) == blob && FieldsFit(sig)
            && sig.version == VERSION && sig.reserved == []
            && sig.namespace != [] && '\0' !in sig.namespace && SupportedHash(sig.hashAlgorithm)
            && (if IsSecurityKey(PublicKeyType(parse, sig.publicKey)) then |sig.signature.rest| == 5
                else sig.signature.rest == [])
  {
    hide PublicKeyType, PutString, TakeStrings;
    var sig := ParseSignature(parse, blob).value;
    var ss := TakeStrings(blob[10..], 5).value;
    PutInvertsTakeStrings(blob[10..], 5);
    SshSignatureIsCanonical(ss[4]);
    assert WireStrings(sig) == ss;
    assert Uint32At(blob[6..10]) == Uint32At(blob[6..]);
    Uint32IsCanonical(blob[6..10]);
    assert blob == blob[..6] + blob[6..10] + blob[10..];
    PutInvertsTake(ss[4]);
    PutInvertsTake(TakeString(ss[4]).rest);
  }

  /** Parsing accepts exactly the marshalled forms of the signatures that pass
      the structural checks and whose key is the one parsed from its blob. */
  lemma ParseIsExact(parse: KeyParser, blob: Bytes, sig: Signature)
    requires Faithful(parse)
    ensures ParseSignature(parse, blob) == Ok(sig)
            <==> && Marshal(sig) == blob && FieldsFit(sig) && ValidateStructure(parse, sig).None?
                 && parse(sig.publicKey.blob) == Some(sig.publicKey)
  {
    if ParseSignature(parse, blob) == Ok(sig) {
      MarshalInvertsParse(parse, blob);
      ParsedKey(parse, blob);
    } else if FieldsFit(sig) && parse(sig.publicKey.blob) == Some(sig.publicKey) {
      ParseOfMarshal(parse, sig);
    }
  }

  lemma ParsedKey(parse: KeyParser, blob: Bytes)
    requires Faithful(parse) && ParseSignature(parse, blob).Ok?
    ensures var pk := ParseSignature(parse, blob).value.publicKey; parse(pk.blob) == Some(pk)
  {
  }

  /** Different blobs never parse to the same signature. */
  lemma ParseIsInjective(parse: KeyParser, a: Bytes, b: Bytes)
    requires Faithful(parse) && ParseSignature(parse, a).Ok? && ParseSignature(parse, a) == ParseSignature(parse, b)
    ensures a == b
  {
    MarshalInvertsParse(parse, a);
    MarshalInvertsParse(parse, b);
  }

  /** What the two checks together demand of a signature by a key of a type. */
  predicate WellFormed(keyType: string, sig: Signature) {
    && sig.version == 1 && sig.reserved == [] && sig.hashAlgorithm in {"sha256", "sha512"}
    && sig.namespace != [] && '\0' !in sig.namespace
    && |sig.signature.rest| == (if keyType == "sk-ssh-ed25519@openssh.com"
                                   || keyType == "sk-ecdsa-sha2-nistp256@openssh.com" then 5 else 0)
    && (if keyType == "ssh-rsa" then sig.signature.format in {"rsa-sha2-256", "rsa-sha2-512"}
        else keyType != "ssh-dss" && sig.signature.format == keyType)
  }

  predicate Passes(parse: KeyParser, sig: Signature) {
    ValidateStructure(parse, sig).None? && ValidateAlgorithm(parse, sig).None?
  }

  lemma ChecksMean(parse: KeyParser, sig: Signature)
    ensures Passes(parse, sig) <==> WellFormed(PublicKeyType(parse, sig.publicKey), sig)
  {
    assert RSA_SHA256[0] != DSA[0] && RSA_SHA512[0] != DSA[0];
  }

  /** Both checks, key by key: a certificate is judged by the key inside it,
      also one that an agent holds, and any other key by itself. */
  lemma UsableFormats(parse: KeyParser, sig: Signature)
    ensures sig.publicKey.Certificate? ==> (Passes(parse, sig) <==> WellFormed(sig.publicKey.cert.inner, sig))
    ensures !sig.publicKey.Certificate? && !HasSuffix(sig.publicKey.typ, "-cert-v01@openssh.com") ==>
              (Passes(parse, sig) <==> WellFormed(sig.publicKey.typ, sig))
    ensures sig.publicKey.Held? && HasSuffix(sig.publicKey.typ, "-cert-v01@openssh.com") ==>
              match HeldCertificate(parse, sig.publicKey.blob)
              case Some(cert) => Passes(parse, sig) <==> WellFormed(cert.inner, sig)
              case None => Passes(parse, sig) <==> WellFormed(sig.publicKey.typ, sig)
  {
    ChecksMean(parse, sig);
  }

  /** Whatever verifies can be read back: no signature passes Verify that a
      signature file could not hold, and its format is one its key may use. */
  lemma VerifiedReadsBack(crypto: Crypto, parse: KeyParser, message: Option<Bytes>, sig: Signature)
    requires Faithful(parse) && Readable(parse, sig.publicKey) && FieldsFit(sig)
    requires Verify(crypto, parse, message, sig).None?
    ensures ParseSignature(parse, Marshal(sig)) == Ok(Reread(parse, sig))
    ensures ValidateAlgorithm(parse, Reread(parse, sig)).None?
    ensures WellFormed(PublicKeyType(parse, sig.publicKey), sig)
  {
    ParseInvertsMarshal(parse, sig);
    RereadKeepsChecks(parse, sig);
    ChecksMean(parse, sig);
  }

  /** The signed bytes are the magic and four strings, the second one empty. */
  lemma SignedDataLayout(ns: Bytes, h: Bytes, d: Bytes)
    requires Fits(ns) && Fits(h) && Fits(d)
    ensures var b := SignedData(ns, h, d);
            |b| >= 6 && b[..6] == "SSHSIG" && TakeStrings(b[6..], 4) == Some([ns, [], h, d])
  {
    var ss := [ns, [], h, d];
    TakeInvertsPutStrings(ss);
    assert SignedData(ns, h, d)[6..] == PutStrings(ss);
  }

  /** A signature commits to the namespace, the hash algorithm and the digest:
      no two different triples are signed as the same bytes. */
  lemma SignedDataIsInjective(ns: Bytes, h: Bytes, d: Bytes, ns': Bytes, h': Bytes, d': Bytes)
    requires Fits(ns) && Fits(h) && Fits(d) && Fits(ns') && Fits(h') && Fits(d')
    requires SignedData(ns, h, d) == SignedData(ns', h', d')
    ensures ns == ns' && h == h' && d == d'
  {
    SignedDataLayout(ns, h, d);
    SignedDataLayout(ns', h', d');
    var a, b := [ns, [], h, d], [ns', [], h', d'];
    assert a == b;
    assert a[0] == b[0] && a[2] == b[2] && a[3] == b[3];
  }
}
