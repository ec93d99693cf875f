/** The verify flow: independent checks whose statuses and errors must together
    equal one acceptance policy (pkg/flow/verify.go, choice.go, reader.go). */
module Flow {
  import opened Wrappers
  import opened Text
  import opened Keys
  import opened Lines
  import Glob
  import Files
  import Selector
  import Sshsig
  import Armor

  // ----- inputs

  /** The lines a reader yields, and whether reading failed after them. */
  datatype Source = Source(lines: seq<string>, failed: bool)

  /** A message that can be read, or cannot. */
  datatype Message = Data(bytes: Bytes) | Unreadable

  datatype NamedSource = NamedSource(name: string, source: Option<Source>)

  /** VerifyOpts; None stands for a reader that was not given. */
  datatype Opts = Opts(
    signers: Option<Source>, signersFiles: seq<NamedSource>,
    namespace: string, noNamespace: bool, principal: string,
    signature: Option<string>, timestamp: Option<Instant>, message: Option<Message>)

  /** Everything the flow takes from outside its options: how lines are read,
      keys parsed and signatures checked, and the clock. */
  datatype World = World(read: Files.LineReader, keys: KeyParser, crypto: Sshsig.Crypto, now: Instant)

  /** The program's own world, which reads the allowed signers format. */
  function Program(env: Env, crypto: Sshsig.Crypto, now: Instant): World {
    World(Files.FormatReader(env), env.keys, crypto, now)
  }

  // ----- outputs

  datatype Status = Valid | Invalid | Disabled

  datatype Location = Location(file: string, line: nat)

  datatype VerifyResult = VerifyResult(
    authentication: Status, designation: Status, namespace: Bytes, principal: string, verification: Status,
    entry: Option<Location>)

  datatype Error =
    | MissingReader | BothSignersInputs | NamespaceConflict | SignersUnreadable
    | SignatureUnreadable(read: Armor.ReadError)
    | NamespaceUnverified | NamespaceDiffers
    | FailedConstraints(census: Selector.Census) | NotListed
    | CertificateRefused(certificate: CertificateError)
    | MessageUnreadable | NotVerified(reason: Sshsig.Error)

  const MAX_SIGNATURE_ARMOR_SIZE := 0x10_0000

  // ----- the checks before anything is read

  function CheckOptions(opts: Opts): Option<Error> {
    if opts.signersFiles == [] && opts.signers.None? then Some(MissingReader)
    else if opts.signersFiles != [] && opts.signers.Some? then Some(BothSignersInputs)
    else if exists i :: 0 <= i < |opts.signersFiles| && opts.signersFiles[i].source.None? then Some(MissingReader)
    else if opts.signature.None? then Some(MissingReader)
    else if opts.message.None? then Some(MissingReader)
    else if opts.namespace != "" && opts.noNamespace then Some(NamespaceConflict)
    else None
  }

  // ----- allowed signers

  /** The entries of one named source. */
  function EntriesFrom(read: Files.LineReader, from: NamedSource): seq<Entry> {
    if from.source.None? then []
    else Files.InSource(Files.FileOf(read, from.source.value.lines), from.name).entries
  }

  /** The entries of the first n sources. */
  function FirstEntries(read: Files.LineReader, sources: seq<NamedSource>, n: nat): seq<Entry>
    requires n <= |sources|
  {
    if n == 0 then [] else FirstEntries(read, sources, n - 1) + EntriesFrom(read, sources[n - 1])
  }

  predicate Reads(source: Option<Source>) {
    source.Some? && !source.value.failed
  }

  predicate AllRead(files: seq<NamedSource>) {
    forall i | 0 <= i < |files| :: Reads(files[i].source)
  }

  /** Whether the allowed signers can be read, and the entries they then hold:
      those of the lone reader, which has no name, or of all files in order. */
  predicate SignersRead(opts: Opts) {
    if opts.signersFiles == [] then Reads(opts.signers) else AllRead(opts.signersFiles)
  }

  function SignersEntries(read: Files.LineReader, opts: Opts): seq<Entry>
    requires SignersRead(opts)
  {
    if opts.signersFiles == [] then Files.EntriesOf(read, opts.signers.value.lines)
    else FirstEntries(read, opts.signersFiles, |opts.signersFiles|)
  }

  method ParseAllowedSigners(read: Files.LineReader, opts: Opts) returns (parsed: Files.File?)
    requires CheckOptions(opts).None?
    ensures parsed != null <==> SignersRead(opts)
    ensures parsed != null ==> fresh(parsed) && parsed.entries == SignersEntries(read, opts)
  {
    if |opts.signersFiles| == 0 {
      var source := opts.signers.value;
      parsed := Files.File.Parse(read, source.lines, source.failed);
    } else {
      parsed := ParseFiles(read, opts.signersFiles);
    }
  }

  method ParseFiles(read: Files.LineReader, files: seq<NamedSource>) returns (parsed: Files.File?)
    requires forall i | 0 <= i < |files| :: files[i].source.Some?
    ensures parsed != null <==> AllRead(files)
    ensures parsed != null ==> fresh(parsed) && parsed.entries == FirstEntries(read, files, |files|)
  {
    var file := new Files.File();
    assert files[..|files|] == files;
    for i := 0 to |files|
      invariant fresh(file) && AllRead(files[..i]) == true
      invariant file.entries == FirstEntries(read, files, i)
    {
      OneMoreSource(read, files, i);
      OneMoreRead(files, i);
      var ok := Include(read, file, files[i]);
      if !ok {
        return null;
      }
    }
    return file;
  }

  lemma {:induction false} OneMoreSource(read: Files.LineReader, sources: seq<NamedSource>, n: nat)
    requires n < |sources|
    ensures FirstEntries(read, sources, n + 1) == FirstEntries(read, sources, n) + EntriesFrom(read, sources[n])
  {
  }

  lemma OneMoreRead(sources: seq<NamedSource>, n: nat)
    requires n < |sources|
    ensures AllRead(sources[..n + 1]) <==> AllRead(sources[..n]) && Reads(sources[n].source)
    ensures AllRead(sources) ==> Reads(sources[n].source)
  {
    assert sources[..n + 1] == sources[..n] + [sources[n]];
  }

  /** Parses one named source and appends it. */
  method Include(read: Files.LineReader, file: Files.File, from: NamedSource) returns (ok: bool)
    requires from.source.Some?
    modifies file
    ensures ok <==> Reads(from.source)
    ensures ok ==> file.entries == old(file.entries) + EntriesFrom(read, from)
  {
    var source := from.source.value;
    var p := Files.File.ParseSource(read, source.lines, source.failed, from.name);
    if p != null {
      file.Append(p);
    }
    ok := p != null;
  }

  // ----- the checks on what was read

  function ModeOf(opts: Opts): Selector.Mode {
    if opts.noNamespace then Selector.Ignored
    else if opts.namespace == "" then Selector.Required
    else Selector.Checked
  }

  /** A search that ignores namespaces is not told one. */
  function QueryOf(opts: Opts, sig: Sshsig.Signature, at: Instant): Selector.Query {
    Selector.Query(sig.publicKey, opts.principal, if opts.noNamespace then "" else sig.namespace, at)
  }

  /** The status of the signature's namespace, and the error to report, if any
      is to be reported here. */
  function ResolveDesignation(opts: Opts, sig: Sshsig.Signature, m: Selector.Match): (Status, Option<Error>) {
    if opts.noNamespace then (Disabled, None)
    else if opts.namespace == "" then
      // The error is left to ResolveAuthentication.
      if !m.Found? then (Invalid, None)
      else if m.restricted then (Valid, None)
      else (Invalid, Some(NamespaceUnverified))
    else if opts.namespace != sig.namespace then (Invalid, Some(NamespaceDiffers))
    else if Selector.NamespaceConstraintResult(m) == (true, false) then (Invalid, None)
    else (Valid, None)
  }

  function ResolveAuthentication(opts: Opts, entries: seq<Entry>, m: Selector.Match): (Status, string, Option<Error>)
    requires m.Found? ==> m.index < |entries|
  {
    match m
    case Rejected(census) => (Invalid, opts.principal, Some(FailedConstraints(census)))
    case NotFound => (Invalid, opts.principal, Some(NotListed))
    case Found(i, _) =>
      if opts.principal == "" then (Disabled, entries[i].principal, None) else (Valid, opts.principal, None)
  }

  // ----- the policy

  /** An entry vouches for a signature: it holds the key, admits the requested
      principal if any, covers the time, and satisfies the namespace rule. The
      rule is waived on request; otherwise the entry must permit the namespace,
      and either that namespace was asked for, or the entry restricts some. */
  ghost predicate Vouches(e: Entry, opts: Opts, sig: Sshsig.Signature, at: Instant) {
    && SameKey(e.publicKey, sig.publicKey)
    && (opts.principal != "" ==> Glob.Permits(Split(e.principal, ','), opts.principal))
    && Selector.InWindow(e, at)
    && (opts.noNamespace ||
        (&& (Selector.Restricted(e) ==> Glob.Permits(e.options.namespaces, sig.namespace))
         && (if opts.namespace == "" then Selector.Restricted(e) else opts.namespace == sig.namespace)))
  }

  ghost predicate SignatureHolds(w: World, sig: Sshsig.Signature, data: Bytes) {
    w.crypto.check(sig.publicKey,
                   Sshsig.SignedData(sig.namespace, sig.hashAlgorithm, w.crypto.hash(sig.hashAlgorithm, data)),
                   sig.signature)
  }

  function TimeOf(w: World, opts: Opts): Instant {
    if opts.timestamp.Some? then opts.timestamp.value else w.now
  }

  function ReadSignature(w: World, opts: Opts): Result<Sshsig.Signature, Armor.ReadError>
    requires opts.signature.Some?
  {
    Armor.SignatureRead(w.keys, opts.signature.value, MAX_SIGNATURE_ARMOR_SIZE)
  }

  /** When a signature is accepted for some data, with no reference to how
      that is found out. */
  ghost predicate Trusted(w: World, opts: Opts, entries: seq<Entry>, sig: Sshsig.Signature, data: Bytes) {
    && SignatureHolds(w, sig, data)
    && CertificatePermits(w.keys, sig.publicKey, TimeOf(w, opts))
    && exists e :: e in entries && Vouches(e, opts, sig, TimeOf(w, opts))
  }

  /** The acceptance policy from end to end. */
  ghost predicate Accepts(w: World, opts: Opts) {
    && CheckOptions(opts).None?
    && SignersRead(opts)
    && ReadSignature(w, opts).Ok?
    && opts.message.value.Data?
    && Trusted(w, opts, SignersEntries(w.read, opts), ReadSignature(w, opts).value, opts.message.value.bytes)
  }

  /** Asking for the signature's own namespace accepts whatever asking for none
      accepts, and waiving the check accepts whatever that accepts. */
  lemma StricterOptionsAcceptLess(w: World, opts: Opts, entries: seq<Entry>, sig: Sshsig.Signature, data: Bytes)
    requires sig.namespace != ""
    ensures var inferred := opts.(namespace := "", noNamespace := false);
            var explicit := opts.(namespace := sig.namespace, noNamespace := false);
            var waived := opts.(namespace := "", noNamespace := true);
            && (Trusted(w, inferred, entries, sig, data) ==> Trusted(w, explicit, entries, sig, data))
            && (Trusted(w, explicit, entries, sig, data) ==> Trusted(w, waived, entries, sig, data))
  {
    var at := TimeOf(w, opts);
    var inferred := opts.(namespace := "", noNamespace := false);
    var explicit := opts.(namespace := sig.namespace, noNamespace := false);
    var waived := opts.(namespace := "", noNamespace := true);
    forall e | Vouches(e, inferred, sig, at) ensures Vouches(e, explicit, sig, at) {}
    forall e | Vouches(e, explicit, sig, at) ensures Vouches(e, waived, sig, at) {}
  }

  // ----- why the statuses add up to the policy

  /** No error from the two resolutions exactly when some entry vouches. */
  lemma ResolutionsDecide(opts: Opts, sig: Sshsig.Signature, at: Instant, entries: seq<Entry>, m: Selector.Match)
    requires Selector.Selects(entries, QueryOf(opts, sig, at), ModeOf(opts), m)
    requires !(opts.namespace != "" && opts.noNamespace)
    ensures ResolveDesignation(opts, sig, m).1.None? && ResolveAuthentication(opts, entries, m).2.None?
            <==> exists e :: e in entries && Vouches(e, opts, sig, at)
  {
    var q, mode := QueryOf(opts, sig, at), ModeOf(opts);
    Selector.OutcomeIsExact(entries, q, mode, m);
    if m.Found? {
      Selector.FoundMeans(entries, q, mode, m);
      var e := entries[m.index];
      assert e in entries && Selector.Usable(e, q, mode);
      if opts.noNamespace || (if opts.namespace == "" then m.restricted else opts.namespace == sig.namespace) {
        assert Vouches(e, opts, sig, at);
      }
    }
    if e :| e in entries && Vouches(e, opts, sig, at) {
      var i :| 0 <= i < |entries| && entries[i] == e;
      assert Selector.Usable(entries[i], q, mode);
      if opts.namespace == "" && !opts.noNamespace {
        assert Selector.UsableRestricted(entries[i], q, mode);
      }
    }
  }

  /** A status of invalid without an error of its own is never the only sign:
      whenever designation is silently invalid, authentication reports an error. */
  lemma SilentInvalidIsReported(opts: Opts, sig: Sshsig.Signature, entries: seq<Entry>, m: Selector.Match)
    requires m.Found? ==> m.index < |entries|
    ensures var (designation, error) := ResolveDesignation(opts, sig, m);
            var (authentication, _, authError) := ResolveAuthentication(opts, entries, m);
            && (error.Some? ==> designation == Invalid)
            && (authError.Some? <==> authentication == Invalid)
            && (designation == Invalid && error.None? ==> authError.Some?)
  {
  }

  /** What the namespace status means: it is confirmed by inference when a
      usable entry restricts namespaces, and confirmed by request unless the
      file refuses it to every entry holding the key. */
  lemma DesignationMeans(opts: Opts, sig: Sshsig.Signature, at: Instant, entries: seq<Entry>, m: Selector.Match)
    requires Selector.Selects(entries, QueryOf(opts, sig, at), ModeOf(opts), m)
    ensures var q, status := QueryOf(opts, sig, at), ResolveDesignation(opts, sig, m).0;
            if opts.noNamespace then status == Disabled
            else if opts.namespace == "" then
              status == if exists e :: e in entries && Selector.UsableRestricted(e, q, Selector.Required)
                        then Valid else Invalid
            else if opts.namespace != sig.namespace then status == Invalid
            else
              status == Invalid <==>
                && (exists e :: e in entries && Selector.Candidate(e, q))
                && forall e | e in entries && Selector.Candidate(e, q) ::
                     Selector.Restricted(e) && !Glob.Permits(e.options.namespaces, q.namespace)
  {
    var q, mode := QueryOf(opts, sig, at), ModeOf(opts);
    Selector.FoundMeans(entries, q, mode, m);
    Selector.OutcomeIsExact(entries, q, mode, m);
    if m.Rejected? {
      Selector.NamespaceVerdictIsExact(entries, q, mode, m);
    }
    if m.Found? {
      var e := entries[m.index];
      assert e in entries && Selector.Usable(e, q, mode);
    }
  }

  /** What the authentication status and the identity mean: the requested
      identity is always the one reported, and without one the pattern-list of
      the entry that vouches for the key. */
  lemma AuthenticationMeans(opts: Opts, sig: Sshsig.Signature, at: Instant, entries: seq<Entry>, m: Selector.Match)
    requires Selector.Selects(entries, QueryOf(opts, sig, at), ModeOf(opts), m)
    ensures m.Found? ==> m.index < |entries|
    ensures var q := QueryOf(opts, sig, at);
            var (status, principal, error) := ResolveAuthentication(opts, entries, m);
            && (status == Invalid <==> Selector.NoneUsable(entries, q, ModeOf(opts)))
            && (status != Invalid ==> (status == Disabled <==> opts.principal == ""))
            && (opts.principal != "" ==> principal == opts.principal)
            && (opts.principal == "" && status != Invalid ==>
                exists e :: e in entries && Selector.Usable(e, q, ModeOf(opts)) && principal == e.principal)
            && (error == Some(NotListed) <==> Selector.NoCandidate(entries, q))
  {
    var q, mode := QueryOf(opts, sig, at), ModeOf(opts);
    Selector.FoundMeans(entries, q, mode, m);
    Selector.OutcomeIsExact(entries, q, mode, m);
    if m.Found? {
      assert entries[m.index] in entries && Selector.Usable(entries[m.index], q, mode);
    }
  }

  function LocationOf(entries: seq<Entry>, m: Selector.Match): Option<Location>
    requires m.Found? ==> m.index < |entries|
  {
    if m.Found? then Some(Location(entries[m.index].source, entries[m.index].line)) else None
  }

  /** The whole result, given the entry selected. */
  ghost function ResultFor(
    w: World, opts: Opts, entries: seq<Entry>, sig: Sshsig.Signature, data: Bytes, m: Selector.Match): VerifyResult
    requires m.Found? ==> m.index < |entries|
  {
    var (designation, _) := ResolveDesignation(opts, sig, m);
    var (authentication, principal, _) := ResolveAuthentication(opts, entries, m);
    VerifyResult(
      if CertificatePermits(w.keys, sig.publicKey, TimeOf(w, opts)) then authentication else Invalid,
      designation, sig.namespace, principal,
      if SignatureHolds(w, sig, data) then Valid else Invalid,
      LocationOf(entries, m))
  }

  function Reported(e: Option<Error>): seq<Error> {
    match e
    case None => []
    case Some(error) => [error]
  }

  /** The errors that do not depend on the message, in the order they are
      reported, given the entry selected. */
  function EarlyErrorsFor(
    w: World, opts: Opts, entries: seq<Entry>, sig: Sshsig.Signature, m: Selector.Match): seq<Error>
    requires m.Found? ==> m.index < |entries|
  {
    var certificate := CertificateValidAt(w.keys, sig.publicKey, TimeOf(w, opts));
    Reported(ResolveDesignation(opts, sig, m).1)
    + Reported(ResolveAuthentication(opts, entries, m).2)
    + (if certificate.Some? then [CertificateRefused(certificate.value)] else [])
  }

  /** All errors for a message that can be read. */
  ghost function ErrorsFor(
    w: World, opts: Opts, entries: seq<Entry>, sig: Sshsig.Signature, data: Bytes, m: Selector.Match): seq<Error>
    requires m.Found? ==> m.index < |entries|
  {
    EarlyErrorsFor(w, opts, entries, sig, m)
    + (if SignatureHolds(w, sig, data) then [] else [NotVerified(Sshsig.WrongSignature)])
  }

  /** The complete outcome of the checks, for the one selection there is. */
  ghost predicate Reports(
    w: World, opts: Opts, entries: seq<Entry>, sig: Sshsig.Signature, data: Bytes,
    result: VerifyResult, errs: seq<Error>)
  {
    exists m ::
      && Selector.Selects(entries, QueryOf(opts, sig, TimeOf(w, opts)), ModeOf(opts), m)
      && result == ResultFor(w, opts, entries, sig, data, m)
      && errs == ErrorsFor(w, opts, entries, sig, data, m)
  }

  /** The errors for a message that cannot be read: all that do not depend on
      it, and that. */
  ghost predicate ReportsUnreadable(
    w: World, opts: Opts, entries: seq<Entry>, sig: Sshsig.Signature, errs: seq<Error>)
  {
    exists m ::
      && Selector.Selects(entries, QueryOf(opts, sig, TimeOf(w, opts)), ModeOf(opts), m)
      && (m.Found? ==> m.index < |entries|)
      && errs == EarlyErrorsFor(w, opts, entries, sig, m) + [MessageUnreadable]
  }

  /** What a list of errors must say about the statuses. */
  predicate Agrees(result: VerifyResult, errs: seq<Error>) {
    errs == [] <==>
    result.authentication != Invalid && result.designation != Invalid && result.verification != Invalid
  }

  /** The statuses and the errors, computed apart, agree with each other and
      with the policy. */
  lemma OutcomeMeans(w: World, opts: Opts, entries: seq<Entry>, sig: Sshsig.Signature, data: Bytes, m: Selector.Match)
    requires Selector.Selects(entries, QueryOf(opts, sig, TimeOf(w, opts)), ModeOf(opts), m)
    requires !(opts.namespace != "" && opts.noNamespace)
    ensures m.Found? ==> m.index < |entries|
    ensures Agrees(ResultFor(w, opts, entries, sig, data, m), ErrorsFor(w, opts, entries, sig, data, m))
    ensures ErrorsFor(w, opts, entries, sig, data, m) == [] <==> Trusted(w, opts, entries, sig, data)
  {
    var at := TimeOf(w, opts);
    Selector.FoundMeans(entries, QueryOf(opts, sig, at), ModeOf(opts), m);
    ResolutionsDecide(opts, sig, at, entries, m);
    SilentInvalidIsReported(opts, sig, entries, m);
    CertificateWindow(w.keys, sig.publicKey, at);
  }

  /** Every check runs; a result may come with errors. */
  method Verify(w: World, opts: Opts) returns (result: Option<VerifyResult>, errs: seq<Error>)
    ensures result.Some? && errs == [] <==> Accepts(w, opts)
    ensures result.Some? ==> Agrees(result.value, errs)
    ensures result.Some? ==> CheckOptions(opts).None? && SignersRead(opts) && ReadSignature(w, opts).Ok?
                             && opts.message.value.Data?
                             && Reports(w, opts, SignersEntries(w.read, opts), ReadSignature(w, opts).value,
                                        opts.message.value.bytes, result.value, errs)
    ensures result.None? ==> errs != []
    ensures CheckOptions(opts).Some? ==> result.None? && errs == [CheckOptions(opts).value]
    ensures CheckOptions(opts).None? && !SignersRead(opts) ==> result.None? && errs == [SignersUnreadable]
    ensures CheckOptions(opts).None? && SignersRead(opts) && ReadSignature(w, opts).Err? ==>
              result.None? && errs == [SignatureUnreadable(ReadSignature(w, opts).error)]
    ensures CheckOptions(opts).None? && SignersRead(opts) && ReadSignature(w, opts).Ok?
            && opts.message.value.Unreadable? ==>
              result.None?
              && ReportsUnreadable(w, opts, SignersEntries(w.read, opts), ReadSignature(w, opts).value, errs)
  {
    var bad := CheckOptions(opts);
    if bad.Some? {
      return None, [bad.value];
    }
    var parsed := ParseAllowedSigners(w.read, opts);
    if parsed == null {
      return None, [SignersUnreadable];
    }
    var unarmored := ReadSignature(w, opts);
    if unarmored.Err? {
      return None, [SignatureUnreadable(unarmored.error)];
    }
    result, errs := RunChecks(w, opts, parsed, unarmored.value);
  }

  /** The checks on a signature that was read, none of which stops the others. */
  method RunChecks(w: World, opts: Opts, parsed: Files.File, sig: Sshsig.Signature)
    returns (result: Option<VerifyResult>, errs: seq<Error>)
    requires CheckOptions(opts).None?
    requires Sshsig.ValidateStructure(w.keys, sig).None? && Sshsig.ValidateAlgorithm(w.keys, sig).None?
    ensures result.Some? <==> opts.message.value.Data?
    ensures result.Some? ==> (errs == [] <==> Trusted(w, opts, parsed.entries, sig, opts.message.value.bytes))
    ensures result.Some? ==> Agrees(result.value, errs)
    ensures result.Some? ==>
              Reports(w, opts, parsed.entries, sig, opts.message.value.bytes, result.value, errs)
    ensures result.None? ==> ReportsUnreadable(w, opts, parsed.entries, sig, errs)
  {
    var timestamp := TimeOf(w, opts);
    var entries := parsed.entries;
    var m := parsed.MatchEntry(QueryOf(opts, sig, timestamp), ModeOf(opts));
    Selector.FoundMeans(entries, QueryOf(opts, sig, timestamp), ModeOf(opts), m);
    CertificateWindow(w.keys, sig.publicKey, timestamp);

    var (designation, designationError) := ResolveDesignation(opts, sig, m);
    errs := Reported(designationError);
    var (authentication, principal, authenticationError) := ResolveAuthentication(opts, entries, m);
    errs := errs + Reported(authenticationError);

    var certificateError := CertificateValidAt(w.keys, sig.publicKey, timestamp);
    if certificateError.Some? {
      authentication := Invalid;
      errs := errs + [CertificateRefused(certificateError.value)];
    }

    var message := if opts.message.value.Data? then Some(opts.message.value.bytes) else None;
    var failure := Sshsig.Verify(w.crypto, w.keys, message, sig);
    var verification := Valid;
    if failure == Some(Sshsig.ReadError) {
      return None, errs + [MessageUnreadable];
    }
    if failure.Some? {
      verification := Invalid;
      errs := errs + [NotVerified(failure.value)];
    }
    result := Some(VerifyResult(
      authentication, designation, sig.namespace, principal, verification, LocationOf(entries, m)));
    OutcomeMeans(w, opts, entries, sig, opts.message.value.bytes, m);
    assert errs == ErrorsFor(w, opts, entries, sig, opts.message.value.bytes, m);
  }

  // ----- the policy in plain terms

  /** What must be given: one lone allowed signers reader or named ones, all of
      them, a signature and a message, and at most one choice of namespace. */
  predicate AllGiven(opts: Opts) {
    && (if opts.signersFiles == [] then opts.signers.Some?
        else opts.signers.None? && forall i | 0 <= i < |opts.signersFiles| :: opts.signersFiles[i].source.Some?)
    && opts.signature.Some? && opts.message.Some? && (opts.namespace == "" || !opts.noNamespace)
  }

  /** Which options are refused, and for what. */
  lemma OptionsMean(opts: Opts)
    ensures CheckOptions(opts).None? <==> AllGiven(opts)
    ensures CheckOptions(opts) == Some(BothSignersInputs) <==> opts.signersFiles != [] && opts.signers.Some?
    ensures CheckOptions(opts) == Some(NamespaceConflict)
            <==> opts.namespace != "" && opts.noNamespace && AllGiven(opts.(noNamespace := false))
    ensures CheckOptions(opts).Some? ==>
              CheckOptions(opts).value in {MissingReader, BothSignersInputs, NamespaceConflict}
  {
  }

  /** An entry that some line of the allowed signers holds, with the name of its
      file. */
  ghost predicate Listed(read: Files.LineReader, opts: Opts, e: Entry)
    requires AllGiven(opts)
  {
    if opts.signersFiles == [] then HoldsEntry(read, opts.signers.value.lines, e)
    else exists k, was ::
      && 0 <= k < |opts.signersFiles| && HoldsEntry(read, opts.signersFiles[k].source.value.lines, was)
      && e == was.(source := opts.signersFiles[k].name)
  }

  ghost predicate HoldsEntry(read: Files.LineReader, lines: seq<string>, e: Entry) {
    exists i :: 0 <= i < |lines| && read(i + 1, lines[i]) == Some(Ok(e))
  }

  lemma EntriesOfSource(read: Files.LineReader, from: NamedSource, e: Entry)
    requires from.source.Some?
    ensures e in EntriesFrom(read, from)
            <==> exists was :: HoldsEntry(read, from.source.value.lines, was) && e == was.(source := from.name)
  {
    var es, named := Files.EntriesOf(read, from.source.value.lines), EntriesFrom(read, from);
    assert |named| == |es| && forall i | 0 <= i < |es| :: named[i] == es[i].(source := from.name);
    if e in named {
      var i :| 0 <= i < |named| && named[i] == e;
      Files.EntriesComeFromLines(read, from.source.value.lines, es[i]);
      assert HoldsEntry(read, from.source.value.lines, es[i]);
    }
    if was :| HoldsEntry(read, from.source.value.lines, was) && e == was.(source := from.name) {
      Files.EntriesComeFromLines(read, from.source.value.lines, was);
      var i :| 0 <= i < |es| && es[i] == was;
      assert named[i] == e;
    }
  }

  lemma {:induction false} EntriesOfSources(read: Files.LineReader, sources: seq<NamedSource>, n: nat, e: Entry)
    requires n <= |sources|
    ensures e in FirstEntries(read, sources, n) <==> exists k :: 0 <= k < n && e in EntriesFrom(read, sources[k])
  {
    hide EntriesFrom;
    if n > 0 {
      EntriesOfSources(read, sources, n - 1, e);
      InEither(e, FirstEntries(read, sources, n - 1), EntriesFrom(read, sources[n - 1]));
    }
  }

  lemma InEither(e: Entry, a: seq<Entry>, b: seq<Entry>)
    ensures e in a + b <==> e in a || e in b
  {
  }

  lemma EntriesAreListed(read: Files.LineReader, opts: Opts, e: Entry)
    requires AllGiven(opts) && SignersRead(opts)
    ensures e in SignersEntries(read, opts) <==> Listed(read, opts, e)
  {
    if opts.signersFiles == [] {
      Files.EntriesComeFromLines(read, opts.signers.value.lines, e);
    } else {
      var files := opts.signersFiles;
      EntriesOfSources(read, files, |files|, e);
      forall k | 0 <= k < |files|
        ensures e in EntriesFrom(read, files[k])
                <==> exists was ::
                       HoldsEntry(read, files[k].source.value.lines, was) && e == was.(source := files[k].name)
      {
        EntriesOfSource(read, files[k], e);
      }
    }
  }

  predicate AllReadable(opts: Opts) {
    && (opts.signersFiles == [] && opts.signers.Some? ==> !opts.signers.value.failed)
    && forall i | 0 <= i < |opts.signersFiles| && opts.signersFiles[i].source.Some? ::
         !opts.signersFiles[i].source.value.failed
  }

  /** A certificate is a user certificate in its window, to the nanosecond. */
  predicate KeyInForce(pk: PublicKey, at: Instant) {
    match pk
    case Certificate(_, _, cert) =>
      && cert.certType == 1 && cert.validAfter * 1_000_000_000 <= at
      && (cert.validBefore == 0xFFFF_FFFF_FFFF_FFFF
          || (cert.validBefore < 0x8000_0000_0000_0000 && at < cert.validBefore * 1_000_000_000))
    case _ => true
  }

  /** What an entry must say for the signature to be accepted. */
  ghost predicate Allows(e: Entry, opts: Opts, sig: Sshsig.Signature, at: Instant) {
    && e.publicKey.blob == sig.publicKey.blob
    && (opts.principal == "" || Glob.Permits(Split(e.principal, ','), opts.principal))
    && (e.options.validAfter.Some? ==> e.options.validAfter.value <= at)
    && (e.options.validBefore.Some? ==> at <= e.options.validBefore.value)
    && (if opts.noNamespace then true
        else if opts.namespace == "" then
          e.options.namespaces != [] && Glob.Permits(e.options.namespaces, sig.namespace)
        else
          && sig.namespace == opts.namespace
          && (e.options.namespaces == [] || Glob.Permits(e.options.namespaces, sig.namespace)))
  }

  ghost predicate Signs(w: World, sig: Sshsig.Signature, data: Bytes) {
    w.crypto.check(sig.publicKey,
                   Sshsig.SignedData(sig.namespace, sig.hashAlgorithm, w.crypto.hash(sig.hashAlgorithm, data)),
                   sig.signature)
  }

  function GivenTime(w: World, opts: Opts): Instant {
    match opts.timestamp
    case Some(t) => t
    case None => w.now
  }

  lemma AllowsIsVouches(e: Entry, opts: Opts, sig: Sshsig.Signature, at: Instant)
    ensures Vouches(e, opts, sig, at) <==> Allows(e, opts, sig, at)
  {
  }

  lemma InForceIsPermitted(parse: KeyParser, pk: PublicKey, at: Instant)
    requires Faithful(parse) && parse(pk.blob) == Some(pk)
    ensures CertificatePermits(parse, pk, at) <==> KeyInForce(pk, at)
  {
    if pk.Certificate? {
      UnixRoundsDown(at, pk.cert.validAfter);
      UnixRoundsDown(at, pk.cert.validBefore);
    }
  }

  lemma ReadKey(parse: KeyParser, data: string, max: nat)
    requires Faithful(parse) && Armor.SignatureRead(parse, data, max).Ok?
    ensures var pk := Armor.SignatureRead(parse, data, max).value.publicKey; parse(pk.blob) == Some(pk)
  {
    var body, space, blob := Armor.AcceptedFileIsOneBlock(parse, data, max);
    Sshsig.ParsedKey(parse, blob);
  }

  lemma TrustedMeans(w: World, opts: Opts, entries: seq<Entry>, sig: Sshsig.Signature, data: Bytes)
    requires Faithful(w.keys) && w.keys(sig.publicKey.blob) == Some(sig.publicKey)
    ensures Trusted(w, opts, entries, sig, data)
            <==> && Signs(w, sig, data) && KeyInForce(sig.publicKey, GivenTime(w, opts))
                 && exists e :: e in entries && Allows(e, opts, sig, GivenTime(w, opts))
  {
    var at := GivenTime(w, opts);
    InForceIsPermitted(w.keys, sig.publicKey, at);
    forall e ensures Vouches(e, opts, sig, at) <==> Allows(e, opts, sig, at) {
      AllowsIsVouches(e, opts, sig, at);
    }
  }

  lemma ListedAllows(w: World, opts: Opts, sig: Sshsig.Signature, at: Instant)
    requires AllGiven(opts) && SignersRead(opts)
    ensures (exists e :: e in SignersEntries(w.read, opts) && Allows(e, opts, sig, at))
            <==> (exists e :: Listed(w.read, opts, e) && Allows(e, opts, sig, at))
  {
    forall e ensures e in SignersEntries(w.read, opts) <==> Listed(w.read, opts, e) {
      EntriesAreListed(w.read, opts, e);
    }
  }

  /** What makes a signature that was read acceptable for some data. */
  ghost predicate Authorized(w: World, opts: Opts, sig: Sshsig.Signature, data: Bytes)
    requires AllGiven(opts)
  {
    && Signs(w, sig, data) && KeyInForce(sig.publicKey, GivenTime(w, opts))
    && exists e :: Listed(w.read, opts, e) && Allows(e, opts, sig, GivenTime(w, opts))
  }

  lemma AuthorizedIsTrusted(w: World, opts: Opts, sig: Sshsig.Signature, data: Bytes)
    requires Faithful(w.keys) && w.keys(sig.publicKey.blob) == Some(sig.publicKey)
    requires AllGiven(opts) && SignersRead(opts)
    ensures Trusted(w, opts, SignersEntries(w.read, opts), sig, data) <==> Authorized(w, opts, sig, data)
  {
    TrustedMeans(w, opts, SignersEntries(w.read, opts), sig, data);
    ListedAllows(w, opts, sig, GivenTime(w, opts));
  }

  /** The acceptance policy: everything is given and can be read, the signature
      is over the message, its certificate is in force, and a line of the
      allowed signers holds the signing key, the principal, the time and the
      namespace. */
  lemma PolicyMeans(w: World, opts: Opts)
    requires Faithful(w.keys)
    ensures Accepts(w, opts)
            <==> && AllGiven(opts) && AllReadable(opts) && opts.message.value.Data?
                 && var read := Armor.SignatureRead(w.keys, opts.signature.value, 0x10_0000);
                    read.Ok? && Authorized(w, opts, read.value, opts.message.value.bytes)
  {
    OptionsMean(opts);
    if AllGiven(opts) && SignersRead(opts) && opts.message.value.Data? && ReadSignature(w, opts).Ok? {
      ReadKey(w.keys, opts.signature.value, 0x10_0000);
      AuthorizedIsTrusted(w, opts, ReadSignature(w, opts).value, opts.message.value.bytes);
    }
  }

  /** A result without errors names the entry that allows the signature. */
  lemma AcceptedResult(
    w: World, opts: Opts, entries: seq<Entry>, sig: Sshsig.Signature, data: Bytes,
    result: VerifyResult, errs: seq<Error>)
    requires Reports(w, opts, entries, sig, data, result, errs) && errs == []
    requires opts.namespace == "" || !opts.noNamespace
    ensures exists e ::
              && e in entries && Allows(e, opts, sig, GivenTime(w, opts))
              && result == VerifyResult(
                   if opts.principal == "" then Disabled else Valid, if opts.noNamespace then Disabled else Valid,
                   sig.namespace, if opts.principal == "" then e.principal else opts.principal, Valid,
                   Some(Location(e.source, e.line)))
  {
    var at := GivenTime(w, opts);
    var m :| Selector.Selects(entries, QueryOf(opts, sig, at), ModeOf(opts), m)
             && result == ResultFor(w, opts, entries, sig, data, m)
             && errs == ErrorsFor(w, opts, entries, sig, data, m);
    FoundAllows(opts, sig, at, entries, m);
    CertificateWindow(w.keys, sig.publicKey, at);
  }

  lemma FoundAllows(opts: Opts, sig: Sshsig.Signature, at: Instant, entries: seq<Entry>, m: Selector.Match)
    requires Selector.Selects(entries, QueryOf(opts, sig, at), ModeOf(opts), m)
    requires opts.namespace == "" || !opts.noNamespace
    ensures m.Found? ==> m.index < |entries|
    ensures ResolveDesignation(opts, sig, m).1.None? && ResolveAuthentication(opts, entries, m).2.None? ==>
              m.Found? && Allows(entries[m.index], opts, sig, at)
  {
    var q, mode := QueryOf(opts, sig, at), ModeOf(opts);
    Selector.FoundMeans(entries, q, mode, m);
    if m.Found? {
      assert Selector.Usable(entries[m.index], q, mode);
    }
  }

  /** Whatever the errors: the namespace is the signature's, verification tells
      whether it is over the message, and a named entry holds its key. */
  lemma ReportedResult(
    w: World, opts: Opts, entries: seq<Entry>, sig: Sshsig.Signature, data: Bytes,
    result: VerifyResult, errs: seq<Error>)
    requires Reports(w, opts, entries, sig, data, result, errs)
    ensures result.namespace == sig.namespace && result.verification == if Signs(w, sig, data) then Valid else Invalid
    ensures result.entry.Some? ==>
              exists e :: && e in entries && result.entry == Some(Location(e.source, e.line))
                          && e.publicKey.blob == sig.publicKey.blob
  {
    var m :| Selector.Selects(entries, QueryOf(opts, sig, TimeOf(w, opts)), ModeOf(opts), m)
             && result == ResultFor(w, opts, entries, sig, data, m)
             && errs == ErrorsFor(w, opts, entries, sig, data, m);
    Selector.FoundMeans(entries, QueryOf(opts, sig, TimeOf(w, opts)), ModeOf(opts), m);
    if m.Found? {
      assert entries[m.index] in entries;
    }
  }
}
