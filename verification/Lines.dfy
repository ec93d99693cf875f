/** Parsing one allowed signers line
    (parseLine, parseOptions, unquotePrincipals in pkg/allowedsigners/parse.go). */
module Lines {
  import opened Wrappers
  import opened Text
  import opened Keys
  import opened Scanner
  import OptionSyntax
  import Base64
  import Selector

  type Options = Selector.Options
  type Entry = Selector.Entry

  /** What parsing takes from outside: the character check over a whole line,
      the reading of timestamps, and the key parser. */
  datatype Env = Env(legible: string -> bool, time: string -> Option<Instant>, keys: KeyParser)

  datatype OptionError =
    | OpenQuote | EmptyOption | CertAuthority | UnknownOption | BadValue | Unsupported
    | Duplicate | BadTime | EmptyWindow

  datatype LineError =
    | Illegible | UnterminatedQuote | TooFewFields | MissingKey | BadPrincipals | EmptyPrincipal
    | BadOptions(error: OptionError) | BadKey | KeyTypeMismatch

  // ----- options

  const NAMESPACES := "namespaces"
  const VALID_AFTER := "valid-after"
  const VALID_BEFORE := "valid-before"
  const CERT_AUTHORITY := "cert-authority"

  /** One option as written: its name, and its value without quoting. */
  datatype Clause = Clause(name: string, value: string)

  const NO_OPTIONS := Selector.Options([], None, None)

  function UnquotedValue(s: string): Option<string> {
    var t := Trim(s);
    if t == "" || t[0] != '"' then None else OptionSyntax.Unquoted(t)
  }

  function ReadClause(part: string): Result<Clause, OptionError> {
    var p := Trim(part);
    if p == "" then Err(EmptyOption)
    else if p == CERT_AUTHORITY then Err(CertAuthority)
    else
      var n := Find(p, '=');
      if n == |p| then Err(UnknownOption)
      else
        match UnquotedValue(Trim(p[n + 1..]))
        case None => Err(BadValue)
        case Some(v) => Ok(Clause(Trim(p[..n]), v))
  }

  /** The options so far with one more clause. */
  function Absorb(env: Env, o: Options, c: Clause): Result<Options, OptionError> {
    if c.name == NAMESPACES then
      if o.namespaces != [] then Err(Duplicate) else Ok(o.(namespaces := Split(c.value, ',')))
    else if c.name == VALID_AFTER then
      if o.validAfter.Some? then Err(Duplicate)
      else match env.time(c.value)
        case None => Err(BadTime)
        case Some(t) => Ok(o.(validAfter := Some(t)))
    else if c.name == VALID_BEFORE then
      if o.validBefore.Some? then Err(Duplicate)
      else match env.time(c.value)
        case None => Err(BadTime)
        case Some(t) => Ok(o.(validBefore := Some(t)))
    else Err(Unsupported)
  }

  function ReadParts(env: Env, o: Options, parts: seq<string>): Result<Options, OptionError>
    decreases |parts|
  {
    if parts == [] then Ok(o)
    else match ReadClause(parts[0])
      case Err(e) => Err(e)
      case Ok(c) =>
        match Absorb(env, o, c)
        case Err(e) => Err(e)
        case Ok(o') => ReadParts(env, o', parts[1..])
  }

  /** A window that ends no later than it starts is refused. */
  function CheckWindow(o: Options): Result<Options, OptionError> {
    if o.validAfter.Some? && o.validBefore.Some? && !(o.validBefore.value > o.validAfter.value)
    then Err(EmptyWindow) else Ok(o)
  }

  function Windowed(r: Result<Options, OptionError>): Result<Options, OptionError> {
    match r
    case Err(e) => Err(e)
    case Ok(o) => CheckWindow(o)
  }

  function ParsedOptions(env: Env, s: string): Result<Options, OptionError> {
    if Trim(s) == "" then Ok(NO_OPTIONS)
    else match OptionSyntax.PartsOf(s)
      case Unterminated => Err(OpenQuote)
      case Parts(parts) => Windowed(ReadParts(env, NO_OPTIONS, parts))
  }

  method ParseOptions(env: Env, s: string) returns (r: Result<Options, OptionError>)
    ensures r == ParsedOptions(env, s)
  {
    var o := NO_OPTIONS;
    if Trim(s) == "" {
      return Ok(o);
    }
    var split := OptionSyntax.SplitOptions(s);
    if split.Unterminated? {
      return Err(OpenQuote);
    }
    var parts := split.parts;
    assert parts[0..] == parts;
    for i := 0 to |parts|
      invariant ReadParts(env, NO_OPTIONS, parts) == ReadParts(env, o, parts[i..])
    {
      assert parts[i..][0] == parts[i] && parts[i..][1..] == parts[i + 1..];
      var clause := ReadClause(parts[i]);
      if clause.Err? {
        return Err(clause.error);
      }
      var more := Absorb(env, o, clause.value);
      if more.Err? {
        return Err(more.error);
      }
      o := more.value;
    }
    return CheckWindow(o);
  }

  // ----- principals

  /** The first quote pair is removed; nothing may follow it, and backslashes
      are ordinary. */
  function UnquotedPrincipals(s: string): Option<string> {
    var open := Find(s, '"');
    if open == |s| then Some(s) else AfterOpening(s[..open], s[open + 1..])
  }

  function AfterOpening(before: string, rest: string): Option<string> {
    var closing := Find(rest, '"');
    if closing == |rest| then None
    else if closing != |rest| - 1 then None
    else Some(before + rest[..closing])
  }

  // ----- lines

  predicate LooksLikeOptions(s: string) {
    s == CERT_AUTHORITY || '"' in s || ',' in s || '=' in s
  }

  function ParsedLine(env: Env, n: nat, line: string): Result<Entry, LineError> {
    var head := Fields(line, 2);
    if head.Unterminated? then Err(UnterminatedQuote)
    else if |head.fields| < 2 then Err(TooFewFields)
    else
      var count := FieldCount(head.fields[1]);
      var cut := Fields(line, count);
      if cut.Unterminated? then Err(UnterminatedQuote)
      else if |cut.fields| < count then Err(MissingKey)
      else FromFields(env, n, cut.fields, cut.rest)
  }

  function FromFields(env: Env, n: nat, fields: seq<string>, comment: string): Result<Entry, LineError>
    requires |fields| >= 3
  {
    match UnquotedPrincipals(fields[0])
    case None => Err(BadPrincipals)
    case Some(principal) =>
      if principal == "" then Err(EmptyPrincipal)
      else if LooksLikeOptions(fields[1]) then
        WithOptions(env, n, principal, ParsedOptions(env, fields[1]), fields, 2, comment)
      else WithOptions(env, n, principal, Ok(NO_OPTIONS), fields, 1, comment)
  }

  function WithOptions(
    env: Env, n: nat, principal: string, options: Result<Options, OptionError>, fields: seq<string>, keyTypeIdx: nat,
    comment: string)
    : Result<Entry, LineError>
  {
    match options
    case Err(e) => Err(BadOptions(e))
    case Ok(o) => FromKey(env, n, principal, o, fields, keyTypeIdx, comment)
  }

  function FromKey(
    env: Env, n: nat, principal: string, o: Options, fields: seq<string>, keyTypeIdx: nat, comment: string)
    : Result<Entry, LineError>
  {
    if |fields| <= keyTypeIdx + 1 then Err(MissingKey)
    else WithKey(env, n, principal, o, fields[keyTypeIdx], fields[keyTypeIdx + 1], comment)
  }

  /** The key must parse, and be of the stated type. */
  function WithKey(
    env: Env, n: nat, principal: string, o: Options, keyType: string, keyBase64: string, comment: string)
    : Result<Entry, LineError>
  {
    match Base64.ParsePublicKey(env.keys, keyBase64)
    case None => Err(BadKey)
    case Some(pk) =>
      if pk.typ != keyType then Err(KeyTypeMismatch)
      else Ok(Selector.Entry("", n, principal, o, keyType, keyBase64, comment, pk))
  }

  function FieldCount(second: string): nat {
    if LooksLikeOptions(second) then 4 else 3
  }

  /** Once both scans have succeeded, the fields decide. */
  lemma ByFields(env: Env, n: nat, line: string, fields: seq<string>, comment: string)
    requires Fields(line, 2).Cut? && |Fields(line, 2).fields| == 2
    requires |fields| >= 3 && Fields(line, 2).fields[1] == fields[1] && |fields| == FieldCount(fields[1])
    requires Fields(line, |fields|) == Cut(fields, comment)
    ensures ParsedLine(env, n, line) == FromFields(env, n, fields, comment)
  {
  }

  /** The line number goes into the entry and nowhere else. */
  lemma LineNumberIsKept(env: Env, n: nat, k: nat, line: string)
    ensures ParsedLine(env, n, line).Ok? ==> ParsedLine(env, n, line).value.line == n
    ensures ParsedLine(env, k, line)
         == match ParsedLine(env, n, line)
            case Err(e) => Err(e)
            case Ok(entry) => Ok(entry.(line := k))
  {
    var head := Fields(line, 2);
    if head.Cut? && |head.fields| == 2 {
      var cut := Fields(line, FieldCount(head.fields[1]));
      if cut.Cut? && |cut.fields| >= 3 {
        FieldsIgnoreNumber(env, n, k, cut.fields, cut.rest);
      }
    }
  }

  lemma FieldsIgnoreNumber(env: Env, n: nat, k: nat, fields: seq<string>, comment: string)
    requires |fields| >= 3
    ensures FromFields(env, n, fields, comment).Ok? ==> FromFields(env, n, fields, comment).value.line == n
    ensures FromFields(env, k, fields, comment)
         == match FromFields(env, n, fields, comment)
            case Err(e) => Err(e)
            case Ok(entry) => Ok(entry.(line := k))
  {
  }
}
