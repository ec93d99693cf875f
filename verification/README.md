# ssh-sign: a verified model

This project models how `ssh-sign` decides to trust a signature, and proves
that the decision is the documented one. It follows the program's own
structure:

- `Text`, `Wrappers`: byte strings and the two outcome types.
- `Glob`: OpenSSH patterns, the single-backtrack matcher and pattern-lists.
- `Scanner`, `OptionSyntax`, `Lines`: the quote-aware scanners of an allowed
  signers line and the line parser. `Printing` writes lines, `Expressible`
  says which entries a line can hold.
- `Selector`, `Files`: selecting an entry in the three namespace modes,
  reading, merging and searching files.
- `Keys`: keys, certificates and their validity.
- `Wire`, `Base64`, `Sshsig`: the signature format and its checks. `Pem`,
  `Armor`: armored files.
- `Flow`: the verify flow and the acceptance policy.
- `Args`, `Spellings`: option parsing, and the ways to write options.
- `JsonEscape`, `StdinReader`: the JSON control escaper and the standard-input
  reader.

## Conventions

- A `char` stands for one byte. Wire formats use `Byte`, a char below U+0100.
- Times are integers in nanoseconds. Certificates are judged in whole seconds,
  rounded down, as `time.Time.Unix` does.
- Loops of the source are methods with loops, proved against functions whose
  properties are then proved as lemmas. Objects that the source mutates are
  classes. Code made of branches and calls is functions.
- Taken from outside as function values: the key parser, the hash, the
  signature check, the timestamp parser and the character check over a line.
  The key parser is assumed to be faithful (`Keys.Faithful`): the key parsed
  from a blob has that blob, and the types with the certificate suffix are
  those of certificates.
- `Flow` holds for any way of reading a line; `Flow.Program` is the one that
  reads the allowed signers format.
- `Pem` follows `encoding/pem` of the Go release that `go.mod:3` names, which is
  not part of the repository: an END line belongs to the last header before it,
  and if the two do not enclose a block the search goes on behind it.
- Where a definition is shared by the program's code and the policy, a lemma
  says what it means in plain terms (`Flow.PolicyMeans`, `Glob.PermitsMeans`,
  `Sshsig.UsableFormats`, `Files.LineAdds` and others).
- A few predicates are compared with `true`, and a few bodies hidden, where a
  proof carries them along without opening them.

## Where code and documentation part

- `doc/ALLOWED_SIGNERS.md:91-99` takes a backslash in principals for an
  ordinary byte. The unquoter follows this, but the field scanner in front of it
  lets a backslash escape the closing quote. A quoted principal is cut off where
  it ends exactly when it does not end in a backslash, whatever else the line
  holds (`Expressible.QuotedPrincipalIsCut`). When it does, the field is left
  open or goes on behind the escaped quote, and the line is refused in either
  case (`Expressible.ScannersDisagree`). A principal that has a blank and ends in
  a backslash cannot be written at all.
- The comment in `pkg/sshsig/certificate.go:18-20` gives a plain window. A
  certificate whose expiry is 2^63 or later is refused even inside it, unless
  the expiry is the infinity mark (`Keys.DistantExpiryIsRefused`,
  `Keys.DistantExpiryExample`).

## Model

| member | source | states |
|---|---|---|
| Glob.WildcardMatch | pkg/allowedsigners/pattern.go:39-69 | the loop with one backtrack point returns true exactly when the pattern matches, within a bounded number of rounds |
| Glob.OldStarIsSubsumed | pkg/allowedsigners/pattern.go:41-58 | forgetting an older star loses no match: what retrying it could match, the new star matches from here |
| Glob.RetryIsHopelessAtEnd | pkg/allowedsigners/pattern.go:64-68 | once the value is used up, letting the latest star swallow more cannot succeed |
| Glob.MatchesConcat | pkg/allowedsigners/parse_fuzz_test.go:67-95 | a pattern cut anywhere matches exactly the values that can be cut to match both halves |
| Glob.MatchesOneByte | doc/ALLOWED_SIGNERS.md:70-76 | a star matches anything, a question mark any one byte, any other byte itself only |
| Glob.AllowanceIsProduct | pkg/allowedsigners/pattern_test.go:230-247 | the bound on rounds is the pattern's length plus n(n+2) for a value of n bytes, so matching is not exponential |
| Glob.PatternsMatch | pkg/allowedsigners/pattern.go:16-34 | true exactly when some positive element matches and no negated one does, in any order |
| Glob.PatternListMatch | pkg/allowedsigners/pattern.go:11-14 | the same for a comma-separated list |
| Glob.PermitsMeans | pkg/allowedsigners/pattern.go:16-34 | what a list permits, with the negation mark written out: some element without it matches, and what follows it in another never does |
| Glob.NegationExcludes | pkg/allowedsigners/pattern.go:20-31 | adding a negated element anywhere excludes exactly what its pattern matches |
| Glob.PositiveAdmits | pkg/allowedsigners/pattern.go:20-33 | adding a positive element admits what it matches, unless that is excluded |
| Glob.EmptyPatternsAreInert | pkg/allowedsigners/pattern_test.go:45-61 | empty elements, negated or not, never change what a list permits for a non-empty value |
| Glob.PermitsIsSetBased | pkg/allowedsigners/pattern.go:16-34 | order and repetition of elements do not matter |
| Text.SplitJoins | pkg/allowedsigners/pattern.go:11-14 | splitting finds separator-free pieces that join to the text |
| Text.JoinSplits | pkg/allowedsigners/pattern.go:11-14 | and there is one way to do so |
| Text.TrimMeans | pkg/allowedsigners/parse.go:108-117 | trimming takes spaces and tabs off both ends, and all of them |
| Scanner.SplitFields | pkg/allowedsigners/parse.go:294-339 | the scanning loop with lookahead cuts where the quoting automaton says |
| Scanner.FieldsAreClosed | pkg/allowedsigners/parse.go:306-338 | every field is non-empty, closes its quotes and holds no unquoted blank |
| Scanner.ScansAgree | pkg/allowedsigners/parse.go:151-166 | the fields of a scan with a smaller limit are a prefix of those with a larger one, and all of them if it found fewer than it asked for |
| Scanner.FieldThenBlank | pkg/allowedsigners/parse.go:321-331 | a closed field followed by a blank is cut off there, and the scan goes on after the blanks |
| OptionSyntax.SplitOptions | pkg/allowedsigners/parse.go:342-376 | the options loop cuts at unquoted commas by the same automaton |
| OptionSyntax.OpenQuoteIsTheOnlyError | pkg/allowedsigners/parse.go:371-373 | splitting options fails exactly when a quote is left open |
| OptionSyntax.OptionsAreJoinable | pkg/allowedsigners/parse.go:341-376 | the parts joined with commas are the input, and none has an unquoted comma |
| OptionSyntax.JoinedOptions | pkg/allowedsigners/parse.go:341-376 | joining closed parts and splitting again gives back the parts |
| OptionSyntax.Unquote | pkg/allowedsigners/parse.go:428-444 | the unquoting loop returns the value its text spells, or fails on a bare inner quote |
| OptionSyntax.UnescapeInvertsEscape | pkg/allowedsigners/parse.go:425-444 | a text spells a value exactly when it is the value with its quotes escaped, so each value has one spelling |
| Lines.ParseOptions | pkg/allowedsigners/parse.go:224-289 | the options loop yields the options of its clauses, or the first error |
| Printing.QuotedIsClosed | pkg/allowedsigners/parse.go:391-404 | a quoted option value is closed exactly when it does not end in a backslash |
| Printing.PrintedOptions | pkg/allowedsigners/parse.go:223-289 | an options field written from clauses reads as those clauses, duplicates and bad times included |
| Printing.PrincipalReadsBack | pkg/allowedsigners/parse.go:406-423 | expressible principals, bare or in quotes from any byte on, survive field scanning and unquoting |
| Expressible.PrincipalsMean | pkg/allowedsigners/parse.go:406-423 | a field without quotes is its own principals; otherwise one pair of quotes, which ends the field, is left out |
| Printing.ParseInvertsPrint | pkg/allowedsigners/parse.go:150-221 | printing any expressible entry and parsing the line gives the same entry, or the same error |
| Printing.CollectAccepts | pkg/allowedsigners/parse.go:223-289 | clauses are accepted exactly when each is legal, none repeats another and none sets what is set already |
| Printing.CollectMeans | pkg/allowedsigners/parse.go:223-289 | accepted clauses are all carried by the options, and what none of them names stays as it was |
| Printing.PrintedLineMeans | pkg/allowedsigners/parse.go:150-289 | a printed line is accepted exactly when its clauses are legal and distinct, its window is not empty and its key has the type it names; the entry then says exactly what was written |
| Expressible.AcceptedValue | pkg/allowedsigners/parse.go:235-255 | no option value that survives all scanners ends in a backslash |
| Expressible.AcceptedPrincipal | pkg/allowedsigners/parse.go:174-182 | an accepted principals field is exactly what printing its principals gives, in one of the two ways to quote |
| Expressible.QuotedPrincipalIsCut | pkg/allowedsigners/parse.go:291-339 | on any line, a quoted principal is cut off exactly where it ends if and only if it does not end in a backslash |
| Expressible.EscapedQuoteGoesOn | pkg/allowedsigners/parse.go:306-339 | if it does, its field is left open or goes on behind the escaped quote and cannot be unquoted |
| Expressible.ScannersDisagree | doc/ALLOWED_SIGNERS.md:91-99 | a quoted principal ending in a backslash could be unquoted by itself, but every line that starts with it is refused |
| Expressible.QuotedBackslashExample | pkg/allowedsigners/parse.go:310-336 | a concrete line that ends as unterminated for this reason |
| Expressible.AcceptedLineIsPrintable | pkg/allowedsigners/parse.go:150-221 | whatever a trimmed line is accepted as is the meaning of a draft that prints exactly the line's fields and comment |
| Expressible.LineMeans | pkg/allowedsigners/parse.go:150-221 | a trimmed line yields an entry exactly when its fields and comment are those of an expressible draft that means the entry |
| Expressible.AcceptedExactlyPrintable | pkg/allowedsigners/parse.go:150-221 | the entries trimmed lines yield are exactly the meanings of expressible drafts |
| Expressible.CommentIsOpaque | pkg/allowedsigners/parse.go:291-293 | replacing the comment by any text never changes the fields |
| Expressible.LaterChecksAreDead | pkg/allowedsigners/parse.go:162-199 | both scans see the same second field; the later missing-fields check and the unterminated-options error cannot occur |
| Keys.CertificateWindow | pkg/sshsig/certificate.go:32-48 | the checks on wrapped 64-bit values accept exactly user certificates in their window in unbounded integers |
| Keys.DistantExpiryIsRefused | pkg/sshsig/certificate.go:44-47 | a certificate inside its plain window is refused exactly when it expires at 2^63 or later, short of infinity |
| Keys.DistantExpiryExample | pkg/sshsig/certificate.go:44-47 | a concrete certificate inside its plain window that is refused |
| Keys.SameKeyIsEquality | pkg/sshsig/publickey.go:17-19 | parsed keys count as the same exactly when they are equal |
| Keys.PublicKeyTypeMeans | pkg/sshsig/signature.go:129-136 | the signing type is that of the key inside a certificate, also of one an agent holds, and otherwise the key's own |
| Selector.SelectionIsUnique | pkg/allowedsigners/verify.go:80-137 | the declarative selection rule allows one outcome only |
| Selector.OutcomeIsExact | pkg/allowedsigners/verify.go:122-136 | a search succeeds exactly when an entry is usable, and fails with constraints exactly when there is a candidate and none is |
| Selector.ModesAgree | pkg/allowedsigners/verify.go:47-53 | checked and required modes succeed together, ignoring namespaces only helps, and stricter modes never choose an earlier entry |
| Selector.EveryCandidateComplains | pkg/allowedsigners/verify.go:97-114 | with nobody usable there is one message per candidate |
| Selector.NamespaceVerdictIsExact | pkg/allowedsigners/verify.go:27-42 | matched means some candidate's restriction permits the namespace, mismatched that every candidate's own restriction refuses it |
| Selector.SelectsOverAppend | pkg/allowedsigners/parse.go:81-90 | searching a merged file is combining the searches of its parts in order |
| Files.Examine | pkg/allowedsigners/verify.go:91-114 | one entry is passed over, refused for the first reason that applies, or accepted |
| Files.File.MatchEntry | pkg/allowedsigners/verify.go:80-137 | the one-pass search with its fallback and counters obeys the declarative rule in all three modes |
| Files.File.constructor | pkg/allowedsigners/types.go:14-22 | a new file is empty |
| Files.File.Skip | pkg/allowedsigners/parse.go:35-41 | the error is counted, and kept if there is room |
| Files.SummaryMeans | pkg/allowedsigners/parse.go:35-41 | a file counts all its errors and keeps the first 64 |
| Files.File.Append | pkg/allowedsigners/parse.go:81-90 | the file becomes the merge of both, also when appended to itself |
| Files.File.Parse | pkg/allowedsigners/parse.go:92-126 | a file holds the entries of its lines, and the first 64 of its errors with their total |
| Files.File.ParseSource | pkg/allowedsigners/parse.go:66-79 | the same with the source named on every entry and kept error |
| Files.LineAdds | pkg/allowedsigners/parse.go:101-121 | a line adds an error if it fails the character check, nothing if it is blank or a comment, and otherwise the one entry or error of parsing it trimmed |
| Files.MergeIsConcatenation | pkg/allowedsigners/parse.go:81-90 | merging gives the concatenated entries and the first 64 of the concatenated errors |
| Files.MergeIsAssociative | pkg/allowedsigners/parse.go:81-90 | on files the program builds, merging is associative with the empty file as unit |
| Files.ReadingIsConcatenation | pkg/allowedsigners/parse.go:81-82 | reading the lines of two files in a row is merging the two files, with the lines of the second renumbered |
| Lines.LineNumberIsKept | pkg/allowedsigners/parse.go:150-221 | a line is read the same wherever it stands: its number goes into the entry and nowhere else |
| Files.PrintedLineIsRead | pkg/allowedsigners/parse.go:101-121 | a printed line is read as its entry, unless it starts with a comment sign, which only an unquoted principal can |
| Base64.DecodeInvertsEncode | pkg/sshsig/protocol.go:338 | decoding base64 undoes encoding |
| Base64.DecodeIsExact | pkg/sshsig/publickey.go:57 | what decodes is whole groups of digits with at most two padding signs at the end |
| Base64.DigitsAreTheAlphabet | pkg/sshsig/publickey.go:57 | the digits are A to Z, a to z, 0 to 9, plus and slash, in this order |
| Wire.TakeInvertsPut | pkg/sshsig/protocol.go:323-334 | a written string under 2^32 bytes is read back with what follows it |
| Wire.PutInvertsTake | pkg/sshsig/protocol.go:196-201 | a string that was read has one written form |
| Wire.BigEndian | pkg/sshsig/protocol.go:323-334 | integers are written most significant byte first |
| Sshsig.ValidateSignatureFormat | pkg/sshsig/protocol.go:303-320 | accepts the key's own type, and for RSA both SHA-2 formats |
| Sshsig.ParseInvertsMarshal | pkg/sshsig/protocol.go:195-228 | parsing a marshalled signature gives it back, or the error its checks give |
| Sshsig.BlobLayout | pkg/sshsig/protocol.go:323-334 | the blob is the magic, the version, and the key, namespace, reserved field, hash algorithm and signature as wire strings, the last of format, signature proper and trailing bytes |
| Sshsig.MarshalInvertsParse | pkg/sshsig/protocol.go:195-265 | marshalling an accepted blob's signature gives the blob byte for byte; its reserved field is empty and trailing bytes are a security key's five |
| Sshsig.ParseIsExact | pkg/sshsig/protocol.go:195-228 | the blobs that parse to a signature are exactly its marshalled form, if it passes the checks and its key is the one its blob holds |
| Sshsig.ParseIsInjective | pkg/sshsig/protocol.go:195-228 | different blobs never parse to the same signature |
| Sshsig.UsableFormats | pkg/sshsig/protocol.go:231-265 | key by key, the structural and the algorithm check pass together exactly on well-formed signatures in a format usable by the key, or by the key inside a certificate |
| Sshsig.VerifiedReadsBack | pkg/sshsig/protocol.go:174-193 | whatever verifies can be marshalled and read back, in a format its key may use |
| Sshsig.SignedDataIsInjective | pkg/sshsig/protocol.go:108-116 | the signed bytes determine namespace, hash algorithm and digest |
| Sshsig.SignedDataLayout | pkg/sshsig/protocol.go:108-116 | the signed bytes are the magic, then namespace, an empty reserved field, hash algorithm and digest, each read back as a wire string |
| Armor.ArmorBlob | pkg/sshsig/protocol.go:336-353 | the wrapping loop writes the armored form |
| Armor.ArmoredLength | pkg/sshsig/protocol.go:336-353 | the armored length is 58 plus the base64 length plus one per 70 columns begun |
| Pem.FoundIsEnclosed | pkg/sshsig/signature.go:67-73 | a block that is found, even behind malformed ones, starts at a header and ends at an END line, and its header starts the text or a later line |
| Armor.DecodeArmored | pkg/sshsig/signature.go:67-70 | behind any other lines without an END line, the block of an armored blob decodes to the blob, leaving exactly what followed |
| Armor.LaterBlockIsRefused | pkg/sshsig/signature.go:71-75 | a block that pem.Decode finds behind the first header is refused for a second header |
| Armor.SecondHeaderIsExact | pkg/sshsig/signature.go:71-88 | a signature's block is refused for a second header exactly when it is not the one the first header starts; otherwise only what follows it can be wrong |
| Armor.GarbageBeforeIsRefused | pkg/sshsig/signature_test.go:265-269 | a header and garbage before a valid armored signature is refused for a second header |
| Armor.ReadInvertsArmor | pkg/sshsig/signature.go:51-99 | reading an armored valid signature with trailing whitespace gives it back exactly when the length is within the limit |
| Armor.AcceptedFileIsOneBlock | pkg/sshsig/signature.go:51-99 | every file that reads is header, base64 text with whitespace, footer and whitespace, and the signature is that of its base64 text; this rests on the check for a second header |
| Flow.ParseAllowedSigners | pkg/flow/verify.go:182-216 | the entries of the lone reader, or of all named files in order; nothing if any read fails |
| Flow.ResolutionsDecide | pkg/flow/verify.go:220-320 | neither resolution reports an error exactly when some entry vouches for the signature |
| Flow.SilentInvalidIsReported | pkg/flow/verify.go:264-288 | a designation that is invalid without an error always comes with an authentication error |
| Flow.DesignationMeans | pkg/flow/verify.go:255-289 | what each designation status says about the file's entries |
| Flow.AuthenticationMeans | pkg/flow/verify.go:291-320 | what each authentication status says about the file's entries |
| Flow.OutcomeMeans | pkg/flow/verify.go:138-179 | the error list is empty exactly when no status is invalid, and exactly when the policy accepts |
| Flow.StricterOptionsAcceptLess | doc/ALLOWED_SIGNERS.md:172-188 | accepting without -n implies accepting with the signature's namespace, which implies accepting with -N |
| Flow.RunChecks | pkg/flow/verify.go:138-179 | all checks run; statuses, identity, location and errors are those of the selected entry, and no error means the policy holds |
| Flow.Verify | pkg/flow/verify.go:84-180 | a result without errors is returned exactly when the end-to-end acceptance policy holds; each way to fail before or at the message has its own errors |
| Flow.PolicyMeans | pkg/flow/verify.go:84-180 | accepted means, in plain terms: all is given and readable, the check passes on the signed data, the certificate is in force to the nanosecond, and a listed entry has the very key and allows principal, time and namespace |
| Flow.AcceptedResult | pkg/flow/verify.go:133-180 | a result without errors names an entry that allows the signature, with its file, line and principals |
| Flow.ReportedResult | pkg/flow/verify.go:131-169 | with any errors, the namespace is the signature's, verification tells whether the check passed, and a named entry has its key |
| Flow.OptionsMean | pkg/flow/verify.go:85-111 | which options are refused, and for what |
| Args.ApplyMeans | internal/args/args.go:272-282 | string flags hold the last value given, booleans whether, counts how often, changed if at all |
| Spellings.AllWrittenScan | internal/args/args.go:192-270 | uses written as --name, --name=value, --name value, -s, -s with an attached or a following value, or in clusters, are parsed as these uses, and parsing goes on with what follows |
| Spellings.ParsedExactly | internal/args/args.go:192-270 | parsing succeeds exactly on lists written in these ways up to their end, an end mark or a positional argument, from which all is left over |
| Spellings.CanonicalKeepsMeaning | internal/args/args.go:192-270 | one long token per use followed by the end mark and the rest means the same as the original list |
| Args.ListedNames | internal/args/args.go:284-326 | a name is missing exactly when it is asked for and its flag was not given, and empty exactly when its flag was given the empty text |
| Args.Set.constructor | internal/args/args.go:56-61 | a new set has the help flag only |
| Args.Set.Add | internal/args/args.go:81-94 | a well-formed flag that clashes with none is registered, and names stay unique |
| Args.Set.SetFlag | internal/args/args.go:272-282 | one use is applied to one flag |
| Args.Set.ParseLong | internal/args/args.go:219-244 | one long argument sets what it says, or fails as it should |
| Args.Set.ParseShort | internal/args/args.go:246-270 | a cluster sets its flags in order, a string flag taking the rest or the next argument |
| Args.Set.ParseFlags | internal/args/args.go:192-217 | the flags become those after all uses, the rest is returned, and earlier uses stay after an error |
| Args.Set.CheckGroup | internal/args/args.go:299-310 | a group passes exactly when at most one member was given, else the first two given members are named |
| Args.Set.Validate | internal/args/args.go:284-326 | passes exactly when the flags are satisfied; otherwise all missing flags, else the first two given members of the first conflicting group, else all empty values |
| Args.Set.Parse | internal/args/args.go:152-166 | syntax errors come first, then help, then positional arguments, then the refusal that applies |
| Args.Set.ParseCommand | internal/args/args.go:168-190 | the command is the first argument left, if it is known, and what follows is passed on with the refusal that applies |
| JsonEscape.EscapeJSONControls | pkg/cli/format.go:74-101 | the segment-copying loop equals the per-character escaping |
| JsonEscape.EscapeIsComplete | pkg/cli/format.go:74-101 | the output holds no DEL and no C1 control |
| JsonEscape.CleanIsKept | pkg/cli/format.go:97-99 | exactly the texts without such controls are returned unchanged |
| JsonEscape.EscapeIsIdempotent | pkg/cli/format.go:74-101 | escaping twice is escaping once |
| JsonEscape.EscapeIsLossless | pkg/cli/format.go:74-75 | every valid JSON string body decodes to the same text after escaping |
| JsonEscape.DocumentsAreKept | main.go:68-77 | escaping a whole document escapes the bodies of its strings and nothing else, so its structure and every string's text are kept |
| JsonEscape.EscapeExamples | pkg/cli/format.go:93 | the escapes have four lower-case hex digits |
| StdinReader.SignatureStdinReader.constructor | internal/cmd/signature_stdin.go:26-32 | a new reader has read nothing |
| StdinReader.SignatureStdinReader.Read | internal/cmd/signature_stdin.go:34-67 | every call answers from one delivery fixed by the input, and the source is drained once |
| StdinReader.ReadRun | internal/cmd/signature_stdin.go:34-67 | the same for any sequence of reads |
| StdinReader.RunsDeliverTheText | internal/cmd/signature_stdin.go:61-66 | whatever the buffer sizes, the reads deliver the text in order and as much as asked for |
| StdinReader.EndComesLast | internal/cmd/signature_stdin.go:66 | the end is reported exactly once everything was delivered |
| StdinReader.FaultsAreSticky | internal/cmd/signature_stdin.go:63-65 | a failed reader repeats its error |
| StdinReader.DeliversPastedText | internal/cmd/signature_stdin.go:42-60 | a non-empty text is delivered exactly when it stands behind at most 1024 bytes of whitespace in whole lines, and nothing exactly when there is only whitespace, within the size limit |
| StdinReader.FaultsMean | internal/cmd/signature_stdin.go:36-59 | which fault is reported: a failing source, too much input, too much whitespace, or a text not at the start of a line, in this order |
| StdinReader.OnlySpaceIsEmpty | internal/cmd/signature_stdin.go:47-51 | whitespace alone reads as empty, whatever its length within the size limit |
| StdinReader.PastedSignatureIsRead | internal/cmd/signature_stdin.go:26-27 | an armored signature after up to 1024 bytes of blank lines is read back |

## Left out

- `internal/config/config.go` and alias lookup in `internal/cmd/config.go`: they turn names into file paths before anything is verified; no decision about a signature depends on them.
- Reading files in `internal/cmd/config.go`, permissions, Landlock, the agent, terminals, exit codes, logging and colour: input and output without a deep invariant.
- The sign, check and inspect flows, and the readable forms of keys and flags: thin compositions of what is modelled.
- Cryptography, key parsing and timestamp formats: function values, as said above. What the hash does with an algorithm that the checks refuse is not modelled.
- UTF-8 and graphic characters in `validateLineCharacters`: one predicate over the line. In `parseShort` a short flag is one char.
- The line scanner of the standard library and its size limit: a given list of lines and whether reading failed after them.
- Error texts: error kinds, counts and order only.
- Flag targets that alias each other, usage texts and help rendering: every flag owns its value.
- Nil options and nil signatures: the types of the model exclude them; readers that are not given are modelled.
- Header fields of an armored block: only whether there are any, since any is refused.
- Files.File.Parse: the number of entries is not limited, as in the source.
- Keys.CertificateWindow: the signature of the certificate authority and the certificate's own principals are not checked, as in the source.
