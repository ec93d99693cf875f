/** Allowed signers files: reading, merging and searching
    (File in pkg/allowedsigners/types.go, its methods in parse.go and verify.go). */
module Files {
  import opened Wrappers
  import opened Text
  import opened Keys
  import opened Lines
  import opened Selector
  import Glob
  import Printing
  import Expressible

  datatype ParseError = ParseError(source: string, line: nat, error: LineError)

  /** How many parse errors a file keeps; the rest are only counted. */
  const MAX_SKIPPED := 64

  // ----- the value of a file

  datatype FileData = FileData(entries: seq<Entry>, skipped: seq<ParseError>, skippedCount: nat)

  /** The first errors, up to the limit. */
  function Capped(errors: seq<ParseError>): seq<ParseError> {
    if |errors| <= MAX_SKIPPED then errors else errors[..MAX_SKIPPED]
  }

  /** A file with these entries in which these errors occurred, in order. */
  function Summary(entries: seq<Entry>, errors: seq<ParseError>): FileData {
    FileData(entries, Capped(errors), |errors|)
  }

  /** A file counts all its errors and keeps the first 64. */
  lemma SummaryMeans(entries: seq<Entry>, errors: seq<ParseError>)
    ensures var f := Summary(entries, errors);
            && f.entries == entries && f.skippedCount == |errors|
            && |f.skipped| == (if |errors| < 64 then |errors| else 64) && f.skipped <= errors
  {
  }

  /** Errors added one by one while there is room. */
  function Kept(kept: seq<ParseError>, more: seq<ParseError>): seq<ParseError>
    decreases |more|
  {
    if more == [] then kept
    else Kept(if |kept| < MAX_SKIPPED then kept + [more[0]] else kept, more[1..])
  }

  function Merge(f: FileData, g: FileData): FileData {
    FileData(f.entries + g.entries, Kept(f.skipped, g.skipped), f.skippedCount + g.skippedCount)
  }

  lemma {:induction false} KeptIsPrefix(kept: seq<ParseError>, more: seq<ParseError>)
    requires |kept| <= MAX_SKIPPED
    ensures Kept(kept, more) == Capped(kept + more)
    decreases |more|
  {
    if more == [] {
      assert kept + more == kept;
    } else if |kept| < MAX_SKIPPED {
      KeptIsPrefix(kept + [more[0]], more[1..]);
      assert kept + [more[0]] + more[1..] == kept + more;
    } else {
      KeptIsPrefix(kept, more[1..]);
      assert Capped(kept + more[1..]) == kept && Capped(kept + more) == kept;
    }
  }

  lemma CappedTwice(a: seq<ParseError>, b: seq<ParseError>)
    ensures Capped(Capped(a) + Capped(b)) == Capped(a + b)
  {
  }

  /** Merging is concatenation: entries, errors and their count come out as if
      the second file's lines followed the first's. */
  lemma MergeIsConcatenation(e: seq<Entry>, x: seq<ParseError>, e': seq<Entry>, x': seq<ParseError>)
    ensures Merge(Summary(e, x), Summary(e', x')) == Summary(e + e', x + x')
  {
    KeptIsPrefix(Capped(x), Capped(x'));
    CappedTwice(x, x');
  }

  /** Every file the program builds. */
  ghost predicate Reachable(f: FileData) {
    exists x: seq<ParseError> :: f == Summary(f.entries, x)
  }

  lemma MergeIsAssociative(f: FileData, g: FileData, h: FileData)
    requires Reachable(f) && Reachable(g) && Reachable(h)
    ensures Reachable(Merge(f, g))
    ensures Merge(Merge(f, g), h) == Merge(f, Merge(g, h))
    ensures Merge(f, Summary([], [])) == f == Merge(Summary([], []), f)
  {
    hide Merge, Kept, Capped;
    var x: seq<ParseError> :| f == Summary(f.entries, x);
    var y: seq<ParseError> :| g == Summary(g.entries, y);
    var z: seq<ParseError> :| h == Summary(h.entries, z);
    MergeIsConcatenation(f.entries, x, g.entries, y);
    MergeIsConcatenation(g.entries, y, h.entries, z);
    MergeIsConcatenation(f.entries + g.entries, x + y, h.entries, z);
    MergeIsConcatenation(f.entries, x, g.entries + h.entries, y + z);
    assert x + y + z == x + (y + z) && f.entries + g.entries + h.entries == f.entries + (g.entries + h.entries);
    MergeIsConcatenation(f.entries, x, [], []);
    MergeIsConcatenation([], [], f.entries, x);
    assert x + [] == x && [] + x == x && f.entries + [] == f.entries && [] + f.entries == f.entries;
  }

  // ----- the lines of a file

  /** What the line of a given number contributes: nothing, an entry, or an error. */
  type LineReader = (nat, string) -> Option<Result<Entry, LineError>>

  function ReadLine(env: Env, n: nat, line: string): Option<Result<Entry, LineError>> {
    if !env.legible(line) then Some(Err(Illegible))
    else
      var trim := Trim(line);
      if trim == "" || trim[0] == '#' then None else Some(ParsedLine(env, n, trim))
  }

  /** The reader of the allowed signers format. */
  function FormatReader(env: Env): LineReader {
    (n: nat, line: string) => ReadLine(env, n, line)
  }

  function EntryOf(read: LineReader, n: nat, line: string): seq<Entry> {
    match read(n, line)
    case Some(Ok(e)) => [e]
    case _ => []
  }

  function ErrorOf(read: LineReader, n: nat, line: string): seq<ParseError> {
    match read(n, line)
    case Some(Err(e)) => [ParseError("", n, e)]
    case _ => []
  }

  function EntriesOf(read: LineReader, lines: seq<string>): seq<Entry> {
    if lines == [] then []
    else EntriesOf(read, lines[..|lines| - 1]) + EntryOf(read, |lines|, lines[|lines| - 1])
  }

  function ErrorsOf(read: LineReader, lines: seq<string>): seq<ParseError> {
    if lines == [] then []
    else ErrorsOf(read, lines[..|lines| - 1]) + ErrorOf(read, |lines|, lines[|lines| - 1])
  }

  /** The same reader for lines that follow `before` others. */
  function Later(read: LineReader, before: nat): LineReader {
    (n: nat, line: string) => read(before + n, line)
  }

  function FileOf(read: LineReader, lines: seq<string>): FileData {
    Summary(EntriesOf(read, lines), ErrorsOf(read, lines))
  }

  // ----- what one line adds

  predicate OnlyBlanks(line: string) {
    forall i | 0 <= i < |line| :: line[i] == ' ' || line[i] == '\t'
  }

  /** Whether the first byte that is no blank is a comment sign. */
  predicate IsComment(line: string) {
    exists i :: 0 <= i < |line| && line[i] == '#' && OnlyBlanks(line[..i])
  }

  lemma BlankPrefix(line: string, k: nat)
    requires k <= |line| && OnlyBlanks(line[..k])
    ensures forall i | 0 <= i < k :: line[i] == ' ' || line[i] == '\t'
  {
    forall i | 0 <= i < k ensures line[i] == ' ' || line[i] == '\t' {
      assert line[..k][i] == line[i];
    }
  }

  /** The first byte that is no blank decides both. */
  lemma FirstByte(line: string, k: nat)
    requires k < |line| && OnlyBlanks(line[..k]) && line[k] != ' ' && line[k] != '\t'
    ensures !OnlyBlanks(line) && (IsComment(line) <==> line[k] == '#')
  {
    BlankPrefix(line, k);
    forall i | 0 <= i < |line| && line[i] == '#' && OnlyBlanks(line[..i]) ensures i == k {
      BlankPrefix(line, i);
    }
  }

  lemma {:induction false} TrimStarts(line: string)
    ensures Trim(line) == "" <==> OnlyBlanks(line)
    ensures Trim(line) != "" && Trim(line)[0] == '#' <==> IsComment(line)
  {
    var before, after := TrimMeans(line);
    var t := Trim(line);
    if t == "" {
      AllBlank(line, before + after);
    } else {
      var k := |before|;
      assert line[..k] == before && line[k] == t[0];
      forall i | 0 <= i < k ensures before[i] == ' ' || before[i] == '\t' {
        assert before[i] in before + after;
      }
      FirstByte(line, k);
    }
  }

  lemma AllBlank(line: string, blanks: string)
    requires line == blanks && forall c | c in blanks :: c == ' ' || c == '\t'
    ensures OnlyBlanks(line) && !IsComment(line)
  {
    forall i | 0 <= i < |line| ensures line[i] == ' ' || line[i] == '\t' {
      assert line[i] in blanks;
    }
  }

  /** What the next line adds to a file: an error if it fails the character
      check, nothing if it is blank or a comment, and otherwise the one entry or
      the one error that parsing it without its outer blanks gives. */
  lemma LineAdds(env: Env, lines: seq<string>, line: string)
    ensures var (read, n) := (FormatReader(env), |lines| + 1);
            && FileOf(read, []) == FileData([], [], 0)
            && FileOf(read, lines + [line])
               == if !env.legible(line) then Merge(FileOf(read, lines), FileData([], [ParseError("", n, Illegible)], 1))
                  else if OnlyBlanks(line) || IsComment(line) then FileOf(read, lines)
                  else match ParsedLine(env, n, Trim(line))
                    case Ok(e) => Merge(FileOf(read, lines), FileData([e], [], 0))
                    case Err(e) => Merge(FileOf(read, lines), FileData([], [ParseError("", n, e)], 1))
  {
    var read := FormatReader(env);
    var all := lines + [line];
    TrimStarts(line);
    assert all[..|all| - 1] == lines && all[|all| - 1] == line;
    OneLineMore(read, lines, line);
  }

  lemma OneLineMore(read: LineReader, lines: seq<string>, line: string)
    ensures FileOf(read, lines + [line])
         == Merge(FileOf(read, lines), Summary(EntryOf(read, |lines| + 1, line), ErrorOf(read, |lines| + 1, line)))
    ensures FileOf(read, lines) == Merge(FileOf(read, lines), Summary([], []))
  {
    var all := lines + [line];
    assert all[..|all| - 1] == lines && all[|all| - 1] == line;
    MergeIsConcatenation(EntriesOf(read, lines), ErrorsOf(read, lines),
                         EntryOf(read, |all|, line), ErrorOf(read, |all|, line));
    MergeIsConcatenation(EntriesOf(read, lines), ErrorsOf(read, lines), [], []);
    assert EntriesOf(read, lines) + [] == EntriesOf(read, lines);
    assert ErrorsOf(read, lines) + [] == ErrorsOf(read, lines);
  }

  /** Where the entries of a file come from. */
  lemma {:induction false} EntriesComeFromLines(read: LineReader, lines: seq<string>, e: Entry)
    ensures e in EntriesOf(read, lines) <==> exists i :: 0 <= i < |lines| && read(i + 1, lines[i]) == Some(Ok(e))
  {
    if lines != [] {
      var init, n := lines[..|lines| - 1], |lines|;
      EntriesComeFromLines(read, init, e);
      assert forall i | 0 <= i < n - 1 :: init[i] == lines[i];
      assert e in EntryOf(read, n, lines[n - 1]) <==> read(n - 1 + 1, lines[n - 1]) == Some(Ok(e));
    }
  }

  /** A file with each entry and each kept error changed. */
  function Changed(f: FileData, entry: Entry -> Entry, error: ParseError -> ParseError): FileData {
    FileData(Map(entry, f.entries), Map(error, f.skipped), f.skippedCount)
  }

  /** A file with its source named everywhere. */
  function InSource(f: FileData, source: string): FileData {
    Changed(f, (e: Entry) => e.(source := source), (p: ParseError) => p.(source := source))
  }

  function EntryBehind(offset: nat): Entry -> Entry {
    (e: Entry) => e.(line := offset + e.line)
  }

  function ErrorBehind(offset: nat): ParseError -> ParseError {
    (p: ParseError) => p.(line := offset + p.line)
  }

  /** A file whose lines come after others. */
  function Renumbered(f: FileData, offset: nat): FileData {
    Changed(f, EntryBehind(offset), ErrorBehind(offset))
  }

  lemma ChangedSummary(
    entries: seq<Entry>, errors: seq<ParseError>, entry: Entry -> Entry, error: ParseError -> ParseError)
    ensures Changed(Summary(entries, errors), entry, error) == Summary(Map(entry, entries), Map(error, errors))
  {
    assert Map(error, Capped(errors)) == Capped(Map(error, errors));
  }

  lemma {:induction false} EntriesConcat(read: LineReader, a: seq<string>, b: seq<string>)
    ensures EntriesOf(read, a + b) == EntriesOf(read, a) + EntriesOf(Later(read, |a|), b)
  {
    if b == [] {
      assert a + b == a;
    } else {
      assert (a + b)[..|a + b| - 1] == a + b[..|b| - 1];
      EntriesConcat(read, a, b[..|b| - 1]);
    }
  }

  lemma {:induction false} ErrorsConcat(read: LineReader, a: seq<string>, b: seq<string>)
    ensures ErrorsOf(read, a + b) == ErrorsOf(read, a) + Map(ErrorBehind(|a|), ErrorsOf(Later(read, |a|), b))
  {
    hide ErrorOf, Map, ErrorBehind, Later;
    var behind := ErrorBehind(|a|);
    if b == [] {
      assert a + b == a;
    } else {
      var init, last := b[..|b| - 1], b[|b| - 1];
      var later := Later(read, |a|);
      assert (a + b)[..|a + b| - 1] == a + init && (a + b)[|a + b| - 1] == last;
      ErrorsConcat(read, a, init);
      MapConcat(behind, ErrorsOf(later, init), ErrorOf(later, |b|, last));
      ErrorBehindOthers(read, |a|, |b|, last);
    }
  }

  lemma ErrorBehindOthers(read: LineReader, k: nat, n: nat, line: string)
    ensures ErrorOf(read, k + n, line) == Map(ErrorBehind(k), ErrorOf(Later(read, k), n, line))
  {
  }

  /** What a line contributes when k others come before it. */
  function Behind(k: nat, read: Option<Result<Entry, LineError>>): Option<Result<Entry, LineError>> {
    match read
    case Some(Ok(e)) => Some(Ok(EntryBehind(k)(e)))
    case other => other
  }

  predicate MovesBy(read: LineReader, k: nat, n: nat, line: string) {
    read(k + n, line) == Behind(k, read(n, line))
  }

  /** Whether lines are read the same wherever they stand. */
  ghost predicate Uniform(read: LineReader) {
    forall k: nat, n: nat, line :: MovesBy(read, k, n, line)
  }

  lemma NumberMoves(r: Result<Entry, LineError>, r': Result<Entry, LineError>, n: nat, k: nat)
    requires r.Ok? ==> r.value.line == n
    requires r' == match r case Err(e) => Err(e) case Ok(entry) => Ok(entry.(line := k + n))
    ensures Some(r') == Behind(k, Some(r))
  {
  }

  lemma {:induction false} ReadLineElsewhere(env: Env, k: nat, n: nat, line: string)
    ensures ReadLine(env, k + n, line) == Behind(k, ReadLine(env, n, line))
  {
    var trim := Trim(line);
    if env.legible(line) && trim != "" && trim[0] != '#' {
      LineNumberIsKept(env, n, k + n, trim);
      NumberMoves(ParsedLine(env, n, trim), ParsedLine(env, k + n, trim), n, k);
    }
  }

  lemma FormatIsUniform(env: Env)
    ensures Uniform(FormatReader(env))
  {
    forall k: nat, n: nat, line ensures MovesBy(FormatReader(env), k, n, line) == true {
      ReadLineElsewhere(env, k, n, line);
    }
  }

  lemma {:induction false} LinesElsewhere(read: LineReader, k: nat, lines: seq<string>)
    requires Uniform(read) == true
    ensures EntriesOf(Later(read, k), lines) == Map(EntryBehind(k), EntriesOf(read, lines))
    ensures ErrorsOf(Later(read, k), lines) == ErrorsOf(read, lines)
  {
    if lines != [] {
      var init, last := lines[..|lines| - 1], lines[|lines| - 1];
      LinesElsewhere(read, k, init);
      assert MovesBy(read, k, |lines|, last) == true;
      LineElsewhere(read, k, |lines|, last);
      MapConcat(EntryBehind(k), EntriesOf(read, init), EntryOf(read, |lines|, last));
    }
  }

  lemma LineElsewhere(read: LineReader, k: nat, n: nat, line: string)
    requires MovesBy(read, k, n, line)
    ensures EntryOf(Later(read, k), n, line) == Map(EntryBehind(k), EntryOf(read, n, line))
    ensures ErrorOf(Later(read, k), n, line) == ErrorOf(read, n, line)
  {
  }

  lemma UniformReadingConcat(read: LineReader, a: seq<string>, b: seq<string>)
    requires Uniform(read) == true
    ensures FileOf(read, a + b) == Merge(FileOf(read, a), Renumbered(FileOf(read, b), |a|))
  {
    EntriesConcat(read, a, b);
    ErrorsConcat(read, a, b);
    LinesElsewhere(read, |a|, b);
    var (es, xs) := (EntriesOf(read, b), ErrorsOf(read, b));
    ChangedSummary(es, xs, EntryBehind(|a|), ErrorBehind(|a|));
    MergeIsConcatenation(EntriesOf(read, a), ErrorsOf(read, a), Map(EntryBehind(|a|), es), Map(ErrorBehind(|a|), xs));
  }

  /** Merging two files is reading the lines of one after those of the other:
      only the numbers of the later lines change. */
  lemma ReadingIsConcatenation(env: Env, a: seq<string>, b: seq<string>)
    ensures var read := FormatReader(env);
            FileOf(read, a + b) == Merge(FileOf(read, a), Renumbered(FileOf(read, b), |a|))
  {
    FormatIsUniform(env);
    UniformReadingConcat(FormatReader(env), a, b);
  }

  /** A printed draft is read as the entry it means, unless it would look like
      a comment. */
  lemma PrintedLineIsRead(env: Env, n: nat, d: Printing.Draft)
    requires Printing.Printable(d) && env.legible(Printing.Print(d))
    ensures FormatReader(env)(n, Printing.Print(d))
            == if d.quoting != Printing.From(0) && d.principal[0] == '#' then None
               else Some(Printing.Meaning(env, n, d))
  {
    Expressible.PrintedIsTrimmed(d);
    Printing.ParseInvertsPrint(env, n, d);
  }

  // ----- the file object

  class File {
    var entries: seq<Entry>
    var skipped: seq<ParseError>
    var skippedCount: nat

    function Data(): FileData
      reads this
    {
      FileData(entries, skipped, skippedCount)
    }

    constructor ()
      ensures Data() == Summary([], [])
    {
      entries, skipped, skippedCount := [], [], 0;
    }

    method Skip(perr: ParseError)
      modifies this
      ensures Data() == FileData(old(entries), Kept(old(skipped), [perr]), old(skippedCount) + 1)
    {
      skippedCount := skippedCount + 1;
      if |skipped| < MAX_SKIPPED {
        skipped := skipped + [perr];
      }
    }

    method Append(g: File)
      modifies this
      ensures Data() == Merge(old(Data()), old(g.Data()))
    {
      entries := entries + g.entries;
      var more := g.skipped;
      assert more[0..] == more;
      for i := 0 to |more|
        invariant Kept(skipped, more[i..]) == Kept(old(skipped), more)
        invariant entries == old(entries) + old(g.entries)
        invariant skippedCount == old(skippedCount) && g.skippedCount == old(g.skippedCount)
      {
        assert more[i..][0] == more[i] && more[i..][1..] == more[i + 1..];
        if |skipped| < MAX_SKIPPED {
          skipped := skipped + [more[i]];
        }
      }
      skippedCount := skippedCount + g.skippedCount;
    }

    /** Parse: reads the lines given; none are kept if reading failed. */
    static method Parse(read: LineReader, lines: seq<string>, readFailed: bool) returns (f: File?)
      ensures f == null <==> readFailed
      ensures f != null ==> fresh(f) && f.Data() == FileOf(read, lines)
    {
      var file := new File();
      assert lines[..0] == [] && lines[..|lines|] == lines;
      for n := 0 to |lines|
        invariant fresh(file)
        invariant file.Data() == FileOf(read, lines[..n])
      {
        var upTo := lines[..n + 1];
        assert upTo[..n] == lines[..n] && upTo[n] == lines[n];
        match read(n + 1, lines[n]) {
          case None =>
            NothingNew(read, upTo);
          case Some(Ok(entry)) =>
            file.entries := file.entries + [entry];
          case Some(Err(error)) =>
            var perr := ParseError("", n + 1, error);
            MergeIsConcatenation(EntriesOf(read, lines[..n]), ErrorsOf(read, lines[..n]), [], [perr]);
            file.Skip(perr);
        }
      }
      f := if readFailed then null else file;
    }

    /** ParseSource: as Parse, with the file named on entries and errors. */
    static method ParseSource(read: LineReader, lines: seq<string>, readFailed: bool, source: string) returns (f: File?)
      ensures f == null <==> readFailed
      ensures f != null ==> fresh(f) && f.Data() == InSource(FileOf(read, lines), source)
    {
      f := Parse(read, lines, readFailed);
      if f == null {
        return;
      }
      ghost var was := f.Data();
      for i := 0 to |f.entries|
        invariant |f.entries| == |was.entries| && f.skipped == was.skipped && f.skippedCount == was.skippedCount
        invariant forall j | 0 <= j < |f.entries| ::
                    f.entries[j] == if j < i then was.entries[j].(source := source) else was.entries[j]
      {
        f.entries := f.entries[i := f.entries[i].(source := source)];
      }
      for i := 0 to |f.skipped|
        invariant f.entries == InSource(was, source).entries
        invariant |f.skipped| == |was.skipped| && f.skippedCount == was.skippedCount
        invariant forall j | 0 <= j < |f.skipped| ::
                    f.skipped[j] == if j < i then was.skipped[j].(source := source) else was.skipped[j]
      {
        f.skipped := f.skipped[i := f.skipped[i].(source := source)];
      }
    }

    /** The one-pass search of all three modes. */
    method MatchEntry(q: Query, mode: Mode) returns (m: Match)
      ensures Selects(entries, q, mode, m)
    {
      var errs: seq<Message> := [];
      var candidates, matches, mismatches := 0, 0, 0;
      // In the required mode, the answer if no restricted entry is usable.
      var unrestricted: Option<nat> := None;
      assert entries[..0] == [];
      for i := 0 to |entries|
        invariant Scanned(entries, i, q, mode, Census(errs, candidates, matches, mismatches), unrestricted) == true
      {
        ghost var census := Census(errs, candidates, matches, mismatches);
        var e := entries[i];
        var restricted := mode != Ignored && e.options.namespaces != [];
        var verdict := Examine(e, q, mode);
        if verdict.Skip? {
          PassOver(entries, i, q, mode, census, unrestricted);
          continue;
        }
        candidates := candidates + 1;
        if verdict == Refuse(NamespaceMismatch) {
          mismatches := mismatches + 1;
        } else if restricted {
          matches := matches + 1;
        }
        if verdict.Refuse? {
          TurnDown(entries, i, q, mode, census, unrestricted);
          errs := errs + [Message(e.source, e.line, verdict.reason)];
          continue;
        }
        if mode == Required && !restricted {
          PutAside(entries, i, q, mode, census, unrestricted);
          if unrestricted.None? {
            unrestricted := Some(i);
          }
          continue;
        }
        Answer(entries, i, q, mode, census, unrestricted);
        return Found(i, restricted);
      }
      Conclude(entries, q, mode, Census(errs, candidates, matches, mismatches), unrestricted);
      if unrestricted.Some? {
        return Found(unrestricted.value, false);
      }
      if errs != [] {
        return Rejected(Census(errs, candidates, matches, mismatches));
      }
      return NotFound;
    }
  }

  // ----- one round of the search

  datatype Verdict = Skip | Refuse(reason: Reason) | Accept

  ghost function VerdictOn(e: Entry, q: Query, mode: Mode): Verdict {
    if !Candidate(e, q) then Skip else if Usable(e, q, mode) then Accept else Refuse(Refusal(e, q, mode))
  }

  /** The checks on one entry, in the order that decides which refusal is reported. */
  method Examine(e: Entry, q: Query, mode: Mode) returns (v: Verdict)
    ensures v == VerdictOn(e, q, mode)
  {
    if q.principal != "" {
      var named := Glob.PatternListMatch(e.principal, q.principal);
      if !named {
        return Skip;
      }
    }
    if !SameKey(e.publicKey, q.key) {
      return Skip;
    }
    if mode != Ignored && e.options.namespaces != [] {
      var permitted := Glob.PatternsMatch(e.options.namespaces, q.namespace);
      if !permitted {
        return Refuse(NamespaceMismatch);
      }
    }
    if e.options.validAfter.Some? && q.at < e.options.validAfter.value {
      return Refuse(NotYetValid);
    }
    if e.options.validBefore.Some? && q.at > e.options.validBefore.value {
      return Refuse(Expired);
    }
    return Accept;
  }

  // ----- what the search knows after some entries

  /** The entries before i were counted, none of them is an answer by itself,
      and the first usable unrestricted one is remembered. Steps below compare
      it with true so that it is carried along as one fact. */
  ghost predicate Scanned(
    entries: seq<Entry>, i: nat, q: Query, mode: Mode, census: Census, unrestricted: Option<nat>)
  {
    && i <= |entries|
    && census == CensusOf(entries[..i], q, mode)
    && (if mode == Required then NoneRestricted(entries[..i], q, mode) else NoneUsable(entries[..i], q, mode))
    && (unrestricted.Some? ==> mode == Required && FirstUsable(entries[..i], q, mode, unrestricted.value))
    && (unrestricted.None? ==> NoneUsable(entries[..i], q, mode))
  }

  lemma OneMore(entries: seq<Entry>, i: nat, q: Query, mode: Mode)
    requires i < |entries|
    ensures CensusOf(entries[..i + 1], q, mode)
         == CensusOf(entries[..i], q, mode).Plus(CensusOfOne(entries[i], q, mode))
    ensures entries[..i + 1] == entries[..i] + [entries[i]]
  {
    assert entries[..i + 1] == entries[..i] + [entries[i]];
    CensusConcat(entries[..i], [entries[i]], q, mode);
    SumOfOne(Notes([entries[i]], q, mode));
  }

  lemma SumOfOne(parts: seq<Census>)
    requires |parts| == 1
    ensures Sum(parts) == parts[0]
  {
    PlusIsAssociative(parts[0], NOBODY, NOBODY);
  }

  lemma PassOver(entries: seq<Entry>, i: nat, q: Query, mode: Mode, census: Census, unrestricted: Option<nat>)
    requires i < |entries| && Scanned(entries, i, q, mode, census, unrestricted) == true
    requires VerdictOn(entries[i], q, mode) == Skip
    ensures Scanned(entries, i + 1, q, mode, census, unrestricted)
  {
    OneMore(entries, i, q, mode);
    NotUsableEither(entries, i, q, mode);
    PlusIsAssociative(census, NOBODY, NOBODY);
  }

  /** An unusable entry changes nothing about who is usable so far. */
  lemma NotUsableEither(entries: seq<Entry>, i: nat, q: Query, mode: Mode)
    requires i < |entries| && !Usable(entries[i], q, mode)
    ensures NoneUsable(entries[..i + 1], q, mode) <==> NoneUsable(entries[..i], q, mode)
    ensures NoneRestricted(entries[..i + 1], q, mode) <==> NoneRestricted(entries[..i], q, mode)
    ensures forall k: nat | FirstUsable(entries[..i], q, mode, k) :: FirstUsable(entries[..i + 1], q, mode, k)
  {
    var a, b := entries[..i], [entries[i]];
    assert entries[..i + 1] == a + b;
    AppendUsable(a, b, q, mode);
    AppendRestricted(a, b, q, mode);
  }

  lemma TurnDown(entries: seq<Entry>, i: nat, q: Query, mode: Mode, census: Census, unrestricted: Option<nat>)
    requires i < |entries| && Scanned(entries, i, q, mode, census, unrestricted) == true
    requires VerdictOn(entries[i], q, mode).Refuse?
    ensures var e, reason := entries[i], VerdictOn(entries[i], q, mode).reason;
            var mismatched := reason == NamespaceMismatch;
            var matched := !mismatched && mode != Ignored && Restricted(e);
            Scanned(entries, i + 1, q, mode,
                    Census(census.messages + [Message(e.source, e.line, reason)], census.candidates + 1,
                           if matched then census.namespaceMatches + 1 else census.namespaceMatches,
                           if mismatched then census.namespaceMismatches + 1 else census.namespaceMismatches),
                    unrestricted)
  {
    OneMore(entries, i, q, mode);
    NotUsableEither(entries, i, q, mode);
  }

  lemma PutAside(entries: seq<Entry>, i: nat, q: Query, mode: Mode, census: Census, unrestricted: Option<nat>)
    requires i < |entries| && Scanned(entries, i, q, mode, census, unrestricted) == true
    requires VerdictOn(entries[i], q, mode) == Accept && mode == Required && !Restricted(entries[i])
    ensures Scanned(entries, i + 1, q, mode, census.(candidates := census.candidates + 1),
                    if unrestricted.None? then Some(i) else unrestricted)
  {
    OneMore(entries, i, q, mode);
    assert census.messages + [] == census.messages;
    var a, b := entries[..i], [entries[i]];
    AppendUsable(a, b, q, mode);
    AppendRestricted(a, b, q, mode);
    assert FirstUsable(b, q, mode, 0) && NoneRestricted(b, q, mode);
  }

  lemma Answer(entries: seq<Entry>, i: nat, q: Query, mode: Mode, census: Census, unrestricted: Option<nat>)
    requires i < |entries| && Scanned(entries, i, q, mode, census, unrestricted) == true
    requires VerdictOn(entries[i], q, mode) == Accept && (mode == Required ==> Restricted(entries[i]))
    ensures Selects(entries, q, mode, Found(i, mode != Ignored && Restricted(entries[i])))
  {
    forall j | 0 <= j < i ensures entries[..i][j] == entries[j] {}
  }

  lemma Conclude(entries: seq<Entry>, q: Query, mode: Mode, census: Census, unrestricted: Option<nat>)
    requires Scanned(entries, |entries|, q, mode, census, unrestricted) == true
    ensures unrestricted.Some? ==> Selects(entries, q, mode, Found(unrestricted.value, false))
    ensures unrestricted.None? && census.messages != [] ==> Selects(entries, q, mode, Rejected(census))
    ensures unrestricted.None? && census.messages == [] ==> Selects(entries, q, mode, NotFound)
  {
    assert entries[..|entries|] == entries;
    if unrestricted.Some? {
      var i := unrestricted.value;
      assert !UsableRestricted(entries[i], q, mode);
    } else {
      EveryCandidateComplains(entries, q, mode);
    }
  }

  lemma NothingNew(read: LineReader, lines: seq<string>)
    requires lines != [] && read(|lines|, lines[|lines| - 1]).None?
    ensures EntriesOf(read, lines) == EntriesOf(read, lines[..|lines| - 1])
    ensures ErrorsOf(read, lines) == ErrorsOf(read, lines[..|lines| - 1])
  {
  }
}
