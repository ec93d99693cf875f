/** Which entries a line can yield, and what in a line decides them
    (parseLine and its scanners in pkg/allowedsigners/parse.go). */
module Expressible {
  import opened Wrappers
  import opened Text
  import opened Scanner
  import opened Lines
  import opened Printing
  import OptionSyntax
  import Selector

  // ----- trimming and quotes

  lemma {:induction false} TrimLeftRuns(s: string)
    ensures Run(TrimLeft(s), Outside) == Run(s, Outside)
  {
    if s != "" && Blank(s[0]) {
      TrimLeftRuns(s[1..]);
    }
  }

  lemma {:induction false} TrimRightRuns(s: string)
    requires Run(s, Outside) == Outside
    ensures Run(TrimRight(s), Outside) == Outside
  {
    if s != "" && Blank(s[|s| - 1]) {
      var init := s[..|s| - 1];
      assert s == init + [s[|s| - 1]];
      RunConcat(init, [s[|s| - 1]], Outside);
      assert Run([s[|s| - 1]], Run(init, Outside)) == Next(Run(init, Outside), s[|s| - 1]);
      TrimRightRuns(init);
    }
  }

  lemma {:induction false} TrimLeftKeeps(s: string, c: char)
    requires c in s && !Blank(c)
    ensures c in TrimLeft(s)
  {
    if Blank(s[0]) {
      assert s == [s[0]] + s[1..];
      TrimLeftKeeps(s[1..], c);
    }
  }

  lemma {:induction false} TrimRightKeepsChar(s: string, c: char)
    requires c in s && !Blank(c)
    ensures c in TrimRight(s)
  {
    if Blank(s[|s| - 1]) {
      assert s == s[..|s| - 1] + [s[|s| - 1]];
      TrimRightKeepsChar(s[..|s| - 1], c);
    }
  }

  lemma TrimRuns(s: string)
    requires Run(s, Outside) == Outside
    ensures Run(Trim(s), Outside) == Outside
  {
    TrimLeftRuns(s);
    TrimRightRuns(TrimLeft(s));
  }

  // ----- options

  lemma NameHasNoQuote(name: string)
    requires Known(Trim(name))
    ensures '"' !in name
  {
    assert '"' !in Trim(name);
    if '"' in name {
      TrimLeftKeeps(name, '"');
      TrimRightKeepsChar(TrimLeft(name), '"');
    }
  }

  /** What follows the name and its equals sign is closed if the whole is. */
  lemma TextAfterName(p: string, n: nat)
    requires Run(p, Outside) == Outside && n < |p| && '"' !in p[..n] && p[n] == '='
    ensures Run(p[n + 1..], Outside) == Outside
  {
    var head := p[..n] + ['='];
    RunWithoutQuotes(head, Outside);
    RunConcat(head, p[n + 1..], Outside);
    assert p == head + p[n + 1..];
  }

  lemma AcceptedSpelling(t: string, v: string)
    requires t != "" && t[0] == '"' && OptionSyntax.Unquoted(t) == Some(v)
    ensures t == Quoted(v)
  {
    var inner := t[1..|t| - 1];
    OptionSyntax.UnescapeInvertsEscape(inner, v);
    assert t == "\"" + inner + "\"";
  }

  /** A whole text has no blanks to trim. */
  lemma WholeIsTrimmed(s: string)
    requires Whole(s, Blanks)
    ensures Trim(s) == s
  {
    if s != "" {
      LastIsNoSeparator(s, Outside, Blanks);
      assert Blank(s[0]) ==> Stop(s, Outside, Blanks) == 0;
      NothingToTrim(s);
    }
  }

  /** Both sides of an equals sign behind an unquoted name are whole. */
  lemma SidesAreWhole(name: string, tail: string)
    requires Whole(name + "=" + tail, Blanks) && '"' !in name
    ensures Trim(name) == name && Trim(tail) == tail
  {
    var head := name + "=";
    RunWithoutQuotes(name, Outside);
    RunConcat(name, "=", Outside);
    StopSplits(head, tail, Outside, Blanks);
    StopSplits(name, "=", Outside, Blanks);
    WholeIsTrimmed(name);
    WholeIsTrimmed(tail);
  }

  lemma {:induction false} EqualsAt(part: string, n: nat)
    requires n == Find(part, '=') && n < |part|
    ensures part == part[..n] + "=" + part[n + 1..]
  {
    hide Find;
    assert part == part[..n] + [part[n]] + part[n + 1..];
  }

  lemma {:induction false} ReadTrimmed(part: string, c: Clause)
    requires Trim(part) == part && ReadClause(part) == Ok(c)
    ensures var n := Find(part, '=');
            && n < |part| && c.name == Trim(part[..n]) && UnquotedValue(Trim(part[n + 1..])) == Some(c.value)
  {
  }

  lemma ValueSpelling(t: string, v: string)
    requires Trim(t) == t && UnquotedValue(t) == Some(v)
    ensures t == Quoted(v)
  {
    AcceptedSpelling(t, v);
  }

  /** An accepted option without blanks around it is written in the one way
      that its clause can be. */
  lemma AcceptedClause(part: string, c: Clause)
    requires Whole(part, Blanks) && ReadClause(part) == Ok(c) && Known(c.name)
    ensures part == PrintClause(c)
  {
    WholeIsTrimmed(part);
    ReadTrimmed(part, c);
    var n := Find(part, '=');
    EqualsAt(part, n);
    NameHasNoQuote(part[..n]);
    SidesAreWhole(part[..n], part[n + 1..]);
    ValueSpelling(part[n + 1..], c.value);
  }

  lemma {:induction false} PartsOfWhole(parts: seq<string>)
    requires parts != [] && Whole(Join(parts, ','), Blanks) && forall i | 0 <= i < |parts| :: Closed(parts[i])
    ensures forall i | 0 <= i < |parts| :: Whole(parts[i], Blanks)
  {
    var first := parts[0];
    ClosedByRun(first, Outside);
    if |parts| == 1 {
      assert first == first + "";
      StopSplits(first, "", Outside, Blanks);
    } else {
      var rest := Join(parts[1..], ',');
      assert Join(parts, ',') == first + ([','] + rest);
      StopSplits(first, [','] + rest, Outside, Blanks);
      assert ([','] + rest)[1..] == rest;
      PartsOfWhole(parts[1..]);
    }
  }

  /** No option value that survives both scanners ends in a backslash: the
      quote after it would have been escaped, and the field left open. */
  lemma AcceptedValue(part: string, c: Clause)
    requires Closed(part) && ReadClause(part) == Ok(c) && Known(c.name)
    ensures !EndsInBackslash(c.value)
  {
    ClosedByRun(part, Outside);
    TrimRuns(part);
    var p := Trim(part);
    var n := Find(p, '=');
    NameHasNoQuote(p[..n]);
    TextAfterName(p, n);
    TrimRuns(p[n + 1..]);
    TrimRuns(Trim(p[n + 1..]));
    var t := Trim(Trim(p[n + 1..]));
    AcceptedSpelling(t, c.value);
    ClosedByRun(t, Outside);
    QuotedIsClosed(c.value);
  }

  lemma {:induction false} AcceptedParts(env: Env, o: Options, parts: seq<string>) returns (clauses: seq<Clause>)
    requires ReadParts(env, o, parts).Ok?
    requires forall i | 0 <= i < |parts| :: Whole(parts[i], Blanks)
    ensures forall i | 0 <= i < |clauses| :: PrintableClause(clauses[i])
    ensures PrintAll(clauses) == parts && Collect(env, o, clauses) == ReadParts(env, o, parts)
    decreases |parts|
  {
    hide ReadClause, Stop;
    if parts == [] {
      clauses := [];
    } else {
      var c := ReadClause(parts[0]).value;
      StopNowhere(parts[0], Outside, Blanks);
      AcceptedValue(parts[0], c);
      AcceptedClause(parts[0], c);
      var more := AcceptedParts(env, Absorb(env, o, c).value, parts[1..]);
      clauses := [c] + more;
      assert clauses[1..] == more;
    }
  }

  lemma AcceptedOptions(env: Env, field: string) returns (clauses: seq<Clause>)
    requires field != "" && Whole(field, Blanks) && ParsedOptions(env, field).Ok?
    ensures clauses != [] && forall i | 0 <= i < |clauses| :: PrintableClause(clauses[i])
    ensures Join(PrintAll(clauses), ',') == field
    ensures Windowed(Collect(env, NO_OPTIONS, clauses)) == ParsedOptions(env, field)
  {
    WholeIsTrimmed(field);
    var parts := OptionSyntax.PartsOf(field).parts;
    OptionSyntax.OptionsAreJoinable(field, parts);
    forall i | 0 <= i < |parts| ensures Closed(parts[i]) {
      StopNowhere(parts[i], Outside, Commas);
    }
    PartsOfWhole(parts);
    clauses := AcceptedParts(env, NO_OPTIONS, parts);
  }

  // ----- principals

  lemma {:induction false} CutAtFirst(s: string, c: char)
    ensures Find(s, c) < |s| <==> c in s
    ensures c in s ==> s == s[..Find(s, c)] + [c] + s[Find(s, c) + 1..]
  {
    if s != "" && s[0] != c {
      CutAtFirst(s[1..], c);
      assert s == [s[0]] + s[1..];
      assert c in s ==> s[..Find(s, c)] == [s[0]] + s[1..][..Find(s, c) - 1];
    }
  }

  /** A quoted principals field is an unquoted prefix and one quoted rest. */
  lemma PrincipalShape(field: string) returns (before: string, q: string)
    requires '"' in field && UnquotedPrincipals(field).Some?
    ensures field == before + "\"" + q + "\"" && '"' !in before && '"' !in q
    ensures UnquotedPrincipals(field).value == before + q
  {
    CutAtFirst(field, '"');
    before := field[..Find(field, '"')];
    var rest := field[Find(field, '"') + 1..];
    q := ClosingQuote(before, rest);
    assert field == before + ['"'] + rest;
  }

  lemma ClosingQuote(before: string, rest: string) returns (q: string)
    requires AfterOpening(before, rest).Some?
    ensures rest == q + "\"" && '"' !in q && AfterOpening(before, rest) == Some(before + q)
  {
    q := rest[..Find(rest, '"')];
    assert rest == q + [rest[|rest| - 1]];
  }

  /** What a field says its principals are, with nothing but text and quotes: a
      field without quotes is its own, and otherwise there is one pair of
      quotes, which ends the field and is left out. */
  lemma PrincipalsMean(field: string, p: string)
    ensures UnquotedPrincipals(field) == Some(p)
            <==> if '"' !in field then p == field
                 else exists before, q :: QuotedAs(field, before, q) && p == before + q
  {
    CutAtFirst(field, '"');
    if '"' in field && UnquotedPrincipals(field).Some? {
      var before, q := PrincipalShape(field);
      assert QuotedAs(field, before, q);
    }
    forall before, q | QuotedAs(field, before, q) ensures UnquotedPrincipals(field) == Some(before + q) {
      QuotesAreRemoved(before, q);
    }
  }

  predicate QuotedAs(field: string, before: string, q: string) {
    field == before + "\"" + q + "\"" && '"' !in before && '"' !in q
  }

  lemma QuotesAreRemoved(before: string, q: string)
    requires '"' !in before && '"' !in q
    ensures UnquotedPrincipals(before + "\"" + q + "\"") == Some(before + q)
  {
    var tail := "\"" + q + "\"";
    assert before + "\"" + q + "\"" == before + tail;
    FindHere(before, tail, '"');
    FindHere(q, "\"", '"');
    assert (before + tail)[..|before|] == before && (before + tail)[|before| + 1..] == q + "\"";
  }

  lemma QuotedFieldIsPrinted(before: string, q: string)
    requires '"' !in before && '"' !in q && before + q != "" && Whole(before + "\"" + q + "\"", Blanks)
    ensures PrintablePrincipal(before + q, From(|before|))
    ensures PrintPrincipal(before + q, From(|before|)) == before + "\"" + q + "\""
  {
    var p, field := before + q, before + "\"" + q + "\"";
    assert p[..|before|] == before && p[|before|..] == q;
    assert field == before + ("\"" + q + "\"");
    NoSeparatorBeforeQuote(before, "\"" + q + "\"", Blanks);
    if EndsInBackslash(q) {
      QuoteAfterBackslash(before, q);
      StopNowhere(field, Outside, Blanks);
    }
  }

  lemma BareFieldIsPrinted(field: string)
    requires '"' !in field && field != "" && Whole(field, Blanks)
    ensures PrintablePrincipal(field, Bare)
  {
    assert field == field + "";
    NoSeparatorBeforeQuote(field, "", Blanks);
  }

  /** An accepted principals field is a printed one. */
  lemma AcceptedPrincipal(field: string) returns (quoting: Quoting)
    requires Whole(field, Blanks) && UnquotedPrincipals(field).Some? && UnquotedPrincipals(field).value != ""
    ensures PrintablePrincipal(UnquotedPrincipals(field).value, quoting)
    ensures PrintPrincipal(UnquotedPrincipals(field).value, quoting) == field
  {
    if '"' in field {
      var before, q := PrincipalShape(field);
      quoting := From(|before|);
      QuotedFieldIsPrinted(before, q);
    } else {
      quoting := Bare;
      PrincipalsMean(field, field);
      BareFieldIsPrinted(field);
    }
  }

  lemma QuoteAfterBackslash(before: string, q: string)
    requires '"' !in before && '"' !in q && EndsInBackslash(q)
    ensures !Closed(before + "\"" + q + "\"")
  {
    RunWithoutQuotes(before, Outside);
    RunWithoutQuotes(q, Inside);
    RunConcat(before, "\"", Outside);
    assert Run("\"", Outside) == Inside && Run("\"", Backslash) == Inside;
    RunConcat(before + "\"", q, Outside);
    RunConcat(before + "\"" + q, "\"", Outside);
    ClosedByRun(before + "\"" + q + "\"", Outside);
  }

  /** Quotes around a principal work exactly when it does not end in a
      backslash: the unquoter takes backslashes as they are, but the field
      scanner before it lets one escape the closing quote. */
  lemma QuotedPrincipalIsClosed(p: string)
    requires '"' !in p
    ensures Closed("\"" + p + "\"") <==> !EndsInBackslash(p)
  {
    if EndsInBackslash(p) {
      QuoteAfterBackslash("", p);
      assert "" + "\"" + p + "\"" == "\"" + p + "\"";
    } else {
      var f := "\"" + p + "\"";
      PrincipalTail(p, Inside);
      assert f[1..] == p + "\"";
      assert Stop(f, Outside, Blanks) == Shift(1, Stop(f[1..], Inside, Blanks));
      StopNowhere(f, Outside, Blanks);
    }
  }

  lemma UnquotesQuoted(p: string)
    requires '"' !in p
    ensures UnquotedPrincipals("\"" + p + "\"") == Some(p)
  {
    var f := "\"" + p + "\"";
    assert f[0] == '"' && f[1..] == p + "\"";
    FindHere(p, "\"", '"');
    assert f[..0] + f[1..][..|p|] == p;
  }

  lemma {:induction false} NoWayOut(s: string, mode: Mode, sep: Separator)
    requires mode != Outside && '"' !in s
    ensures Stop(s, mode, sep) == UNCLOSED
  {
    if s != "" {
      NoWayOut(s[1..], Next(mode, s[0]), sep);
    }
  }

  /** The mode inside quotes after a text without quotes. */
  function ModeAfter(p: string, mode: Mode): Mode {
    if p == "" then mode else if EndsInBackslash(p) then Backslash else Inside
  }

  /** Scanning on behind a closing quote, which a backslash before it escapes. */
  lemma {:induction false} ScanPastQuote(p: string, tail: string, mode: Mode, sep: Separator)
    requires mode != Outside && '"' !in p
    ensures Stop(p + ("\"" + tail), mode, sep) == Shift(|p| + 1, Stop(tail, Next(ModeAfter(p, mode), '"'), sep))
    decreases |p|
  {
    if p == "" {
      assert p + ("\"" + tail) == ['"'] + tail;
      StepsInside('"', tail, mode, sep);
    } else {
      var more := p[1..] + ("\"" + tail);
      assert p + ("\"" + tail) == [p[0]] + more;
      StepsInside(p[0], more, mode, sep);
      ScanPastQuote(p[1..], tail, Next(mode, p[0]), sep);
    }
  }

  /** The first field of a line that starts with a quoted principal. */
  lemma QuotedScan(p: string, tail: string)
    requires '"' !in p
    ensures Stop("\"" + p + "\"" + tail, Outside, Blanks)
         == Shift(|p| + 2, Stop(tail, if EndsInBackslash(p) then Inside else Outside, Blanks))
  {
    var line := "\"" + p + "\"" + tail;
    assert line[0] == '"' && line[1..] == p + ("\"" + tail);
    ScanPastQuote(p, tail, Inside, Blanks);
  }

  /** The scan cuts a quoted principal off exactly where it ends, whatever else
      the line holds, if and only if it does not end in a backslash. */
  lemma QuotedPrincipalIsCut(p: string, tail: string)
    requires '"' !in p && (tail == "" || Blank(tail[0]))
    ensures Fields("\"" + p + "\"" + tail, 1) == Cut(["\"" + p + "\""], TrimLeft(tail)) <==> !EndsInBackslash(p)
  {
    var f := "\"" + p + "\"";
    var line := f + tail;
    QuotedScan(p, tail);
    assert line[..|f|] == f && line[|f|..] == tail;
  }

  /** Behind its first quote pair an unquoted principal ends. */
  lemma NothingBehindQuotes(p: string, more: string)
    requires '"' !in p && more != ""
    ensures UnquotedPrincipals("\"" + p + "\"" + more) == None
  {
    var field := "\"" + p + "\"" + more;
    assert field[0] == '"' && field[1..] == p + ("\"" + more);
    FindHere(p, "\"" + more, '"');
  }

  /** If it ends in a backslash, the field is left open or goes on behind the
      escaped quote, where the unquoter refuses it. */
  lemma EscapedQuoteGoesOn(p: string, tail: string)
    requires '"' !in p && EndsInBackslash(p)
    ensures var line := "\"" + p + "\"" + tail;
            var n := Stop(line, Outside, Blanks);
            n == UNCLOSED || (n > |p| + 2 && UnquotedPrincipals(line[..n]) == None)
  {
    QuotedScan(p, tail);
    var k := Stop(tail, Inside, Blanks);
    if k >= 0 {
      var f := "\"" + p + "\"";
      assert (f + tail)[..|f| + k] == f + tail[..k];
      NothingBehindQuotes(p, tail[..k]);
    }
  }

  lemma FirstField(line: string, limit: nat)
    requires limit > 0 && Stop(line, Outside, Blanks) > 0 && Fields(line, limit).Cut?
    ensures var cut := Fields(line, limit); cut.fields != [] && cut.fields[0] == line[..Stop(line, Outside, Blanks)]
  {
  }

  /** A line whose first field the unquoter refuses is refused. */
  lemma FirstFieldDecides(env: Env, n: nat, line: string)
    requires var k := Stop(line, Outside, Blanks); k == UNCLOSED || (k > 0 && UnquotedPrincipals(line[..k]) == None)
    ensures ParsedLine(env, n, line).Err?
    ensures ParsedLine(env, n, line).error in {UnterminatedQuote, TooFewFields, MissingKey, BadPrincipals}
  {
    if Stop(line, Outside, Blanks) > 0 {
      forall limit: nat | limit > 0 && Fields(line, limit).Cut?
        ensures Fields(line, limit).fields != [] && UnquotedPrincipals(Fields(line, limit).fields[0]) == None
      {
        FirstField(line, limit);
      }
    }
  }

  /** So the scanner and the unquoter disagree on quoted principals that end in
      a backslash: the unquoter would read them, but no line with one is
      accepted, whatever follows. */
  lemma ScannersDisagree(env: Env, n: nat, p: string, tail: string)
    requires '"' !in p && EndsInBackslash(p)
    ensures UnquotedPrincipals("\"" + p + "\"") == Some(p)
    ensures var r := ParsedLine(env, n, "\"" + p + "\"" + tail);
            r.Err? && r.error in {UnterminatedQuote, TooFewFields, MissingKey, BadPrincipals}
  {
    UnquotesQuoted(p);
    EscapedQuoteGoesOn(p, tail);
    FirstFieldDecides(env, n, "\"" + p + "\"" + tail);
  }

  /** Without another quote in the line, its quotes stay open. */
  lemma QuoteStaysOpen(p: string, tail: string, limit: nat)
    requires limit > 0 && '"' !in p && EndsInBackslash(p) && '"' !in tail
    ensures Fields("\"" + p + "\"" + tail, limit) == Cut.Unterminated
  {
    QuotedScan(p, tail);
    NoWayOut(tail, Inside, Blanks);
  }

  /** An instance: "a\ with its quotes closed is not a field. */
  lemma QuotedBackslashExample()
    ensures Fields("\"a\\\" ssh-ed25519 AAAA", 2) == Cut.Unterminated
  {
    QuoteStaysOpen("a\\", " ssh-ed25519 AAAA", 2);
    assert "\"a\\\" ssh-ed25519 AAAA" == "\"" + "a\\" + "\"" + " ssh-ed25519 AAAA";
  }

  // ----- comments

  lemma {:induction false} TrimLeftSplits(s: string)
    ensures var k := |s| - |TrimLeft(s)|;
            s == s[..k] + TrimLeft(s) && forall i | 0 <= i < k :: Blank(s[i])
  {
    if s != "" && Blank(s[0]) {
      TrimLeftSplits(s[1..]);
      assert s == [s[0]] + s[1..];
      var k := |s| - |TrimLeft(s)|;
      forall i | 0 <= i < k ensures Blank(s[i]) {
        assert i > 0 ==> s[i] == s[1..][i - 1];
      }
    }
  }

  lemma {:induction false} TrimLeftStarts(s: string)
    ensures TrimLeft(s) != "" ==> !Blank(TrimLeft(s)[0])
  {
    if s != "" && Blank(s[0]) {
      TrimLeftStarts(s[1..]);
    }
  }

  lemma {:induction false} TrimRightEnds(s: string)
    ensures var t := TrimRight(s); t != "" ==> !Blank(t[|t| - 1])
  {
    if s != "" && Blank(s[|s| - 1]) {
      TrimRightEnds(s[..|s| - 1]);
    }
  }

  /** One field of a line, the blanks after it, and what the rest contributes. */
  lemma Peel(line: string, limit: nat) returns (field: string, blanks: string, after: string)
    requires limit > 0 && 0 <= Stop(line, Outside, Blanks) < |line|
    ensures line == field + (blanks + after) && Whole(field, Blanks)
    ensures blanks != "" && forall i | 0 <= i < |blanks| :: Blank(blanks[i])
    ensures after != "" ==> !Blank(after[0])
    ensures Fields(line, limit)
            == if field == "" then Fields(after, limit)
               else if limit == 1 then Cut([field], after)
               else Prepend([field], Fields(after, limit - 1))
  {
    var n := Stop(line, Outside, Blanks);
    var tail := line[n..];
    field, after := line[..n], TrimLeft(tail[1..]);
    blanks := tail[..|tail| - |after|];
    StopTruncates(line, Outside, Blanks);
    TrimLeftStarts(tail[1..]);
    TrimLeftSplits(tail[1..]);
    forall i | 0 <= i < |blanks| ensures Blank(blanks[i]) {
      assert i > 0 ==> blanks[i] == tail[1..][i - 1];
    }
    assert tail == blanks + after;
  }

  lemma NoMoreFields(line: string, limit: nat)
    requires limit > 0 && Stop(line, Outside, Blanks) == |line|
    ensures Fields(line, limit) == Cut(if line == "" then [] else [line], "")
  {
    assert line[..|line|] == line;
  }

  predicate IsRest(rest: string, line: string) {
    |rest| <= |line| && line == line[..|line| - |rest|] + rest && (rest != "" ==> !Blank(rest[0]))
  }

  lemma RestBehind(lead: string, after: string, rest: string)
    requires IsRest(rest, after)
    ensures IsRest(rest, lead + after)
  {
    assert (lead + after)[..|lead + after| - |rest|] == lead + after[..|after| - |rest|];
  }

  /** The comment is a suffix of the line that starts with no blank. */
  lemma {:induction false} RestIsSuffix(line: string, limit: nat)
    requires limit > 0 && Fields(line, limit).Cut?
    ensures IsRest(Fields(line, limit).rest, line)
    ensures Fields(line, limit).fields != [] ==> |Fields(line, limit).rest| < |line|
    decreases |line|
  {
    hide Stop, TrimLeft, EndField;
    if Stop(line, Outside, Blanks) == |line| {
      NoMoreFields(line, limit);
    } else {
      var field, blanks, after := Peel(line, limit);
      assert line == field + blanks + after;
      if field != "" && limit == 1 {
        assert after[..0] + after == after;
        RestBehind(field + blanks, after, after);
      } else {
        var left := if field == "" then limit else limit - 1;
        RestIsSuffix(after, left);
        RestBehind(field + blanks, after, Fields(after, left).rest);
      }
    }
  }

  lemma CommentOfTrimmedLine(line: string, limit: nat)
    requires limit > 0 && Fields(line, limit).Cut? && Trim(line) == line
    ensures Trim(Fields(line, limit).rest) == Fields(line, limit).rest
  {
    RestIsSuffix(line, limit);
    TrimRightEnds(TrimLeft(line));
    var rest := Fields(line, limit).rest;
    if rest != "" {
      assert rest[|rest| - 1] == line[|line| - 1];
      NothingToTrim(rest);
    }
  }

  // ----- every accepted line is a printed draft

  lemma AcceptedFields(env: Env, n: nat, line: string)
    requires ParsedLine(env, n, line).Ok?
    ensures Fields(line, 2).Cut? && |Fields(line, 2).fields| == 2
    ensures var count := FieldCount(Fields(line, 2).fields[1]);
            var cut := Fields(line, count);
            && cut.Cut? && |cut.fields| == count && cut.fields[1] == Fields(line, 2).fields[1]
            && ParsedLine(env, n, line) == FromFields(env, n, cut.fields, cut.rest)
  {
    var count := FieldCount(Fields(line, 2).fields[1]);
    ScansAgree(line, 2, count);
  }

  /** Fields that are accepted have principals that can be unquoted, and options
      that can be read, if any. */
  lemma AcceptedBegins(env: Env, n: nat, fields: seq<string>, comment: string)
    requires |fields| >= 3 && FromFields(env, n, fields, comment).Ok?
    ensures UnquotedPrincipals(fields[0]).Some? && UnquotedPrincipals(fields[0]).value != ""
    ensures LooksLikeOptions(fields[1]) ==> ParsedOptions(env, fields[1]).Ok?
  {
  }

  lemma DraftPrints(fields: seq<string>, quoting: Quoting, clauses: seq<Clause>, comment: string, d: Draft)
    requires |fields| == (if clauses == [] then 3 else 4) && UnquotedPrincipals(fields[0]).Some?
    requires PrintPrincipal(UnquotedPrincipals(fields[0]).value, quoting) == fields[0]
    requires clauses != [] ==> Join(PrintAll(clauses), ',') == fields[1]
    requires d == Draft(UnquotedPrincipals(fields[0]).value, quoting, clauses,
                        fields[|fields| - 2], fields[|fields| - 1], comment)
    ensures FieldsOf(d) == fields
  {
    hide UnquotedPrincipals, PrintPrincipal, PrintAll, Join;
    if clauses == [] {
      assert [fields[0]] + [] + [fields[1], fields[2]] == fields;
    } else {
      assert [fields[0]] + [fields[1]] + [fields[2], fields[3]] == fields;
    }
  }

  predicate AllFields(fields: seq<string>) {
    forall i | 0 <= i < |fields| :: fields[i] != "" && Whole(fields[i], Blanks)
  }

  lemma DraftOfFields(env: Env, fields: seq<string>, comment: string) returns (d: Draft)
    requires |fields| >= 3 && |fields| == FieldCount(fields[1]) && Trim(comment) == comment && AllFields(fields)
    requires UnquotedPrincipals(fields[0]).Some? && UnquotedPrincipals(fields[0]).value != ""
    requires LooksLikeOptions(fields[1]) ==> ParsedOptions(env, fields[1]).Ok?
    ensures Printable(d) && FieldsOf(d) == fields && d.comment == comment
  {
    hide UnquotedPrincipals, ParsedOptions, PrintablePrincipal, PrintPrincipal, PrintableClause, FieldsOf, Trim, Stop;
    var count := |fields|;
    var quoting := AcceptedPrincipal(fields[0]);
    var clauses := [];
    if count == 4 {
      clauses := AcceptedOptions(env, fields[1]);
    }
    d := Draft(UnquotedPrincipals(fields[0]).value, quoting, clauses, fields[count - 2], fields[count - 1], comment);
    DraftPrints(fields, quoting, clauses, comment, d);
  }

  lemma AcceptedDraft(env: Env, n: nat, fields: seq<string>, comment: string) returns (d: Draft)
    requires |fields| >= 3 && |fields| == FieldCount(fields[1]) && Trim(comment) == comment
    requires AllFields(fields) && FromFields(env, n, fields, comment).Ok?
    ensures Printable(d) && Meaning(env, n, d) == FromFields(env, n, fields, comment)
    ensures FieldsOf(d) == fields && d.comment == comment
  {
    AcceptedBegins(env, n, fields, comment);
    d := DraftOfFields(env, fields, comment);
    MeaningOfFields(env, n, d);
  }

  /** Whatever a line is accepted as was printed, up to the blanks between the
      fields: parsing yields no entry but the one its own fields spell. */
  lemma AcceptedLineIsPrintable(env: Env, n: nat, line: string) returns (d: Draft)
    requires ParsedLine(env, n, line).Ok? && Trim(line) == line
    ensures Printable(d) && Meaning(env, n, d) == ParsedLine(env, n, line)
    ensures Fields(line, |FieldsOf(d)|) == Cut(FieldsOf(d), d.comment)
  {
    AcceptedFields(env, n, line);
    var cut := Fields(line, FieldCount(Fields(line, 2).fields[1]));
    FieldsAreClosed(line, |cut.fields|);
    CommentOfTrimmedLine(line, |cut.fields|);
    forall i | 0 <= i < |cut.fields| ensures cut.fields[i] != "" && Whole(cut.fields[i], Blanks) {
      assert cut.fields[i] in cut.fields;
    }
    d := AcceptedDraft(env, n, cut.fields, cut.rest);
  }

  /** A line yields an entry exactly when its fields and its comment are those
      of a printable draft that means the entry. */
  lemma LineMeans(env: Env, n: nat, line: string, e: Entry)
    requires Trim(line) == line
    ensures ParsedLine(env, n, line) == Ok(e)
            <==> exists d ::
                   && Printable(d) && Fields(line, |FieldsOf(d)|) == Cut(FieldsOf(d), d.comment)
                   && Meaning(env, n, d) == Ok(e)
  {
    if ParsedLine(env, n, line) == Ok(e) {
      var d := AcceptedLineIsPrintable(env, n, line);
    }
    forall d | Printable(d) && Fields(line, |FieldsOf(d)|) == Cut(FieldsOf(d), d.comment)
      ensures ParsedLine(env, n, line) == Meaning(env, n, d)
    {
      DraftDecides(env, n, line, d);
    }
  }

  lemma DraftDecides(env: Env, n: nat, line: string, d: Draft)
    requires Printable(d) && Fields(line, |FieldsOf(d)|) == Cut(FieldsOf(d), d.comment)
    ensures ParsedLine(env, n, line) == Meaning(env, n, d)
  {
    var fields := FieldsOf(d);
    ScansAgree(line, 2, |fields|);
    if d.clauses != [] {
      OptionsLookLikeOptions(d.clauses);
    }
    MeaningOfFields(env, n, d);
    ByFields(env, n, line, fields, d.comment);
  }

  /** The entries a trimmed line can yield are exactly the meanings of
      printable drafts. */
  lemma AcceptedExactlyPrintable(env: Env, n: nat, e: Entry)
    ensures (exists line :: Trim(line) == line && ParsedLine(env, n, line) == Ok(e))
            <==> (exists d :: Printable(d) && Meaning(env, n, d) == Ok(e))
  {
    if line :| Trim(line) == line && ParsedLine(env, n, line) == Ok(e) {
      var d := AcceptedLineIsPrintable(env, n, line);
    }
    if d :| Printable(d) && Meaning(env, n, d) == Ok(e) {
      ParseInvertsPrint(env, n, d);
      PrintedIsTrimmed(d);
    }
  }

  lemma PrintedIsTrimmed(d: Draft)
    requires Printable(d)
    ensures Trim(Print(d)) == Print(d) && Print(d) != ""
    ensures Print(d)[0] == if d.quoting == From(0) then '"' else d.principal[0]
  {
    var s := Print(d);
    var fields := FieldsOf(d);
    PrincipalReadsBack(d.principal, d.quoting);
    LastIsNoSeparator(d.keyBase64, Outside, Blanks);
    JoinEnds(fields, ' ');
    assert s[0] == fields[0][0];
    assert !Blank(s[0]);
    if d.comment != "" {
      TrimRightEnds(TrimLeft(d.comment));
      assert s[|s| - 1] == d.comment[|d.comment| - 1];
    }
    NothingToTrim(s);
  }

  lemma {:induction false} JoinEnds(parts: seq<string>, sep: char)
    requires parts != [] && parts[|parts| - 1] != ""
    ensures var s, last := Join(parts, sep), parts[|parts| - 1];
            s != "" && s[|s| - 1] == last[|last| - 1]
  {
    if |parts| > 1 {
      JoinEnds(parts[1..], sep);
    }
  }

  // ----- what decides a line

  lemma FieldThenBlanks(field: string, blanks: string, s: string, limit: nat)
    requires limit > 0 && field != "" && Whole(field, Blanks)
    requires blanks != "" && forall i | 0 <= i < |blanks| :: Blank(blanks[i])
    ensures Fields(field + (blanks + s), limit)
            == if limit == 1 then Cut([field], TrimLeft(s)) else Prepend([field], Fields(TrimLeft(s), limit - 1))
  {
    TrimBlanks(blanks, s);
    FieldThenBlank(field, blanks + s, limit);
  }

  /** A line up to its comment, made to end in a blank. */
  function Head(line: string, rest: string): string
    requires |rest| <= |line|
  {
    var head := line[..|line| - |rest|];
    if head != "" && Blank(head[|head| - 1]) then head else head + " "
  }

  lemma HeadOfRest(lead: string, after: string, rest: string)
    requires |rest| < |after|
    ensures Head(lead + after, rest) == lead + Head(after, rest)
    ensures Head(after, rest)[0] == after[0]
  {
    var k := |after| - |rest|;
    assert (lead + after)[..|lead| + k] == lead + after[..k];
    assert lead + (after[..k] + " ") == lead + after[..k] + " ";
  }

  /** Whether a text in place of a line's comment leaves the fields alone. */
  predicate Opaque(line: string, limit: nat, comment: string)
    requires limit > 0
  {
    var cut := Fields(line, limit);
    && cut.Cut? && |cut.rest| <= |line|
    && Fields(Head(line, cut.rest) + comment, limit) == Cut(cut.fields, TrimLeft(comment))
  }

  /** The comment is opaque: any text in its place leaves the fields alone. */
  lemma {:induction false} CommentIsOpaque(line: string, limit: nat, comment: string)
    requires limit > 0 && Fields(line, limit).Cut? && |Fields(line, limit).fields| == limit
    ensures Opaque(line, limit, comment)
    decreases |line|
  {
    if Stop(line, Outside, Blanks) == |line| {
      NoMoreFields(line, limit);
      LastFieldIsOpaque(line, comment);
    } else {
      var field, blanks, after := Peel(line, limit);
      if field != "" && limit == 1 {
        OpaqueAtLimit(line, field, blanks, after, comment);
      } else {
        var left := if field == "" then limit else limit - 1;
        CommentIsOpaque(after, left, comment);
        RestIsSuffix(after, left);
        OpaqueBehind(line, field, blanks, after, left, comment, limit);
      }
    }
  }

  lemma OpaqueAtLimit(line: string, field: string, blanks: string, after: string, comment: string)
    requires line == field + (blanks + after) && field != "" && Whole(field, Blanks)
    requires blanks != "" && forall i | 0 <= i < |blanks| :: Blank(blanks[i])
    requires Fields(line, 1) == Cut([field], after)
    ensures Opaque(line, 1, comment)
  {
    HeadBeforeBlanks(field, blanks, after);
    FieldThenBlanks(field, blanks, comment, 1);
    assert field + blanks + comment == field + (blanks + comment);
  }

  lemma LastFieldIsOpaque(field: string, comment: string)
    requires field != "" && Whole(field, Blanks)
    ensures Opaque(field, 1, comment)
  {
    NoMoreFields(field, 1);
    LastIsNoSeparator(field, Outside, Blanks);
    FieldThenBlanks(field, " ", comment, 1);
    assert field[..|field|] == field;
    assert Head(field, "") + comment == field + (" " + comment);
  }

  lemma HeadBeforeBlanks(field: string, blanks: string, after: string)
    requires blanks != "" && Blank(blanks[|blanks| - 1])
    ensures Head(field + (blanks + after), after) == field + blanks
  {
    assert field + (blanks + after) == field + blanks + after;
    assert (field + blanks + after)[..|field + blanks|] == field + blanks;
  }

  lemma HeadBehind(field: string, blanks: string, after: string, rest: string, comment: string)
    requires |rest| < |after| && !Blank(after[0])
    ensures Head(field + (blanks + after), rest) + comment == field + (blanks + (Head(after, rest) + comment))
    ensures var more := Head(after, rest) + comment; more != "" && !Blank(more[0]) && TrimLeft(more) == more
  {
    HeadOfRest(field + blanks, after, rest);
    assert field + (blanks + after) == field + blanks + after;
  }

  lemma FieldsBehind(field: string, blanks: string, more: string, left: nat, limit: nat)
    requires left > 0 && limit == (if field == "" then left else left + 1) && Whole(field, Blanks)
    requires blanks != "" && forall i | 0 <= i < |blanks| :: Blank(blanks[i])
    requires TrimLeft(more) == more
    ensures Fields(field + (blanks + more), limit)
         == if field == "" then Fields(more, left) else Prepend([field], Fields(more, left))
  {
    if field == "" {
      LeadingBlanks(blanks, more, limit);
      assert field + (blanks + more) == blanks + more;
    } else {
      FieldThenBlanks(field, blanks, more, limit);
    }
  }

  lemma OpaqueBehind(
    line: string, field: string, blanks: string, after: string, left: nat, comment: string, limit: nat)
    requires left > 0 && limit == (if field == "" then left else left + 1) && Whole(field, Blanks)
    requires line == field + (blanks + after) && blanks != "" && forall i | 0 <= i < |blanks| :: Blank(blanks[i])
    requires Opaque(after, left, comment) && |Fields(after, left).rest| < |after| && !Blank(after[0])
    requires Fields(line, limit) == if field == "" then Fields(after, left) else Prepend([field], Fields(after, left))
    ensures Opaque(line, limit, comment)
  {
    var rest := Fields(after, left).rest;
    HeadBehind(field, blanks, after, rest, comment);
    FieldsBehind(field, blanks, Head(after, rest) + comment, left, limit);
  }

  /** Both scans of a line see the same second field, so once the longer one
      has its fields, the later missing-fields check cannot fire, and no
      options field can turn out to hold an open quote. */
  lemma LaterChecksAreDead(env: Env, n: nat, line: string)
    requires Fields(line, 2).Cut? && |Fields(line, 2).fields| == 2
    ensures var cut := Fields(line, FieldCount(Fields(line, 2).fields[1]));
            cut.Cut? && |cut.fields| == FieldCount(Fields(line, 2).fields[1]) ==>
              && cut.fields[1] == Fields(line, 2).fields[1]
              && FromFields(env, n, cut.fields, cut.rest) != Err(MissingKey)
              && FromFields(env, n, cut.fields, cut.rest) != Err(BadOptions(OpenQuote))
  {
    var count := FieldCount(Fields(line, 2).fields[1]);
    var cut := Fields(line, count);
    if cut.Cut? && |cut.fields| == count {
      ScansAgree(line, 2, count);
      FieldsAreClosed(line, count);
      assert cut.fields[1] in cut.fields;
      FieldsDecide(env, n, cut.fields, cut.rest);
    }
  }

  lemma FieldsDecide(env: Env, n: nat, fields: seq<string>, comment: string)
    requires |fields| >= 3 && |fields| == FieldCount(fields[1]) && Closed(fields[1])
    ensures FromFields(env, n, fields, comment) != Err(MissingKey)
    ensures FromFields(env, n, fields, comment) != Err(BadOptions(OpenQuote))
  {
    ClosedOptionsError(env, fields[1]);
    forall p: string, o: Result<Options, OptionError>, k: nat | k < |fields| - 1
      ensures WithOptions(env, n, p, o, fields, k, comment) != Err(MissingKey)
      ensures o != Err(OpenQuote) ==> WithOptions(env, n, p, o, fields, k, comment) != Err(BadOptions(OpenQuote))
    {
    }
  }

  lemma ClosedOptionsError(env: Env, field: string)
    requires Closed(field)
    ensures ParsedOptions(env, field) != Err(OpenQuote)
  {
    OptionSyntax.OpenQuoteIsTheOnlyError(field);
    NoPartIsAnOpenQuote(env, NO_OPTIONS, OptionSyntax.PartsOf(field).parts);
  }

  lemma {:induction false} NoPartIsAnOpenQuote(env: Env, o: Options, parts: seq<string>)
    ensures ReadParts(env, o, parts) != Err(OpenQuote)
    decreases |parts|
  {
    if parts != [] && ReadClause(parts[0]).Ok? {
      var more := Absorb(env, o, ReadClause(parts[0]).value);
      if more.Ok? {
        NoPartIsAnOpenQuote(env, more.value, parts[1..]);
      }
    }
  }
}
