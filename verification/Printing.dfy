/** Writing allowed signers lines, and that parsing reads back exactly what can
    be written (the format of doc/ALLOWED_SIGNERS.md). */
module Printing {
  import opened Wrappers
  import opened Text
  import opened Keys
  import opened Scanner
  import opened Lines
  import Base64
  import OptionSyntax
  import Selector

  /** How principals are written: as they are, or in quotes from some byte on. */
  datatype Quoting = Bare | From(start: nat)

  /** An entry as its author would put it down. */
  datatype Draft = Draft(
    principal: string, quoting: Quoting, clauses: seq<Clause>, keyType: string, keyBase64: string, comment: string)

  predicate EndsInBackslash(s: string) {
    s != "" && s[|s| - 1] == '\\'
  }

  predicate Known(name: string) {
    name == "namespaces" || name == "valid-after" || name == "valid-before"
  }

  function Quoted(v: string): string {
    "\"" + OptionSyntax.Escape(v) + "\""
  }

  function PrintClause(c: Clause): string {
    c.name + "=" + Quoted(c.value)
  }

  function PrintAll(clauses: seq<Clause>): (parts: seq<string>)
    ensures |parts| == |clauses|
  {
    if clauses == [] then [] else [PrintClause(clauses[0])] + PrintAll(clauses[1..])
  }

  function PrintPrincipal(p: string, q: Quoting): string {
    match q
    case Bare => p
    case From(k) => if k <= |p| then p[..k] + "\"" + p[k..] + "\"" else p
  }

  function FieldsOf(d: Draft): seq<string> {
    [PrintPrincipal(d.principal, d.quoting)]
    + (if d.clauses == [] then [] else [Join(PrintAll(d.clauses), ',')])
    + [d.keyType, d.keyBase64]
  }

  function Print(d: Draft): string {
    Join(FieldsOf(d), ' ') + if d.comment == "" then "" else " " + d.comment
  }

  /** What the format can express. Only quoted bytes may be blanks, and the
      closing quote may not follow a backslash. */
  predicate PrintablePrincipal(p: string, q: Quoting) {
    && p != "" && (forall i | 0 <= i < |p| :: p[i] != '"')
    && match q
       case Bare => forall i | 0 <= i < |p| :: !Blank(p[i])
       case From(k) => k <= |p| && (forall i | 0 <= i < k :: !Blank(p[i])) && !EndsInBackslash(p[k..])
  }

  predicate PrintableClause(c: Clause) {
    Known(c.name) && !EndsInBackslash(c.value)
  }

  /** What cannot be taken for an options field. */
  predicate IsKeyType(s: string) {
    s != "cert-authority" && '"' !in s && ',' !in s && '=' !in s
  }

  predicate Printable(d: Draft) {
    && PrintablePrincipal(d.principal, d.quoting)
    && (forall i | 0 <= i < |d.clauses| :: PrintableClause(d.clauses[i]))
    && d.keyType != "" && Whole(d.keyType, Blanks) && (d.clauses == [] ==> IsKeyType(d.keyType))
    && d.keyBase64 != "" && Whole(d.keyBase64, Blanks)
    && Trim(d.comment) == d.comment
  }

  /** The options a list of clauses stands for. */
  function Collect(env: Env, o: Options, clauses: seq<Clause>): Result<Options, OptionError>
    decreases |clauses|
  {
    if clauses == [] then Ok(o)
    else match Absorb(env, o, clauses[0])
      case Err(e) => Err(e)
      case Ok(o') => Collect(env, o', clauses[1..])
  }

  /** What a draft means, without any line in between. */
  function Meaning(env: Env, n: nat, d: Draft): Result<Entry, LineError> {
    match Windowed(Collect(env, NO_OPTIONS, d.clauses))
    case Err(e) => Err(BadOptions(e))
    case Ok(o) => WithKey(env, n, d.principal, o, d.keyType, d.keyBase64, d.comment)
  }

  // ----- what clauses and drafts mean

  predicate Once(clauses: seq<Clause>) {
    forall i, j | 0 <= i < j < |clauses| :: clauses[i].name != clauses[j].name
  }

  predicate Legal(env: Env, c: Clause) {
    Known(c.name) && (c.name != NAMESPACES ==> env.time(c.value).Some?)
  }

  /** Whether options carry what a clause says. */
  predicate Carries(env: Env, o: Options, c: Clause) {
    && (c.name == "namespaces" ==> o.namespaces == Split(c.value, ','))
    && (c.name == "valid-after" ==> o.validAfter == env.time(c.value))
    && (c.name == "valid-before" ==> o.validBefore == env.time(c.value))
  }

  /** Whether options are set where a name is given. */
  predicate IsSet(o: Options, name: string) {
    if name == NAMESPACES then o.namespaces != []
    else if name == VALID_AFTER then o.validAfter.Some?
    else name == VALID_BEFORE && o.validBefore.Some?
  }

  predicate Named(clauses: seq<Clause>, name: string) {
    exists i :: 0 <= i < |clauses| && clauses[i].name == name
  }

  lemma AbsorbMeans(env: Env, o: Options, c: Clause)
    ensures Absorb(env, o, c).Ok? <==> Legal(env, c) && !IsSet(o, c.name)
    ensures Absorb(env, o, c).Ok? ==>
              var o' := Absorb(env, o, c).value;
              && Carries(env, o', c) && IsSet(o', c.name)
              && (c.name != NAMESPACES ==> o'.namespaces == o.namespaces)
              && (c.name != VALID_AFTER ==> o'.validAfter == o.validAfter)
              && (c.name != VALID_BEFORE ==> o'.validBefore == o.validBefore)
  {
  }

  /** Clauses are accepted exactly when each is legal, none repeats another and
      none sets what is set already. */
  lemma {:induction false} CollectAccepts(env: Env, o: Options, clauses: seq<Clause>)
    ensures Collect(env, o, clauses).Ok? <==>
              && Once(clauses)
              && forall i | 0 <= i < |clauses| :: Legal(env, clauses[i]) && !IsSet(o, clauses[i].name)
    decreases |clauses|
  {
    if clauses != [] {
      var c, more := clauses[0], clauses[1..];
      AbsorbMeans(env, o, c);
      assert clauses == [c] + more;
      if Absorb(env, o, c).Ok? {
        var o' := Absorb(env, o, c).value;
        CollectAccepts(env, o', more);
        forall i | 0 <= i < |more|
          ensures more[i] == clauses[i + 1]
          ensures Known(more[i].name) ==>
                    (IsSet(o', more[i].name) <==> IsSet(o, more[i].name) || more[i].name == c.name)
        {
        }
      }
    }
  }

  /** Accepted clauses are all carried, and what none names stays as it was. */
  lemma {:induction false} CollectMeans(env: Env, o: Options, clauses: seq<Clause>)
    requires Collect(env, o, clauses).Ok?
    ensures var r := Collect(env, o, clauses).value;
            && (forall i | 0 <= i < |clauses| :: Carries(env, r, clauses[i]))
            && (!Named(clauses, NAMESPACES) ==> r.namespaces == o.namespaces)
            && (!Named(clauses, VALID_AFTER) ==> r.validAfter == o.validAfter)
            && (!Named(clauses, VALID_BEFORE) ==> r.validBefore == o.validBefore)
    decreases |clauses|
  {
    if clauses != [] {
      var c, more := clauses[0], clauses[1..];
      AbsorbMeans(env, o, c);
      var o' := Absorb(env, o, c).value;
      CollectMeans(env, o', more);
      CollectAccepts(env, o', more);
      assert clauses == [c] + more;
      forall name | Named(more, name) ensures Named(clauses, name) {
        var i :| 0 <= i < |more| && more[i].name == name;
        assert clauses[i + 1].name == name;
      }
      assert Named(clauses, c.name);
      assert !Named(more, c.name);
    }
  }

  /** A window given by two clauses is not empty. */
  predicate Ordered(env: Env, clauses: seq<Clause>) {
    forall i, j | 0 <= i < |clauses| && 0 <= j < |clauses| :: InOrder(env, clauses[i], clauses[j])
  }

  predicate InOrder(env: Env, after: Clause, before: Clause) {
    after.name == VALID_AFTER && before.name == VALID_BEFORE
    && env.time(after.value).Some? && env.time(before.value).Some? ==>
      env.time(after.value).value < env.time(before.value).value
  }

  predicate Acceptable(env: Env, clauses: seq<Clause>) {
    Once(clauses) && (forall i | 0 <= i < |clauses| :: Legal(env, clauses[i])) && Ordered(env, clauses)
  }

  /** Options that hold what the clauses say and nothing else. */
  predicate Says(env: Env, o: Options, clauses: seq<Clause>) {
    && (forall i | 0 <= i < |clauses| :: Carries(env, o, clauses[i]))
    && (Named(clauses, NAMESPACES) || o.namespaces == [])
    && (Named(clauses, VALID_AFTER) || o.validAfter == None)
    && (Named(clauses, VALID_BEFORE) || o.validBefore == None)
  }

  lemma WindowMeans(env: Env, o: Options, clauses: seq<Clause>)
    requires Says(env, o, clauses)
    ensures CheckWindow(o) == (if Ordered(env, clauses) then Ok(o) else Err(EmptyWindow))
  {
    if o.validAfter.Some? && o.validBefore.Some? {
      var i :| 0 <= i < |clauses| && clauses[i].name == VALID_AFTER;
      var j :| 0 <= j < |clauses| && clauses[j].name == VALID_BEFORE;
      assert Carries(env, o, clauses[i]) && Carries(env, o, clauses[j]);
      assert Ordered(env, clauses) ==> InOrder(env, clauses[i], clauses[j]);
    }
  }

  /** Clauses are accepted exactly when each is legal, none repeats another and
      the window is not empty; then the options are theirs. */
  lemma ClausesMean(env: Env, clauses: seq<Clause>)
    ensures var r := Windowed(Collect(env, NO_OPTIONS, clauses));
            && (r.Ok? <==> Acceptable(env, clauses))
            && (r.Ok? ==> Says(env, r.value, clauses))
  {
    var c := Collect(env, NO_OPTIONS, clauses);
    CollectAccepts(env, NO_OPTIONS, clauses);
    if c.Ok? {
      CollectMeans(env, NO_OPTIONS, clauses);
      WindowMeans(env, c.value, clauses);
    }
  }

  // ----- quoted values

  lemma {:induction false} EscapeRuns(v: string, mode: Mode)
    requires mode != Outside
    ensures Run(OptionSyntax.Escape(v), mode)
            == if v == "" then mode else if EndsInBackslash(v) then Backslash else Inside
  {
    if v != "" {
      var rest := OptionSyntax.Escape(v[1..]);
      var unit := if v[0] == '"' then "\\\"" else [v[0]];
      RunConcat(unit, rest, mode);
      var mode' := if v[0] == '\\' then Backslash else Inside;
      if v[0] == '"' {
        assert unit[1..] == "\"";
        assert Run("\"", Backslash) == Run("", Inside);
      } else {
        assert unit[1..] == "";
      }
      EscapeRuns(v[1..], mode');
    }
  }

  /** A quoted value is closed exactly when it does not end in a backslash. */
  lemma QuotedIsClosed(v: string)
    ensures Closed(Quoted(v)) <==> !EndsInBackslash(v)
  {
    var e := OptionSyntax.Escape(v);
    RunConcat("\"" + e, "\"", Outside);
    RunConcat("\"", e, Outside);
    EscapeRuns(v, Inside);
    ClosedByRun(Quoted(v), Outside);
  }

  lemma {:induction false} QuotedTail(v: string, mode: Mode, sep: Separator)
    requires mode != Outside && (if v == "" then mode == Inside else !EndsInBackslash(v))
    ensures var text := OptionSyntax.Escape(v) + "\""; Stop(text, mode, sep) == |text|
  {
    var text := OptionSyntax.Escape(v) + "\"";
    if v == "" {
      assert text == "\"" && text[1..] == "";
    } else {
      var rest := OptionSyntax.Escape(v[1..]) + "\"";
      if v[0] == '"' {
        assert text == "\\" + ("\"" + rest);
        QuotedTail(v[1..], Inside, sep);
        StepsInside('\\', "\"" + rest, mode, sep);
        StepsInside('"', rest, Backslash, sep);
      } else {
        assert text == [v[0]] + rest;
        QuotedTail(v[1..], Next(mode, v[0]), sep);
        StepsInside(v[0], rest, mode, sep);
      }
    }
  }

  lemma StepsInside(c: char, rest: string, mode: Mode, sep: Separator)
    requires mode != Outside
    ensures Stop([c] + rest, mode, sep) == Shift(1, Stop(rest, Next(mode, c), sep))
  {
    assert ([c] + rest)[1..] == rest;
  }

  lemma QuotedIsWhole(v: string, sep: Separator)
    requires !EndsInBackslash(v)
    ensures Whole(Quoted(v), sep)
  {
    var q := Quoted(v);
    assert q[0] == '"' && q[1..] == OptionSyntax.Escape(v) + "\"";
    QuotedTail(v, Inside, sep);
    assert Stop(q, Outside, sep) == Shift(1, Stop(q[1..], Inside, sep));
  }

  // ----- reading back what was printed

  lemma NameBytes(name: string)
    requires Known(name)
    ensures name != "" && forall i | 0 <= i < |name| :: 'a' <= name[i] <= 'z' || name[i] == '-'
  {
  }

  lemma {:induction false} NameIsPlain(name: string, sep: Separator)
    requires Known(name)
    ensures Whole(name + "=", sep) && name != "" && '"' !in name && '=' !in name && Trim(name) == name
  {
    hide Known;
    NameBytes(name);
    NothingToTrim(name);
    PlainText(name + "=", sep);
  }

  lemma ClauseIsWhole(c: Clause, sep: Separator)
    requires PrintableClause(c)
    ensures Whole(PrintClause(c), sep)
  {
    NameIsPlain(c.name, sep);
    QuotedIsWhole(c.value, sep);
    StopConcat(c.name + "=", Quoted(c.value), Outside, sep);
  }

  lemma QuotedReadsBack(v: string)
    ensures Trim(Quoted(v)) == Quoted(v) && UnquotedValue(Quoted(v)) == Some(v)
  {
    var q := Quoted(v);
    NothingToTrim(q);
    assert q[1..|q| - 1] == OptionSyntax.Escape(v);
    OptionSyntax.UnescapeInvertsEscape(OptionSyntax.Escape(v), v);
  }

  lemma ClauseIsCut(c: Clause)
    requires Known(c.name)
    ensures var p, n := PrintClause(c), |c.name|;
            && Trim(p) == p && Find(p, '=') == n < |p|
            && p[..n] == c.name && p[n + 1..] == Quoted(c.value)
  {
    var p := PrintClause(c);
    NameIsPlain(c.name, Nowhere);
    NothingToTrim(p);
    assert p == c.name + ("=" + Quoted(c.value));
    FindHere(c.name, "=" + Quoted(c.value), '=');
  }

  lemma ReadPrinted(c: Clause)
    requires Known(c.name)
    ensures ReadClause(PrintClause(c)) == Ok(c)
  {
    ClauseIsCut(c);
    QuotedReadsBack(c.value);
    NameIsPlain(c.name, Nowhere);
    assert PrintClause(c)[|c.name|] == '=';
  }

  lemma {:induction false} PrintedParts(env: Env, o: Options, clauses: seq<Clause>)
    requires forall i | 0 <= i < |clauses| :: PrintableClause(clauses[i])
    ensures ReadParts(env, o, PrintAll(clauses)) == Collect(env, o, clauses)
    decreases |clauses|
  {
    if clauses != [] {
      var c := clauses[0];
      ReadPrinted(c);
      var parts := PrintAll(clauses);
      assert parts[0] == PrintClause(c) && parts[1..] == PrintAll(clauses[1..]);
      match Absorb(env, o, c)
      case Err(_) => PrintedParts(env, o, clauses[1..]);
      case Ok(o') => PrintedParts(env, o', clauses[1..]);
    }
  }

  /** An options field holds what its clauses say, errors included. */
  lemma PrintedOptions(env: Env, clauses: seq<Clause>)
    requires clauses != [] && forall i | 0 <= i < |clauses| :: PrintableClause(clauses[i])
    ensures ParsedOptions(env, Join(PrintAll(clauses), ',')) == Windowed(Collect(env, NO_OPTIONS, clauses))
  {
    hide ReadParts, Collect, PrintClause, Stop;
    var parts := PrintAll(clauses);
    PrintedParts(env, NO_OPTIONS, clauses);
    PartsAreWhole(clauses, Commas);
    OptionSyntax.JoinedOptions(parts);
    var s := Join(parts, ',');
    PrintedIsNotBlank(clauses);
  }

  lemma {:induction false} PrintedIsNotBlank(clauses: seq<Clause>)
    requires clauses != [] && PrintableClause(clauses[0])
    ensures Trim(Join(PrintAll(clauses), ',')) != ""
  {
    var parts := PrintAll(clauses);
    var s := Join(parts, ',');
    NameBytes(clauses[0].name);
    assert s[0] == parts[0][0] == clauses[0].name[0];
    assert TrimLeft(s) == s;
    TrimRightKeeps(s, 0);
  }

  lemma {:induction false} TrimRightKeeps(s: string, i: nat)
    requires i < |s| && !Blank(s[i])
    ensures |TrimRight(s)| > i
  {
    if Blank(s[|s| - 1]) {
      TrimRightKeeps(s[..|s| - 1], i);
    }
  }

  lemma {:induction false} JoinIsWhole(parts: seq<string>)
    requires parts != [] && forall i | 0 <= i < |parts| :: Whole(parts[i], Blanks)
    ensures Whole(Join(parts, ','), Blanks)
  {
    if |parts| > 1 {
      var rest := Join(parts[1..], ',');
      JoinIsWhole(parts[1..]);
      assert ([','] + rest)[1..] == rest;
      assert Join(parts, ',') == parts[0] + ([','] + rest);
      StopConcat(parts[0], [','] + rest, Outside, Blanks);
    }
  }

  lemma JoinStarts(parts: seq<string>, c: char)
    requires parts != [] && c in parts[0]
    ensures c in Join(parts, ',')
  {
    assert forall x :: x in parts[0] ==> x in Join(parts, ',');
  }

  lemma OptionsLookLikeOptions(clauses: seq<Clause>)
    requires clauses != []
    ensures LooksLikeOptions(Join(PrintAll(clauses), ','))
  {
    var parts := PrintAll(clauses);
    assert parts[0] == PrintClause(clauses[0]);
    assert parts[0][|clauses[0].name|] == '=';
    JoinStarts(parts, '=');
  }

  lemma {:induction false} PartsAreWhole(clauses: seq<Clause>, sep: Separator)
    requires forall i | 0 <= i < |clauses| :: PrintableClause(clauses[i])
    ensures forall i | 0 <= i < |PrintAll(clauses)| :: Whole(PrintAll(clauses)[i], sep)
  {
    if clauses != [] {
      ClauseIsWhole(clauses[0], sep);
      PartsAreWhole(clauses[1..], sep);
    }
  }

  lemma {:induction false} OptionsField(clauses: seq<Clause>)
    requires clauses != [] && forall i | 0 <= i < |clauses| :: PrintableClause(clauses[i])
    ensures Whole(Join(PrintAll(clauses), ','), Blanks)
  {
    var parts := PrintAll(clauses);
    PartsAreWhole(clauses, Blanks);
    JoinIsWhole(parts);
  }

  lemma QuotedFrom(before: string, q: string)
    requires '"' !in before && '"' !in q && !EndsInBackslash(q) && forall i | 0 <= i < |before| :: !Blank(before[i])
    ensures Whole(before + "\"" + q + "\"", Blanks)
    ensures UnquotedPrincipals(before + "\"" + q + "\"") == Some(before + q)
  {
    var tail := "\"" + q + "\"";
    assert tail[1..] == q + "\"" && before + "\"" + q + "\"" == before + tail;
    PlainText(before, Blanks);
    StopConcat(before, tail, Outside, Blanks);
    PrincipalTail(q, Inside);
    assert Stop(tail, Outside, Blanks) == Shift(1, Stop(tail[1..], Inside, Blanks));
    FindHere(before, tail, '"');
    FindHere(q, "\"", '"');
    assert (before + tail)[..|before|] == before && (before + tail)[|before| + 1..] == q + "\"";
  }

  lemma BareReadsBack(p: string)
    requires '"' !in p && forall i | 0 <= i < |p| :: !Blank(p[i])
    ensures Whole(p, Blanks) && UnquotedPrincipals(p) == Some(p)
  {
    PlainText(p, Blanks);
  }

  lemma PrincipalReadsBack(p: string, q: Quoting)
    requires PrintablePrincipal(p, q)
    ensures PrintPrincipal(p, q) != "" && Whole(PrintPrincipal(p, q), Blanks)
    ensures UnquotedPrincipals(PrintPrincipal(p, q)) == Some(p)
  {
    assert '"' !in p;
    if q.From? {
      assert p == p[..q.start] + p[q.start..];
      QuotedFrom(p[..q.start], p[q.start..]);
    } else {
      BareReadsBack(p);
    }
  }

  lemma {:induction false} PrincipalTail(p: string, mode: Mode)
    requires mode != Outside && (p == "" ==> mode == Inside) && !EndsInBackslash(p)
    requires forall i | 0 <= i < |p| :: p[i] != '"'
    ensures Stop(p + "\"", mode, Blanks) == |p| + 1
  {
    var text := p + "\"";
    if p == "" {
      assert text[1..] == "";
    } else {
      assert text[1..] == p[1..] + "\"";
      PrincipalTail(p[1..], Next(mode, p[0]));
    }
  }

  lemma OneMoreField(f: string, more: string, limit: nat)
    requires limit > 0 && f != "" && Whole(f, Blanks) && more != "" && !Blank(more[0])
    ensures Fields(f + [' '] + more, limit + 1) == Prepend([f], Fields(more, limit))
  {
    var tail := [' '] + more;
    assert f + [' '] + more == f + tail && tail[1..] == more;
    FieldThenBlank(f, tail, limit + 1);
  }

  lemma JoinTail(fields: seq<string>, tail: string)
    requires |fields| > 1
    ensures Join(fields, ' ') + tail == fields[0] + [' '] + (Join(fields[1..], ' ') + tail)
  {
  }

  lemma OneField(f: string, tail: string, rest: string)
    requires f != "" && Whole(f, Blanks)
    requires if tail == "" then rest == "" else Blank(tail[0]) && rest == TrimLeft(tail)
    ensures Fields(f + tail, 1) == Cut([f], rest)
  {
    if tail == "" {
      assert f + tail == f;
      LastField(f, 1);
    } else {
      FieldThenBlank(f, tail, 1);
    }
  }

  predicate IsField(f: string) {
    f != "" && Whole(f, Blanks)
  }

  lemma OneFieldOnly(fields: seq<string>, tail: string, rest: string)
    requires |fields| == 1 && IsField(fields[0])
    requires if tail == "" then rest == "" else Blank(tail[0]) && rest == TrimLeft(tail)
    ensures Fields(Join(fields, ' ') + tail, 1) == Cut(fields, rest)
  {
    OneField(fields[0], tail, rest);
    assert fields == [fields[0]];
  }

  lemma FirstOfFields(fields: seq<string>, tail: string)
    requires |fields| > 1 && IsField(fields[0]) && IsField(fields[1])
    ensures Fields(Join(fields, ' ') + tail, |fields|)
         == Prepend([fields[0]], Fields(Join(fields[1..], ' ') + tail, |fields| - 1))
  {
    JoinTail(fields, tail);
    StartsWithField(fields[1..], tail);
    OneMoreField(fields[0], Join(fields[1..], ' ') + tail, |fields| - 1);
  }

  lemma {:induction false} PrintedFields(fields: seq<string>, tail: string, rest: string)
    requires fields != [] && forall i | 0 <= i < |fields| :: IsField(fields[i])
    requires if tail == "" then rest == "" else Blank(tail[0]) && rest == TrimLeft(tail)
    ensures Fields(Join(fields, ' ') + tail, |fields|) == Cut(fields, rest)
  {
    if |fields| == 1 {
      OneFieldOnly(fields, tail, rest);
    } else {
      FirstOfFields(fields, tail);
      PrintedFields(fields[1..], tail, rest);
      assert fields == [fields[0]] + fields[1..];
    }
  }

  lemma StartsWithField(fields: seq<string>, tail: string)
    requires fields != [] && fields[0] != "" && Whole(fields[0], Blanks)
    ensures var s := Join(fields, ' ') + tail; s != "" && !Blank(s[0])
  {
    assert (Join(fields, ' ') + tail)[0] == fields[0][0];
  }

  lemma CommentIsTrimmed(comment: string)
    requires Trim(comment) == comment
    ensures TrimLeft(comment) == comment
  {
  }

  /** How both scans of a printed line come out. */
  lemma PrintedLineScans(d: Draft)
    requires Printable(d)
    ensures var fields := FieldsOf(d);
            && Fields(Print(d), |fields|) == Cut(fields, d.comment)
            && Fields(Print(d), 2).Cut? && |Fields(Print(d), 2).fields| == 2
            && Fields(Print(d), 2).fields[1] == fields[1]
  {
    var fields := FieldsOf(d);
    var tail := if d.comment == "" then "" else " " + d.comment;
    PrincipalReadsBack(d.principal, d.quoting);
    if d.clauses != [] {
      OptionsField(d.clauses);
      OptionsLookLikeOptions(d.clauses);
    }
    CommentIsTrimmed(d.comment);
    assert tail != "" ==> tail[1..] == d.comment;
    assert forall i | 0 <= i < |fields| :: IsField(fields[i]);
    PrintedFields(fields, tail, d.comment);
    ScansAgree(Print(d), 2, |fields|);
  }

  /** Printing any expressible draft and parsing the line gives exactly what
      the draft means: the same entry, or the same error. */
  lemma ParseInvertsPrint(env: Env, n: nat, d: Draft)
    requires Printable(d)
    ensures ParsedLine(env, n, Print(d)) == Meaning(env, n, d)
  {
    var fields := FieldsOf(d);
    PrintedLineScans(d);
    MeaningOfFields(env, n, d);
    if d.clauses != [] {
      OptionsLookLikeOptions(d.clauses);
    }
    ByFields(env, n, Print(d), fields, d.comment);
  }

  /** A printed line is accepted exactly when its clauses are acceptable and
      its key is of the type it names; the entry then says what was written. */
  lemma PrintedLineMeans(env: Env, n: nat, d: Draft)
    requires Printable(d)
    ensures var (r, key) := (ParsedLine(env, n, Print(d)), Base64.ParsePublicKey(env.keys, d.keyBase64));
            && (r.Ok? <==> Acceptable(env, d.clauses) && key.Some? && key.value.typ == d.keyType)
            && (r.Ok? ==> Says(env, r.value.options, d.clauses))
            && (r.Ok? ==> r.value == Selector.Entry(
                  "", n, d.principal, r.value.options, d.keyType, d.keyBase64, d.comment, key.value))
  {
    ParseInvertsPrint(env, n, d);
    ClausesMean(env, d.clauses);
  }

  lemma MeaningWithoutOptions(env: Env, n: nat, d: Draft)
    requires Printable(d) && d.clauses == []
    ensures FromFields(env, n, FieldsOf(d), d.comment) == Meaning(env, n, d)
  {
    PrincipalReadsBack(d.principal, d.quoting);
    var fields := FieldsOf(d);
    assert |fields| == 3 && fields[1] == d.keyType && fields[2] == d.keyBase64;
  }

  lemma MeaningWithOptions(env: Env, n: nat, d: Draft)
    requires Printable(d) && d.clauses != []
    ensures FromFields(env, n, FieldsOf(d), d.comment) == Meaning(env, n, d)
  {
    PrincipalReadsBack(d.principal, d.quoting);
    OptionsLookLikeOptions(d.clauses);
    PrintedOptions(env, d.clauses);
    var fields := FieldsOf(d);
    assert |fields| == 4 && fields[1] == Join(PrintAll(d.clauses), ',') && fields[2] == d.keyType
      && fields[3] == d.keyBase64;
  }

  lemma MeaningOfFields(env: Env, n: nat, d: Draft)
    requires Printable(d)
    ensures FromFields(env, n, FieldsOf(d), d.comment) == Meaning(env, n, d)
  {
    if d.clauses == [] {
      MeaningWithoutOptions(env, n, d);
    } else {
      MeaningWithOptions(env, n, d);
    }
  }
}
