/** The quote-aware scanner of allowed signers fields
    (splitFields and isEscapedQuote in pkg/allowedsigners/parse.go). */
module Scanner {
  import opened Text

  // ----- one quoting automaton for every scanner

  /** Where a scanner may cut: at blanks, at commas, or nowhere. */
  datatype Separator = Blanks | Commas | Nowhere

  predicate Separates(sep: Separator, c: char) {
    match sep
    case Blanks => Blank(c)
    case Commas => c == ','
    case Nowhere => false
  }

  /** A backslash right before a quote; inside quotes it escapes that quote. */
  predicate EscapedQuote(s: string, i: nat)
    requires i < |s|
  {
    s[i] == '\\' && i + 1 < |s| && s[i + 1] == '"'
  }

  /** Outside quotes, inside them, or inside them right after a backslash. */
  datatype Mode = Outside | Inside | Backslash

  function Next(mode: Mode, c: char): Mode {
    match mode
    case Outside => if c == '"' then Inside else Outside
    case Inside => if c == '"' then Outside else if c == '\\' then Backslash else Inside
    case Backslash => if c == '\\' then Backslash else Inside
  }

  const UNCLOSED := -1

  /** The first unquoted separator of `s`, or its length, when scanning starts
      in the given mode; UNCLOSED if the text ends inside quotes. */
  function Stop(s: string, mode: Mode, sep: Separator): (stop: int)
    ensures UNCLOSED <= stop <= |s| && (0 <= stop < |s| ==> Separates(sep, s[stop]))
    decreases |s|
  {
    if s == "" then if mode == Outside then 0 else UNCLOSED
    else if mode == Outside && Separates(sep, s[0]) then 0
    else Shift(1, Stop(s[1..], Next(mode, s[0]), sep))
  }

  function Shift(k: nat, stop: int): int {
    if stop < 0 then UNCLOSED else k + stop
  }

  /** Every quote in the text is closed. */
  predicate Closed(s: string) {
    Stop(s, Outside, Nowhere) >= 0
  }

  /** Closed, and without an unquoted separator. */
  predicate Whole(s: string, sep: Separator) {
    Stop(s, Outside, sep) == |s|
  }

  // ----- what every scanner inherits from the automaton

  /** The text up to the stop is itself closed and free of unquoted separators. */
  lemma {:induction false} StopTruncates(s: string, mode: Mode, sep: Separator)
    requires Stop(s, mode, sep) >= 0
    ensures var n := Stop(s, mode, sep); Stop(s[..n], mode, sep) == n
    decreases |s|
  {
    var n := Stop(s, mode, sep);
    if n > 0 {
      StopTruncates(s[1..], Next(mode, s[0]), sep);
      assert s[..n][1..] == s[1..][..n - 1];
    }
  }

  /** Scanning a whole text leaves the automaton outside quotes. */
  lemma {:induction false} StopConcat(a: string, b: string, mode: Mode, sep: Separator)
    requires Stop(a, mode, sep) == |a|
    ensures Stop(a + b, mode, sep) == Shift(|a|, Stop(b, Outside, sep))
    decreases |a|
  {
    if a == "" {
      assert a + b == b;
    } else {
      assert (a + b)[1..] == a[1..] + b;
      StopConcat(a[1..], b, Next(mode, a[0]), sep);
    }
  }

  /** What holds of a whole text in two closed pieces holds of both. */
  lemma {:induction false} StopSplits(a: string, b: string, mode: Mode, sep: Separator)
    requires Stop(a + b, mode, sep) == |a + b| && Run(a, mode) == Outside
    ensures Stop(a, mode, sep) == |a| && Whole(b, sep)
    decreases |a|
  {
    if a == "" {
      assert a + b == b;
    } else {
      assert (a + b)[1..] == a[1..] + b;
      StopSplits(a[1..], b, Next(mode, a[0]), sep);
    }
  }

  /** Which separators a scanner cuts at never changes whether quotes close. */
  lemma {:induction false} StopNowhere(s: string, mode: Mode, sep: Separator)
    ensures Stop(s, mode, Nowhere) >= 0 ==> Stop(s, mode, Nowhere) == |s| && Stop(s, mode, sep) >= 0
    ensures Stop(s, mode, sep) == |s| ==> Stop(s, mode, Nowhere) == |s|
    decreases |s|
  {
    if s != "" {
      StopNowhere(s[1..], Next(mode, s[0]), sep);
    }
  }

  /** A text without quotes is scanned as plain bytes. */
  lemma {:induction false} PlainText(s: string, sep: Separator)
    requires forall i | 0 <= i < |s| :: s[i] != '"' && !Separates(sep, s[i])
    ensures Whole(s, sep)
  {
    if s != "" {
      PlainText(s[1..], sep);
    }
  }

  /** A whole text cannot end in a separator. */
  lemma {:induction false} LastIsNoSeparator(s: string, mode: Mode, sep: Separator)
    requires s != "" && Stop(s, mode, sep) == |s|
    ensures !Separates(sep, s[|s| - 1])
    decreases |s|
  {
    if |s| > 1 {
      LastIsNoSeparator(s[1..], Next(mode, s[0]), sep);
    }
  }

  /** The mode the automaton ends in. */
  function Run(s: string, mode: Mode): Mode {
    if s == "" then mode else Run(s[1..], Next(mode, s[0]))
  }

  lemma {:induction false} RunConcat(a: string, b: string, mode: Mode)
    ensures Run(a + b, mode) == Run(b, Run(a, mode))
  {
    if a == "" {
      assert a + b == b;
    } else {
      assert (a + b)[1..] == a[1..] + b;
      RunConcat(a[1..], b, Next(mode, a[0]));
    }
  }

  lemma {:induction false} ClosedByRun(s: string, mode: Mode)
    ensures Stop(s, mode, Nowhere) >= 0 <==> Run(s, mode) == Outside
  {
    if s != "" {
      ClosedByRun(s[1..], Next(mode, s[0]));
    }
  }

  /** Without quotes the mode can change inside quotes only, and only to
      remember a final backslash. */
  lemma {:induction false} RunWithoutQuotes(s: string, mode: Mode)
    requires forall i | 0 <= i < |s| :: s[i] != '"'
    ensures mode == Outside ==> Run(s, mode) == Outside
    ensures mode != Outside && s != "" ==> Run(s, mode) == if s[|s| - 1] == '\\' then Backslash else Inside
  {
    if s != "" {
      RunWithoutQuotes(s[1..], Next(mode, s[0]));
    }
  }

  /** Up to its first quote a whole text holds no separator. */
  lemma {:induction false} NoSeparatorBeforeQuote(a: string, b: string, sep: Separator)
    requires (forall i | 0 <= i < |a| :: a[i] != '"') && Whole(a + b, sep)
    ensures forall i | 0 <= i < |a| :: !Separates(sep, a[i])
  {
    if a != "" {
      assert (a + b)[1..] == a[1..] + b;
      NoSeparatorBeforeQuote(a[1..], b, sep);
    }
  }

  /** Between loop rounds no remembered backslash still awaits its quote: the
      loops look one byte ahead for an escaped quote instead. */
  predicate Settled(s: string, i: nat, mode: Mode) {
    mode == Backslash && i < |s| ==> s[i] != '"'
  }

  lemma Settles(s: string, i: nat, mode: Mode)
    requires i < |s| && Settled(s, i, mode) && !(mode != Outside && EscapedQuote(s, i))
    ensures Settled(s, i + 1, Next(mode, s[i]))
    ensures (Next(mode, s[i]) == Outside) <==> ((mode == Outside) != (s[i] == '"'))
  {
  }

  // ----- splitting a line into fields

  /** The fields found and the uninterpreted text after the last one asked
      for, or a quote left open. */
  datatype Cut = Cut(fields: seq<string>, rest: string) | Unterminated

  function Prepend(fields: seq<string>, cut: Cut): Cut {
    if cut.Unterminated? then Unterminated else Cut(fields + cut.fields, cut.rest)
  }

  /** At most `limit` fields of a line. */
  function Fields(line: string, limit: nat): (cut: Cut)
    requires limit > 0
    ensures cut.Cut? ==> |cut.fields| <= limit
    decreases |line|, 1
  {
    var n := Stop(line, Outside, Blanks);
    if n < 0 then Unterminated else EndField(line[..n], line[n..], limit)
  }

  /** A field just ended before `tail`, which is empty or starts with a blank. */
  function EndField(field: string, tail: string, limit: nat): (cut: Cut)
    requires limit > 0
    ensures cut.Cut? ==> |cut.fields| <= limit
    decreases |tail|, 0
  {
    if tail == "" then Cut(if field == "" then [] else [field], "")
    else
      var after := TrimLeft(tail[1..]);
      if field == "" then Fields(after, limit)
      else if limit == 1 then Cut([field], after)
      else Prepend([field], Fields(after, limit - 1))
  }

  /** The fields of a text whose current field already holds `begun`. */
  function FieldsFrom(begun: string, mode: Mode, s: string, limit: nat): Cut
    requires limit > 0
  {
    var n := Stop(s, mode, Blanks);
    if n < 0 then Unterminated else EndField(begun + s[..n], s[n..], limit)
  }

  /** What the scan of a line still owes, having put `out` and `begun` aside. */
  function Owed(line: string, limit: nat, out: seq<string>, begun: string, mode: Mode, i: nat): Cut
    requires |out| < limit && i <= |line|
  {
    Prepend(out, FieldsFrom(begun, mode, line[i..], limit - |out|))
  }

  lemma AdvanceField(begun: string, mode: Mode, s: string, limit: nat)
    requires limit > 0 && s != "" && (mode == Outside ==> !Blank(s[0]))
    ensures FieldsFrom(begun, mode, s, limit) == FieldsFrom(begun + [s[0]], Next(mode, s[0]), s[1..], limit)
  {
    var n := Stop(s[1..], Next(mode, s[0]), Blanks);
    if n >= 0 {
      assert begun + s[..n + 1] == begun + [s[0]] + s[1..][..n];
      assert s[n + 1..] == s[1..][n..];
    }
  }

  /** A byte inside a field only moves the scanner along. */
  lemma Advance(line: string, limit: nat, out: seq<string>, begun: string, mode: Mode, i: nat)
    requires |out| < limit && i < |line| && (mode == Outside ==> !Blank(line[i]))
    ensures Owed(line, limit, out, begun, mode, i)
            == Owed(line, limit, out, begun + [line[i]], Next(mode, line[i]), i + 1)
  {
    assert line[i..][1..] == line[i + 1..];
    AdvanceField(begun, mode, line[i..], limit - |out|);
  }

  lemma AdvanceEscape(line: string, limit: nat, out: seq<string>, begun: string, mode: Mode, i: nat)
    requires |out| < limit && i < |line| && mode != Outside && EscapedQuote(line, i)
    ensures Owed(line, limit, out, begun, mode, i)
            == Owed(line, limit, out, begun + [line[i]] + [line[i + 1]], Inside, i + 2)
  {
    Advance(line, limit, out, begun, mode, i);
    Advance(line, limit, out, begun + [line[i]], Backslash, i + 1);
  }

  lemma PrependTwice(out: seq<string>, field: string, cut: Cut)
    ensures Prepend(out, Prepend([field], cut)) == Prepend(out + [field], cut)
  {
    if cut.Cut? {
      assert out + ([field] + cut.fields) == out + [field] + cut.fields;
    }
  }

  lemma NothingBegun(s: string, limit: nat)
    requires limit > 0
    ensures FieldsFrom("", Outside, s, limit) == Fields(s, limit)
  {
    var n := Stop(s, Outside, Blanks);
    assert n >= 0 ==> "" + s[..n] == s[..n];
  }

  lemma BlankEndsField(begun: string, s: string, limit: nat)
    requires limit > 0 && s != "" && Blank(s[0])
    ensures FieldsFrom(begun, Outside, s, limit) == EndField(begun, s, limit)
  {
    assert begun + s[..0] == begun && s[0..] == s;
  }

  /** A blank outside quotes ends the field, and further blanks are skipped. */
  lemma EndAtBlank(line: string, limit: nat, out: seq<string>, begun: string, i: nat, j: nat)
    requires |out| < limit && i < j <= |line| && Blank(line[i]) && line[j..] == TrimLeft(line[i + 1..])
    ensures begun == "" ==> Owed(line, limit, out, begun, Outside, i) == Owed(line, limit, out, "", Outside, j)
    ensures begun != "" && |out| + 1 == limit ==>
              Owed(line, limit, out, begun, Outside, i) == Cut(out + [begun], line[j..])
    ensures begun != "" && |out| + 1 < limit ==>
              Owed(line, limit, out, begun, Outside, i) == Owed(line, limit, out + [begun], "", Outside, j)
  {
    var left, after := limit - |out|, line[j..];
    BlankEndsField(begun, line[i..], left);
    assert line[i..][1..] == line[i + 1..];
    NothingBegun(after, left);
    if begun != "" && left > 1 {
      var more := Fields(after, left - 1);
      NothingBegun(after, left - 1);
      PrependTwice(out, begun, more);
      calc {
        Owed(line, limit, out, begun, Outside, i);
        Prepend(out, EndField(begun, line[i..], left));
        Prepend(out, Prepend([begun], more));
        Prepend(out + [begun], more);
        { assert limit - |out + [begun]| == left - 1; }
        Owed(line, limit, out + [begun], "", Outside, j);
      }
    }
  }

  lemma EndAtEnd(line: string, limit: nat, out: seq<string>, begun: string, mode: Mode)
    requires |out| < limit
    ensures Owed(line, limit, out, begun, mode, |line|)
            == if mode != Outside then Unterminated else Cut(if begun == "" then out else out + [begun], "")
  {
    assert line[|line|..] == "" && begun + "" == begun && out + [] == out;
  }

  lemma StartOwed(line: string, limit: nat)
    requires limit > 0
    ensures Fields(line, limit) == Owed(line, limit, [], "", Outside, 0)
  {
    assert line[0..] == line;
    NothingBegun(line, limit);
    var cut := Fields(line, limit);
    assert cut.Cut? ==> [] + cut.fields == cut.fields;
  }

  method SplitFields(line: string, limit: nat) returns (cut: Cut)
    requires limit > 0
    ensures cut == Fields(line, limit)
  {
    hide Fields, Owed, Stop;
    var out: seq<string> := [];
    var b := "";
    var inQuote := false;
    var i := 0;
    ghost var mode := Outside;
    StartOwed(line, limit);
    while i < |line|
      invariant 0 <= i <= |line| && |out| < limit
      invariant inQuote <==> mode != Outside
      invariant Settled(line, i, mode)
      invariant Fields(line, limit) == Owed(line, limit, out, b, mode, i)
    {
      var ch := line[i];
      if inQuote && EscapedQuote(line, i) {
        AdvanceEscape(line, limit, out, b, mode, i);
        mode := Inside;
        b := b + [ch];
        i := i + 1;
        b := b + [line[i]];
      } else if ch == '"' {
        Settles(line, i, mode);
        Advance(line, limit, out, b, mode, i);
        mode := Next(mode, ch);
        inQuote := !inQuote;
        b := b + [ch];
      } else if !inQuote && Blank(ch) {
        var last := SkipBlanks(line, i);
        EndAtBlank(line, limit, out, b, i, last + 1);
        i := last;
        if b != "" {
          out := out + [b];
          b := "";
          if |out| == limit {
            return Cut(out, line[i + 1..]);
          }
        }
      } else {
        Settles(line, i, mode);
        Advance(line, limit, out, b, mode, i);
        mode := Next(mode, ch);
        b := b + [ch];
      }
      i := i + 1;
    }
    EndAtEnd(line, limit, out, b, mode);
    if inQuote {
      return Unterminated;
    }
    if b != "" {
      out := out + [b];
    }
    return Cut(out, "");
  }

  /** The last blank of the run that starts at `i`. */
  method SkipBlanks(line: string, i: nat) returns (last: nat)
    requires i < |line|
    ensures i <= last < |line| && line[last + 1..] == TrimLeft(line[i + 1..])
  {
    last := i;
    while last + 1 < |line| && Blank(line[last + 1])
      invariant i <= last < |line| && TrimLeft(line[last + 1..]) == TrimLeft(line[i + 1..])
    {
      assert line[last + 1..][1..] == line[last + 2..];
      last := last + 1;
    }
  }

  // ----- what the fields of a line are

  /** A whole field followed by a blank is cut off exactly there. */
  lemma FieldThenBlank(field: string, tail: string, limit: nat)
    requires limit > 0 && field != "" && Whole(field, Blanks) && tail != "" && Blank(tail[0])
    ensures Fields(field + tail, limit)
            == if limit == 1 then Cut([field], TrimLeft(tail))
               else Prepend([field], Fields(TrimLeft(tail), limit - 1))
  {
    StopConcat(field, tail, Outside, Blanks);
    assert Stop(tail, Outside, Blanks) == 0;
    assert (field + tail)[..|field|] == field && (field + tail)[|field|..] == tail;
  }

  lemma LastField(field: string, limit: nat)
    requires limit > 0 && field != "" && Whole(field, Blanks)
    ensures Fields(field, limit) == Cut([field], "")
  {
    assert field[..|field|] == field;
  }

  /** Fields are non-empty, hold no unquoted blank and close their quotes, so
      no later scanner can find one unterminated. */
  lemma {:induction false} FieldsAreClosed(line: string, limit: nat)
    requires limit > 0 && Fields(line, limit).Cut?
    ensures forall f | f in Fields(line, limit).fields :: f != "" && Whole(f, Blanks) && Closed(f)
    decreases |line|
  {
    var n := Stop(line, Outside, Blanks);
    var field, tail := line[..n], line[n..];
    StopTruncates(line, Outside, Blanks);
    StopNowhere(field, Outside, Blanks);
    if tail != "" {
      var after := TrimLeft(tail[1..]);
      if field == "" {
        FieldsAreClosed(after, limit);
      } else if limit > 1 {
        FieldsAreClosed(after, limit - 1);
      }
    }
  }

  /** A scan with a larger limit sees the same fields first, so decisions made
      on the shorter scan stand. */
  lemma {:induction false} ScansAgree(line: string, few: nat, many: nat)
    requires 0 < few <= many && Fields(line, many).Cut?
    ensures Fields(line, few).Cut?
    ensures var a, b := Fields(line, few).fields, Fields(line, many).fields;
            a <= b && (|a| < few ==> a == b)
    decreases |line|
  {
    var n := Stop(line, Outside, Blanks);
    var field, tail := line[..n], line[n..];
    if tail != "" {
      var after := TrimLeft(tail[1..]);
      if field == "" {
        ScansAgree(after, few, many);
      } else if few > 1 {
        ScansAgree(after, few - 1, many - 1);
      }
    }
  }

  lemma {:induction false} TrimBlanks(blanks: string, s: string)
    requires forall i | 0 <= i < |blanks| :: Blank(blanks[i])
    ensures TrimLeft(blanks + s) == TrimLeft(s)
  {
    if blanks == "" {
      assert blanks + s == s;
    } else {
      assert (blanks + s)[1..] == blanks[1..] + s;
      TrimBlanks(blanks[1..], s);
    }
  }

  /** Blanks before the first field do not count. */
  lemma LeadingBlanks(blanks: string, s: string, limit: nat)
    requires limit > 0 && forall i | 0 <= i < |blanks| :: Blank(blanks[i])
    ensures Fields(blanks + s, limit) == Fields(s, limit)
    decreases |blanks| + |s|
  {
    var line := blanks + s;
    if blanks == "" {
      assert line == s;
    } else {
      assert Stop(line, Outside, Blanks) == 0 && line[0..] == line;
      assert line[1..] == blanks[1..] + s;
      TrimBlanks(blanks[1..], s);
      if s != "" && Blank(s[0]) {
        assert s[0..] == s;
      } else {
        assert TrimLeft(s) == s;
      }
    }
  }
}
