/** Options fields: splitting at commas and quoting of values
    (splitOptions, unquote and unquoteOptionValue in pkg/allowedsigners/parse.go). */
module OptionSyntax {
  import opened Wrappers
  import opened Text
  import opened Scanner

  // ----- splitting at unquoted commas

  datatype Parts = Parts(parts: seq<string>) | Unterminated

  function Cons(part: string, more: Parts): Parts {
    if more.Unterminated? then more else Parts([part] + more.parts)
  }

  function PartsOf(s: string): (r: Parts)
    ensures r.Parts? ==> r.parts != []
    decreases |s|, 1
  {
    var n := Stop(s, Outside, Commas);
    if n < 0 then Parts.Unterminated else EndPart(s[..n], s[n..])
  }

  /** A part just ended before `tail`, which is empty or starts with a comma. */
  function EndPart(part: string, tail: string): (r: Parts)
    ensures r.Parts? ==> r.parts != []
    decreases |tail|, 0
  {
    if tail == "" then Parts([part]) else Cons(part, PartsOf(tail[1..]))
  }

  /** The parts of a text whose current part already holds `begun`. */
  function PartsFrom(begun: string, mode: Mode, s: string): Parts {
    var n := Stop(s, mode, Commas);
    if n < 0 then Parts.Unterminated else EndPart(begun + s[..n], s[n..])
  }

  function Before(out: seq<string>, more: Parts): Parts {
    if more.Unterminated? then more else Parts(out + more.parts)
  }

  /** What the scan still owes, having put `out` and `begun` aside. */
  function OwedParts(s: string, out: seq<string>, begun: string, mode: Mode, i: nat): Parts
    requires i <= |s|
  {
    Before(out, PartsFrom(begun, mode, s[i..]))
  }

  lemma AdvancePart(begun: string, mode: Mode, s: string)
    requires s != "" && (mode == Outside ==> s[0] != ',')
    ensures PartsFrom(begun, mode, s) == PartsFrom(begun + [s[0]], Next(mode, s[0]), s[1..])
  {
    var n := Stop(s[1..], Next(mode, s[0]), Commas);
    if n >= 0 {
      assert begun + s[..n + 1] == begun + [s[0]] + s[1..][..n];
      assert s[n + 1..] == s[1..][n..];
    }
  }

  lemma Advance(s: string, out: seq<string>, begun: string, mode: Mode, i: nat)
    requires i < |s| && (mode == Outside ==> s[i] != ',')
    ensures OwedParts(s, out, begun, mode, i) == OwedParts(s, out, begun + [s[i]], Next(mode, s[i]), i + 1)
  {
    assert s[i..][1..] == s[i + 1..];
    AdvancePart(begun, mode, s[i..]);
  }

  lemma AdvanceEscape(s: string, out: seq<string>, begun: string, mode: Mode, i: nat)
    requires i < |s| && mode != Outside && EscapedQuote(s, i)
    ensures OwedParts(s, out, begun, mode, i) == OwedParts(s, out, begun + [s[i]] + [s[i + 1]], Inside, i + 2)
  {
    Advance(s, out, begun, mode, i);
    Advance(s, out, begun + [s[i]], Backslash, i + 1);
  }

  lemma NothingBegun(s: string)
    ensures PartsFrom("", Outside, s) == PartsOf(s)
  {
    var n := Stop(s, Outside, Commas);
    assert n >= 0 ==> "" + s[..n] == s[..n];
  }

  lemma EndAtComma(s: string, out: seq<string>, begun: string, i: nat)
    requires i < |s| && s[i] == ','
    ensures OwedParts(s, out, begun, Outside, i) == OwedParts(s, out + [begun], "", Outside, i + 1)
  {
    assert begun + s[i..][..0] == begun && s[i..][0..] == s[i..] && s[i..][1..] == s[i + 1..];
    var more := PartsOf(s[i + 1..]);
    NothingBegun(s[i + 1..]);
    assert OwedParts(s, out, begun, Outside, i) == Before(out, Cons(begun, more));
    assert more.Parts? ==> out + ([begun] + more.parts) == out + [begun] + more.parts;
  }

  lemma EndAtEnd(s: string, out: seq<string>, begun: string, mode: Mode)
    ensures OwedParts(s, out, begun, mode, |s|)
            == if mode != Outside then Parts.Unterminated else Parts(out + [begun])
  {
    assert s[|s|..] == "" && begun + "" == begun;
  }

  lemma StartOwed(s: string)
    ensures PartsOf(s) == OwedParts(s, [], "", Outside, 0)
  {
    assert s[0..] == s;
    NothingBegun(s);
    var r := PartsOf(s);
    assert r.Parts? ==> [] + r.parts == r.parts;
  }

  method SplitOptions(s: string) returns (r: Parts)
    ensures r == PartsOf(s)
  {
    var out: seq<string> := [];
    var b := "";
    var inQuote := false;
    var i := 0;
    ghost var mode := Outside;
    StartOwed(s);
    while i < |s|
      invariant 0 <= i <= |s|
      invariant inQuote <==> mode != Outside
      invariant Settled(s, i, mode)
      invariant PartsOf(s) == OwedParts(s, out, b, mode, i)
    {
      var ch := s[i];
      if inQuote && EscapedQuote(s, i) {
        AdvanceEscape(s, out, b, mode, i);
        mode := Inside;
        b := b + [ch];
        i := i + 1;
        b := b + [s[i]];
      } else if ch == '"' {
        Settles(s, i, mode);
        Advance(s, out, b, mode, i);
        mode := Next(mode, ch);
        inQuote := !inQuote;
        b := b + [ch];
      } else if !inQuote && ch == ',' {
        EndAtComma(s, out, b, i);
        out := out + [b];
        b := "";
      } else {
        Settles(s, i, mode);
        Advance(s, out, b, mode, i);
        mode := Next(mode, ch);
        b := b + [ch];
      }
      i := i + 1;
    }
    EndAtEnd(s, out, b, mode);
    if inQuote {
      return Parts.Unterminated;
    }
    return Parts(out + [b]);
  }

  /** Splitting fails exactly on an open quote, which no field of a line has. */
  lemma {:induction false} OpenQuoteIsTheOnlyError(s: string)
    ensures PartsOf(s).Parts? <==> Closed(s)
    decreases |s|
  {
    var n := Stop(s, Outside, Commas);
    StopNowhere(s, Outside, Commas);
    if 0 <= n < |s| {
      CommaSplitsClosed(s);
      OpenQuoteIsTheOnlyError(s[n + 1..]);
      assert s[n..][1..] == s[n + 1..];
    } else if n == |s| {
      assert s[n..] == "";
    }
  }

  /** Cutting at an unquoted comma leaves both sides as closed as the whole. */
  lemma CommaSplitsClosed(s: string)
    requires 0 <= Stop(s, Outside, Commas) < |s|
    ensures Closed(s) <==> Closed(s[Stop(s, Outside, Commas) + 1..])
  {
    var n := Stop(s, Outside, Commas);
    StopTruncates(s, Outside, Commas);
    StopNowhere(s[..n], Outside, Commas);
    assert s == s[..n] + s[n..] && s[n..][1..] == s[n + 1..];
    StopConcat(s[..n], s[n..], Outside, Nowhere);
  }

  /** Splitting and joining are inverse: the parts found are exactly those,
      without unquoted commas, that join to the text. */
  lemma {:induction false} OptionsAreJoinable(s: string, parts: seq<string>)
    requires PartsOf(s) == Parts(parts)
    ensures Join(parts, ',') == s && forall i | 0 <= i < |parts| :: Whole(parts[i], Commas)
    decreases |s|
  {
    var n := Stop(s, Outside, Commas);
    StopTruncates(s, Outside, Commas);
    if n < |s| {
      assert s[n..][1..] == s[n + 1..];
      OptionsAreJoinable(s[n + 1..], parts[1..]);
      assert s == s[..n] + [','] + s[n + 1..];
    } else {
      assert s[..n] == s && s[n..] == "";
    }
  }

  lemma OneMorePart(part: string, rest: string)
    requires Whole(part, Commas)
    ensures PartsOf(part + [','] + rest) == Cons(part, PartsOf(rest))
  {
    var tail := [','] + rest;
    var s := part + tail;
    assert part + [','] + rest == s;
    StopConcat(part, tail, Outside, Commas);
    assert Stop(tail, Outside, Commas) == 0;
    assert s[..|part|] == part && s[|part|..] == tail && tail[1..] == rest;
  }

  lemma {:induction false} JoinedOptions(parts: seq<string>)
    requires parts != [] && forall i | 0 <= i < |parts| :: Whole(parts[i], Commas)
    ensures PartsOf(Join(parts, ',')) == Parts(parts)
  {
    if |parts| == 1 {
      var s := parts[0];
      assert s[..|s|] == s && s[|s|..] == "";
      assert parts == [s];
    } else {
      JoinedOptions(parts[1..]);
      OneMorePart(parts[0], Join(parts[1..], ','));
      assert parts == [parts[0]] + parts[1..];
    }
  }

  // ----- quoting option values

  /** A value as it must be written between quotes. */
  function Escape(v: string): string {
    if v == "" then "" else (if v[0] == '"' then "\\\"" else [v[0]]) + Escape(v[1..])
  }

  /** The value written as `inner` between quotes: an escaped quote stands for
      a quote, a bare one is an error, other backslashes stay. */
  function Unescape(inner: string): Option<string> {
    if inner == "" then Some("")
    else if EscapedQuote(inner, 0) then PutBefore('"', Unescape(inner[2..]))
    else if inner[0] == '"' then None
    else PutBefore(inner[0], Unescape(inner[1..]))
  }

  function PutBefore(c: char, v: Option<string>): Option<string> {
    match v
    case None => None
    case Some(s) => Some([c] + s)
  }

  /** unquote: the closing quote is checked, the opening one is taken for granted. */
  function Unquoted(s: string): Option<string> {
    if |s| < 2 || s[|s| - 1] != '"' then None else Unescape(s[1..|s| - 1])
  }

  method Unquote(s: string) returns (v: Option<string>)
    ensures v == Unquoted(s)
  {
    if |s| < 2 || s[|s| - 1] != '"' {
      return None;
    }
    var inner := s[1..|s| - 1];
    var b := "";
    var i := 0;
    assert inner[0..] == inner && (Unescape(inner).Some? ==> "" + Unescape(inner).value == Unescape(inner).value);
    while i < |inner|
      invariant 0 <= i <= |inner|
      invariant Unescape(inner) == After(b, Unescape(inner[i..]))
    {
      var at := i;
      if EscapedQuote(inner, i) {
        i := i + 1;
      } else if inner[i] == '"' {
        return None;
      }
      AfterPut(b, inner[i], Unescape(inner[i + 1..]));
      assert inner[at..][i + 1 - at..] == inner[i + 1..];
      b := b + [inner[i]];
      i := i + 1;
    }
    assert inner[i..] == "" && b + "" == b;
    return Some(b);
  }

  function After(b: string, v: Option<string>): Option<string> {
    match v
    case None => None
    case Some(s) => Some(b + s)
  }

  lemma AfterPut(b: string, c: char, v: Option<string>)
    ensures After(b, PutBefore(c, v)) == After(b + [c], v)
  {
    if v.Some? {
      assert b + ([c] + v.value) == b + [c] + v.value;
    }
  }

  /** Escaping and unescaping are inverse, so a value has one spelling only. */
  lemma {:induction false} UnescapeInvertsEscape(inner: string, v: string)
    ensures Unescape(inner) == Some(v) <==> inner == Escape(v)
    decreases |inner| + |v|
  {
    if inner == "" {
      assert v != "" ==> |Escape(v)| >= 1;
    } else if v == "" {
    } else if EscapedQuote(inner, 0) {
      UnescapeInvertsEscape(inner[2..], v[1..]);
      assert inner == "\\\"" + inner[2..] && v == [v[0]] + v[1..];
      assert v[0] != '"' ==> Escape(v)[0] == v[0];
      EscapeNeverStartsWithQuote(v[1..]);
    } else {
      UnescapeInvertsEscape(inner[1..], v[1..]);
      assert inner == [inner[0]] + inner[1..] && v == [v[0]] + v[1..];
      EscapeNeverStartsWithQuote(v[1..]);
    }
  }

  lemma EscapeNeverStartsWithQuote(v: string)
    ensures Escape(v) != "" ==> Escape(v)[0] != '"'
  {
  }
}
