/** The part of Go's encoding/pem that reading armored signatures relies on
    (pem.Decode as of Go 1.26; used in pkg/sshsig/signature.go). */
module Pem {
  import opened Wrappers
  import opened Text
  import opened Keys
  import Base64

  const BEGIN := "-----BEGIN "
  const END := "-----END "
  const DASHES := "-----"

  const END_LINE := "\n-----END "

  // ----- searching

  predicate HasPrefix(s: string, prefix: string) {
    |prefix| <= |s| && s[..|prefix|] == prefix
  }

  /** The first place `pat` occurs, or -1. */
  function Index(s: string, pat: string): (i: int)
    ensures -1 <= i
    ensures i >= 0 ==> i + |pat| <= |s|
  {
    if HasPrefix(s, pat) then 0
    else if s == "" then -1
    else
      var i := Index(s[1..], pat);
      if i < 0 then -1 else i + 1
  }

  /** The last place `pat` occurs, or -1. */
  function LastIndex(s: string, pat: string): (i: int)
    ensures -1 <= i
    ensures i >= 0 ==> i + |pat| <= |s|
  {
    var later := if s == "" then -1 else LastIndex(s[1..], pat);
    if later >= 0 then later + 1 else if HasPrefix(s, pat) then 0 else -1
  }

  predicate Contains(s: string, pat: string) {
    Index(s, pat) >= 0
  }

  lemma {:induction false} IndexFinds(s: string, pat: string)
    requires Index(s, pat) >= 0
    ensures HasPrefix(s[Index(s, pat)..], pat)
  {
    if HasPrefix(s, pat) {
      assert s[0..] == s;
    } else {
      IndexFinds(s[1..], pat);
      var i := Index(s[1..], pat);
      assert s[1..][i..] == s[i + 1..];
    }
  }

  lemma {:induction false} LastIndexFinds(s: string, pat: string)
    requires LastIndex(s, pat) >= 0
    ensures HasPrefix(s[LastIndex(s, pat)..], pat)
  {
    var later := if s == "" then -1 else LastIndex(s[1..], pat);
    if later >= 0 {
      LastIndexFinds(s[1..], pat);
      assert s[1..][later..] == s[later + 1..];
    } else {
      assert s[0..] == s;
    }
  }

  lemma {:induction false} IndexHere(s: string, pat: string, i: nat)
    requires i <= |s| && HasPrefix(s[i..], pat)
    requires forall k | 0 <= k < i :: !HasPrefix(s[k..], pat)
    ensures Index(s, pat) == i
  {
    assert s[0..] == s;
    if i > 0 {
      assert s[1..][i - 1..] == s[i..];
      forall k | 0 <= k < i - 1 ensures !HasPrefix(s[1..][k..], pat) {
        assert s[1..][k..] == s[k + 1..];
      }
      IndexHere(s[1..], pat, i - 1);
    }
  }

  lemma {:induction false} LastIndexHere(s: string, pat: string, i: nat)
    requires i <= |s| && HasPrefix(s[i..], pat)
    requires forall k | i < k <= |s| :: !HasPrefix(s[k..], pat)
    ensures LastIndex(s, pat) == i
    decreases |s|
  {
    assert s[0..] == s;
    if s != "" {
      forall k | 0 <= k <= |s[1..]| ensures s[1..][k..] == s[k + 1..] {}
      if i == 0 {
        LastIndexNowhere(s[1..], pat);
      } else {
        LastIndexHere(s[1..], pat, i - 1);
      }
    }
  }

  lemma {:induction false} LastIndexNowhere(s: string, pat: string)
    requires forall k | 0 <= k <= |s| :: !HasPrefix(s[k..], pat)
    ensures LastIndex(s, pat) == -1
  {
    assert s[0..] == s;
    if s != "" {
      forall k | 0 <= k <= |s[1..]| ensures s[1..][k..] == s[k + 1..] {}
      LastIndexNowhere(s[1..], pat);
    }
  }

  lemma {:induction false} IndexNowhere(s: string, pat: string)
    requires forall k | 0 <= k <= |s| :: !HasPrefix(s[k..], pat)
    ensures Index(s, pat) == -1
  {
    assert s[0..] == s;
    if s != "" {
      forall k | 0 <= k <= |s[1..]| ensures s[1..][k..] == s[k + 1..] {}
      IndexNowhere(s[1..], pat);
    }
  }

  lemma {:induction false} ContainsAt(s: string, pat: string, k: nat)
    requires k <= |s| && HasPrefix(s[k..], pat)
    ensures Contains(s, pat)
  {
    assert s[0..] == s;
    if k > 0 {
      assert s[1..][k - 1..] == s[k..];
      ContainsAt(s[1..], pat, k - 1);
    }
  }

  // ----- lines

  datatype Line = Line(text: string, rest: string)

  /** Up to a line feed, without it, a carriage return before it, or trailing
      blanks. */
  function GetLine(s: string): (l: Line)
    ensures |l.rest| <= |s| && (s != "" ==> |l.rest| < |s|)
  {
    var i := Find(s, '\n');
    if i == |s| then Line(TrimRight(s), "")
    else if i > 0 && s[i - 1] == '\r' then Line(TrimRight(s[..i - 1]), s[i + 1..])
    else Line(TrimRight(s[..i]), s[i + 1..])
  }

  datatype Body = Body(headers: bool, rest: string) | NoBody

  /** Lines with a colon before the base64 text are headers. */
  function SkipHeaders(s: string, seen: bool): Body
    decreases |s|
  {
    if s == "" then NoBody
    else
      var line := GetLine(s);
      if ':' in line.text then SkipHeaders(line.rest, true) else Body(seen, s)
  }

  lemma {:induction false} HeadersAreSeen(s: string)
    ensures SkipHeaders(s, true).Body? ==> SkipHeaders(s, true).headers
    ensures SkipHeaders(s, false).Body? && !SkipHeaders(s, false).headers ==> SkipHeaders(s, false).rest == s
    ensures SkipHeaders(s, false).Body? ==> |SkipHeaders(s, false).rest| <= |s|
    ensures SkipHeaders(s, true).Body? ==> |SkipHeaders(s, true).rest| <= |s|
    decreases |s|
  {
    if s != "" {
      HeadersAreSeen(GetLine(s).rest);
    }
  }

  function WithoutBlanks(s: string): string {
    if s == "" then ""
    else if Blank(s[0]) then WithoutBlanks(s[1..])
    else [s[0]] + WithoutBlanks(s[1..])
  }

  // ----- blocks

  /** A block and what follows it. */
  datatype Block = Block(typ: string, headers: bool, bytes: Bytes, rest: string)

  /** What becomes of one END line: its block, a search beyond it, or the end
      of all searching. */
  datatype Attempt = Found(block: Block) | Malformed | GivenUp

  /** A block with the places of its header and of its END line. */
  datatype Place = Place(begin: nat, end: nat, block: Block) | Nowhere

  /** An END line in a text, with the line feed before it. */
  predicate EndsAt(s: string, end: nat) {
    end + |END_LINE| <= |s| && s[end..end + |END_LINE|] == END_LINE
  }

  /** Reads the block whose header's type begins a text, given its END line. */
  type BlockReader = (string, nat) -> Attempt

  /** The search of pem.Decode: the first END line belongs to the last header
      before it, which must start a line. If the two do not enclose a block,
      the search goes on behind the END line. */
  function Search(read: BlockReader, s: string): (place: Place)
    decreases |s|
  {
    var end := Index(s, END_LINE);
    if end < 0 then Nowhere
    else
      match Attempted(read, s, end)
      case Found(block) => Place(LastIndex(s[..end], BEGIN), end, block)
      case Malformed => Shifted(end + |END_LINE|, Search(read, s[end + |END_LINE|..]))
      case GivenUp => Nowhere
  }

  function Attempted(read: BlockReader, s: string, end: nat): (a: Attempt)
    requires end <= |s|
    ensures a.Found? ==> LastIndex(s[..end], BEGIN) >= 0
  {
    var begin := LastIndex(s[..end], BEGIN);
    if begin < 0 || (begin > 0 && s[begin - 1] != '\n') then Malformed
    else read(s[begin + |BEGIN|..], end - begin - |BEGIN|)
  }

  function Shifted(k: nat, place: Place): Place {
    match place
    case Place(begin, end, block) => Place(k + begin, k + end, block)
    case Nowhere => Nowhere
  }

  /** pem.Decode, which tells its callers the block only. */
  function Decode(s: string): Place {
    Search(BlockAt, s)
  }

  /** The search always comes with an END line. */
  function BlockAt(s: string, end: nat): Attempt {
    if EndsAt(s, end) then DecodeAt(s, end) else Malformed
  }

  /** The block whose header's type begins `s`, and whose END line is at `end`. */
  function DecodeAt(s: string, end: nat): Attempt
    requires EndsAt(s, end)
  {
    var first := GetLine(s);
    if !HasSuffix(first.text, DASHES) then Malformed
    else
      match SkipHeaders(first.rest, false)
      case NoBody => GivenUp
      case Body(headers, rest) =>
        var at := end - (|s| - |rest|);
        TypeLineEnds(s, end);
        // Lines taken for headers may include the END line.
        if headers && at < 0 then if at + |END_LINE| < 0 then GivenUp else Malformed
        else DecodeBody(first.text[..|first.text| - |DASHES|], headers, rest, at)
  }

  /** The block whose text ends at the line feed `at` before the END line, which
      is -1 when that line feed already ended the header's line. */
  function DecodeBody(typ: string, headers: bool, rest: string, at: int): Attempt
    requires -1 <= at && at + |END_LINE| <= |rest|
  {
    var trailer := at + |END_LINE|;
    var t, n := rest[trailer..], |typ| + |DASHES|;
    if |t| < n || !HasPrefix(t, typ) || t[|typ|..n] != DASHES then Malformed
    else if GetLine(t[n..]).text != "" then Malformed
    else
      match Base64.Decode(WithoutBlanks(TextBefore(rest, at)))
      case None => Malformed
      case Some(bytes) => Found(Block(typ, headers, bytes, GetLine(rest[trailer - 1..]).rest))
  }

  function TextBefore(rest: string, at: int): string
    requires at <= |rest|
  {
    if at > 0 then rest[..at] else ""
  }

  lemma SliceOfTail(s: string, k: nat, i: nat, j: nat)
    requires i <= j && k + j <= |s|
    ensures s[k..][i..j] == s[k + i..k + j]
  {
  }

  lemma PrefixIsSlice(s: string, i: nat, pat: string)
    requires i <= |s| && HasPrefix(s[i..], pat)
    ensures i + |pat| <= |s| && s[i..i + |pat|] == pat
  {
    SliceOfTail(s, i, 0, |pat|);
  }

  lemma {:induction false} EndLineFound(s: string, k: nat)
    requires k <= Index(s, END_LINE)
    ensures EndsAt(s[k..], Index(s, END_LINE) - k)
  {
    var end := Index(s, END_LINE);
    IndexFinds(s, END_LINE);
    PrefixIsSlice(s, end, END_LINE);
    SliceOfTail(s, k, end - k, end - k + |END_LINE|);
  }

  lemma BreakIsFound(s: string, i: nat)
    requires i < |s| && s[i] == '\n'
    ensures Find(s, '\n') <= i
  {
    var n := Find(s, '\n');
    assert forall k | 0 <= k < n :: s[..n][k] == s[k];
  }

  /** The line that starts at a header ends no later than the END line starts. */
  lemma {:induction false} TypeLineEnds(s: string, end: nat)
    requires EndsAt(s, end)
    ensures |s| - |GetLine(s).rest| <= end + 1
    ensures var body := SkipHeaders(GetLine(s).rest, false);
            body.Body? && !body.headers ==> body.rest == GetLine(s).rest
    ensures var body := SkipHeaders(GetLine(s).rest, false); body.Body? ==> |body.rest| <= |s|
  {
    assert s[end] == s[end..end + |END_LINE|][0] == '\n';
    BreakIsFound(s, end);
    HeadersAreSeen(GetLine(s).rest);
  }

  // ----- where blocks are found

  /** What follows a block begins behind its END line. */
  lemma {:induction false} RestIsBehind(s: string, end: nat)
    requires EndsAt(s, end) && DecodeAt(s, end).Found?
    ensures |DecodeAt(s, end).block.rest| <= |s| - end - |END_LINE|
  {
    TypeLineEnds(s, end);
  }

  /** A header in a text; one that does not start the text is on a later line. */
  predicate HeaderAt(s: string, begin: nat) {
    begin <= |s| && HasPrefix(s[begin..], BEGIN) && (begin > 0 ==> '\n' in s[..begin])
  }

  /** A header and an END line that enclose a block. */
  predicate Encloses(read: BlockReader, s: string, place: Place) {
    && place.Place? && HeaderAt(s, place.begin) && place.begin + |BEGIN| <= place.end
    && EndsAt(s, place.end)
    && read(s[place.begin + |BEGIN|..], place.end - place.begin - |BEGIN|) == Found(place.block)
  }

  lemma HeaderFound(s: string, end: nat)
    requires end <= |s| && LastIndex(s[..end], BEGIN) >= 0
    ensures var b := LastIndex(s[..end], BEGIN); (b == 0 || s[b - 1] == '\n') ==> HeaderAt(s, b)
  {
    var b, head := LastIndex(s[..end], BEGIN), s[..end];
    LastIndexFinds(head, BEGIN);
    PrefixIsSlice(head, b, BEGIN);
    assert s[b..][..|BEGIN|] == head[b..b + |BEGIN|];
    assert b > 0 ==> s[..b][b - 1] == s[b - 1];
  }

  lemma HeaderInTail(s: string, k: nat, begin: nat)
    requires k <= |s| && '\n' in s[..k] && HeaderAt(s[k..], begin)
    ensures HeaderAt(s, k + begin)
  {
    assert s[k..][begin..] == s[k + begin..];
    assert s[..k + begin] == s[..k] + s[k..k + begin];
  }

  lemma EnclosesInTail(read: BlockReader, s: string, k: nat, place: Place)
    requires k <= |s| && '\n' in s[..k] && Encloses(read, s[k..], place)
    ensures Encloses(read, s, Shifted(k, place))
  {
    HeaderInTail(s, k, place.begin);
    SliceOfTail(s, k, place.end, place.end + |END_LINE|);
    assert s[k..][place.begin + |BEGIN|..] == s[k + place.begin + |BEGIN|..];
  }

  lemma EndLineBreaks(s: string, end: nat)
    requires EndsAt(s, end)
    ensures '\n' in s[..end + |END_LINE|]
  {
    assert s[..end + |END_LINE|][end] == s[end..end + |END_LINE|][0] == '\n';
  }

  lemma SearchHere(read: BlockReader, s: string, begin: nat, tail: string, end: nat, block: Block)
    requires Index(s, END_LINE) == begin + |BEGIN| + end && LastIndex(s[..begin + |BEGIN| + end], BEGIN) == begin
    requires begin == 0 || s[begin - 1] == '\n'
    requires s[begin + |BEGIN|..] == tail && read(tail, end) == Found(block)
    ensures Search(read, s) == Place(begin, begin + |BEGIN| + end, block)
  {
  }

  /** Whatever is found stands between some header and some END line. */
  lemma {:induction false} FoundIsEnclosed(read: BlockReader, s: string)
    requires Search(read, s).Place?
    ensures Encloses(read, s, Search(read, s))
    decreases |s|
  {
    var end := Index(s, END_LINE);
    EndLineFound(s, 0);
    assert s[0..] == s;
    if Attempted(read, s, end).Found? {
      HeaderFound(s, end);
    } else {
      FoundIsEnclosed(read, s[end + |END_LINE|..]);
      EndLineBreaks(s, end);
      EnclosesInTail(read, s, end + |END_LINE|, Search(read, s[end + |END_LINE|..]));
    }
  }

  // ----- what blocks are made of

  predicate Space(c: char) {
    c == ' ' || c == '\t' || c == '\r' || c == '\n'
  }

  predicate AllSpace(s: string) {
    forall i | 0 <= i < |s| :: Space(s[i])
  }

  lemma {:induction false} TrimRightSplits(s: string)
    ensures var k := |TrimRight(s)|; s == TrimRight(s) + s[k..] && AllSpace(s[k..])
  {
    if s != "" && Blank(s[|s| - 1]) {
      var init := s[..|s| - 1];
      TrimRightSplits(init);
      var k := |TrimRight(s)|;
      assert s == init + [s[|s| - 1]];
      assert s[k..] == init[k..] + [s[|s| - 1]];
    }
  }

  lemma TrimmedHasNoBreak(s: string)
    requires '\n' !in s
    ensures '\n' !in TrimRight(s)
  {
    TrimRightSplits(s);
    assert forall c | c in TrimRight(s) :: c in TrimRight(s) + s[|TrimRight(s)|..];
  }

  lemma LineSplits(s: string, j: nat, i: nat) returns (gap: string)
    requires j <= i < |s| && AllSpace(s[j..i + 1])
    ensures s == TrimRight(s[..j]) + gap + s[i + 1..] && AllSpace(gap)
  {
    var full := s[..j];
    TrimRightSplits(full);
    gap := full[|TrimRight(full)|..] + s[j..i + 1];
    assert s == full + s[j..i + 1] + s[i + 1..];
  }

  /** A line is its text, whitespace up to the line feed, and the rest. */
  lemma GetLineSplits(s: string) returns (gap: string)
    ensures s == GetLine(s).text + gap + GetLine(s).rest && AllSpace(gap)
    ensures '\n' !in GetLine(s).text
  {
    var i := Find(s, '\n');
    if i == |s| {
      assert s[..i] == s;
      TrimRightSplits(s);
      TrimmedHasNoBreak(s);
      gap := s[|TrimRight(s)|..];
      assert TrimRight(s) + gap + "" == s;
    } else {
      var j := if i > 0 && s[i - 1] == '\r' then i - 1 else i;
      assert s[j..i + 1] == if j < i then "\r\n" else "\n";
      gap := LineSplits(s, j, i);
      assert s[..j] == s[..i][..j];
      TrimmedHasNoBreak(s[..j]);
    }
  }

  lemma {:induction false} WithoutBreaksConcat(a: string, b: string)
    ensures Base64.WithoutBreaks(a + b) == Base64.WithoutBreaks(a) + Base64.WithoutBreaks(b)
  {
    if a == "" {
      assert a + b == b;
    } else {
      assert (a + b)[1..] == a[1..] + b;
      WithoutBreaksConcat(a[1..], b);
    }
  }

  /** The base64 text that decoding looks at. */
  function Stripped(s: string): string {
    Base64.WithoutBreaks(WithoutBlanks(s))
  }

  lemma {:induction false} WithoutBlanksConcat(a: string, b: string)
    ensures WithoutBlanks(a + b) == WithoutBlanks(a) + WithoutBlanks(b)
  {
    if a == "" {
      assert a + b == b;
    } else {
      assert (a + b)[1..] == a[1..] + b;
      WithoutBlanksConcat(a[1..], b);
    }
  }

  lemma StrippedConcat(a: string, b: string)
    ensures Stripped(a + b) == Stripped(a) + Stripped(b)
  {
    WithoutBlanksConcat(a, b);
    WithoutBreaksConcat(WithoutBlanks(a), WithoutBlanks(b));
  }

  lemma {:induction false} SpaceStripsAway(s: string)
    requires AllSpace(s)
    ensures Stripped(s) == ""
  {
    if s != "" {
      assert s == [s[0]] + s[1..];
      SpaceStripsAway(s[1..]);
      StrippedConcat([s[0]], s[1..]);
      assert [s[0]][1..] == "";
      assert Stripped([s[0]]) == "";
    }
  }

  lemma {:induction false} FindPast(a: string, u: string, c: char)
    requires c !in a
    ensures Find(a + u, c) == |a| + Find(u, c)
  {
    if a == "" {
      assert a + u == u;
    } else {
      assert (a + u)[1..] == a[1..] + u;
      FindPast(a[1..], u, c);
    }
  }

  lemma {:induction false} RestAfterBreak(s: string)
    ensures var i := Find(s, '\n'); GetLine(s).rest == if i == |s| then "" else s[i + 1..]
  {
  }

  /** What follows the END line is found from anywhere in that line. */
  lemma EndOfLastLine(a: string, u: string)
    requires '\n' !in a
    ensures GetLine(a + u).rest == GetLine(u).rest
  {
    var i := Find(u, '\n');
    FindPast(a, u, '\n');
    RestAfterBreak(u);
    RestAfterBreak(a + u);
    assert i < |u| ==> (a + u)[|a| + i + 1..] == u[i + 1..];
  }

  lemma TypeThenDashes(t: string, typ: string)
    requires |t| >= |typ| + |DASHES| && HasPrefix(t, typ) && t[|typ|..|typ| + |DASHES|] == DASHES
    ensures t == typ + DASHES + t[|typ| + |DASHES|..]
  {
  }

  lemma EmptyLineSplits(u: string) returns (gap: string)
    requires GetLine(u).text == ""
    ensures u == gap + GetLine(u).rest && AllSpace(gap)
  {
    gap := GetLineSplits(u);
    assert "" + gap == gap;
  }

  lemma TrailerChecked(typ: string, rest: string, at: int)
    requires -1 <= at && at + |END_LINE| <= |rest| && DecodeBody(typ, false, rest, at).Found?
    ensures var t, n := rest[at + |END_LINE|..], |typ| + |DASHES|;
            |t| >= n && HasPrefix(t, typ) && t[|typ|..n] == DASHES && GetLine(t[n..]).text == ""
    ensures DecodeBody(typ, false, rest, at).block.rest == GetLine(rest[at + |END_LINE| - 1..]).rest
  {
  }

  lemma LineFromBlank(typ: string, rest: string, trailer: nat, u: string)
    requires 0 < trailer <= |rest| && '\n' !in typ && rest[trailer - 1] == ' '
    requires rest[trailer..] == typ + DASHES + u
    ensures GetLine(rest[trailer - 1..]).rest == GetLine(u).rest
  {
    var a := " " + typ + DASHES;
    assert rest[trailer - 1..] == " " + rest[trailer..] == a + u;
    EndOfLastLine(a, u);
  }

  /** After the END line's type and dashes only whitespace separates it from
      what follows. */
  lemma TrailerShape(typ: string, rest: string, at: int) returns (gap: string)
    requires -1 <= at && at + |END_LINE| <= |rest| && '\n' !in typ && rest[at + |END_LINE| - 1] == ' '
    requires DecodeBody(typ, false, rest, at).Found?
    ensures rest[at + |END_LINE|..] == typ + DASHES + (gap + DecodeBody(typ, false, rest, at).block.rest)
    ensures AllSpace(gap)
  {
    TrailerChecked(typ, rest, at);
    var t := rest[at + |END_LINE|..];
    var u := t[|typ| + |DASHES|..];
    TypeThenDashes(t, typ);
    gap := EmptyLineSplits(u);
    LineFromBlank(typ, rest, at + |END_LINE|, u);
  }

  lemma BodyDecoded(typ: string, rest: string, at: int)
    requires -1 <= at && at + |END_LINE| <= |rest| && DecodeBody(typ, false, rest, at).Found?
    ensures Base64.DecodeGroups(Stripped(TextBefore(rest, at))) == Some(DecodeBody(typ, false, rest, at).block.bytes)
    ensures DecodeBody(typ, false, rest, at).block.typ == typ
  {
  }

  lemma LineFeedStripsAway(s: string)
    ensures Stripped(s + "\n") == Stripped(s)
  {
    StrippedConcat(s, "\n");
    SpaceStripsAway("\n");
    assert Stripped(s) + "" == Stripped(s);
  }

  /** An END line that starts before a text, at its start, or in it. */
  predicate EndsIn(rest: string, at: int) {
    && -1 <= at && at + |END_LINE| <= |rest|
    && (if at < 0 then rest[..|END|] == END else rest[at..at + |END_LINE|] == END_LINE)
  }

  /** The text before the END line, its own line feed included. */
  lemma BodyBefore(rest: string, at: int) returns (body: string)
    requires EndsIn(rest, at)
    ensures rest == body + END + rest[at + |END_LINE|..] && rest[at + |END_LINE| - 1] == ' '
    ensures Stripped(body) == Stripped(TextBefore(rest, at))
  {
    var trailer := at + |END_LINE|;
    assert END_LINE == "\n" + END && END[8] == ' ' && END_LINE[9] == ' ';
    assert rest == rest[..trailer] + rest[trailer..];
    if at < 0 {
      assert rest[..|END|][8] == rest[8];
      body := "";
    } else {
      assert rest[at..trailer][9] == rest[trailer - 1];
      assert rest[..trailer] == rest[..at] + rest[at..trailer];
      body := rest[..at] + "\n";
      LineFeedStripsAway(rest[..at]);
      assert at == 0 ==> rest[..at] == "";
    }
  }

  lemma BodyShape(typ: string, rest: string, at: int) returns (body: string, gap: string)
    requires EndsIn(rest, at) && '\n' !in typ && DecodeBody(typ, false, rest, at).Found?
    ensures var block := DecodeBody(typ, false, rest, at).block;
            && rest == body + END + (typ + DASHES + (gap + block.rest)) && AllSpace(gap)
            && Base64.DecodeGroups(Stripped(body)) == Some(block.bytes) && block.typ == typ
  {
    body := BodyBefore(rest, at);
    BodyDecoded(typ, rest, at);
    gap := TrailerShape(typ, rest, at);
  }

  lemma EndLineInRest(s: string, end: nat, rest: string)
    requires EndsAt(s, end) && |rest| <= |s| && rest == s[|s| - |rest|..] && |s| - |rest| <= end + 1
    ensures EndsIn(rest, end - (|s| - |rest|))
  {
    var k := |s| - |rest|;
    if k <= end {
      SliceOfTail(s, k, end - k, end - k + |END_LINE|);
    } else {
      assert rest[..|END|] == s[end..end + |END_LINE|][1..];
    }
  }

  /** The steps of reading a block that has no headers. */
  lemma {:induction false} DecodedSteps(s: string, end: nat, block: Block) returns (at: int)
    requires EndsAt(s, end) && DecodeAt(s, end) == Found(block) && !block.headers
    ensures var first := GetLine(s);
            && first.text == block.typ + DASHES && at == end - (|s| - |first.rest|)
            && |s| - |first.rest| <= end + 1
            && DecodeBody(block.typ, false, first.rest, at) == Found(block)
  {
    TypeLineEnds(s, end);
    var first := GetLine(s);
    at := end - (|s| - |first.rest|);
    var typ := first.text[..|first.text| - |DASHES|];
    assert first.text == typ + DASHES;
  }

  lemma LeadingSpace(lead: string, inner: string)
    requires AllSpace(lead)
    ensures Stripped(lead + inner) == Stripped(inner)
  {
    SpaceStripsAway(lead);
    StrippedConcat(lead, inner);
    assert "" + Stripped(inner) == Stripped(inner);
  }

  /** The line of a header without the header lines a block may have. */
  lemma {:induction false} HeaderLine(s: string, end: nat, block: Block) returns (lead: string, rest: string, at: int)
    requires EndsAt(s, end) && DecodeAt(s, end) == Found(block) && !block.headers
    ensures s == block.typ + DASHES + lead + rest && AllSpace(lead) && '\n' !in block.typ
    ensures EndsIn(rest, at) && DecodeBody(block.typ, false, rest, at) == Found(block)
  {
    at := DecodedSteps(s, end, block);
    lead := GetLineSplits(s);
    rest := GetLine(s).rest;
    assert forall c | c in block.typ :: c in GetLine(s).text;
    assert s[|s| - |rest|..] == rest;
    EndLineInRest(s, end, rest);
  }

  /** A block without headers, from behind its header's BEGIN to its end. */
  lemma {:induction false} BlockShape(s: string, end: nat, block: Block) returns (body: string, gap: string)
    requires EndsAt(s, end) && DecodeAt(s, end) == Found(block) && !block.headers
    ensures s == block.typ + DASHES + body + (END + block.typ + DASHES) + (gap + block.rest) && AllSpace(gap)
    ensures Base64.DecodeGroups(Stripped(body)) == Some(block.bytes)
  {
    var lead, rest, at := HeaderLine(s, end, block);
    body, gap := FramedBody(s, lead, rest, at, block);
  }

  lemma FramedBody(s: string, lead: string, rest: string, at: int, block: Block) returns (body: string, gap: string)
    requires s == block.typ + DASHES + lead + rest && AllSpace(lead) && '\n' !in block.typ
    requires EndsIn(rest, at) && DecodeBody(block.typ, false, rest, at) == Found(block)
    ensures s == block.typ + DASHES + body + (END + block.typ + DASHES) + (gap + block.rest) && AllSpace(gap)
    ensures Base64.DecodeGroups(Stripped(body)) == Some(block.bytes)
  {
    var inner;
    inner, gap := BodyShape(block.typ, rest, at);
    body := lead + inner;
    LeadingSpace(lead, inner);
    Reassembled(block.typ + DASHES, lead, inner, block.typ + DASHES, gap + block.rest);
    assert END + (block.typ + DASHES) == END + block.typ + DASHES;
  }

  lemma Reassembled(first: string, lead: string, inner: string, last: string, after: string)
    ensures first + lead + (inner + END + (last + after)) == first + (lead + inner) + (END + last) + after
  {
  }
}
