/** Armored signature files: writing and reading
    (Armor in pkg/sshsig/protocol.go, signatureRead in pkg/sshsig/signature.go). */
module Armor {
  import opened Wrappers
  import opened Text
  import opened Keys
  import opened Pem
  import opened Sshsig
  import Base64

  const PEM_TYPE := "SSH SIGNATURE"
  const COLUMNS := 70

  const HEADER := BEGIN + (PEM_TYPE + DASHES)
  const FOOTER := END + PEM_TYPE + DASHES

  // ----- writing

  /** Text broken into lines of at most 70 columns, each ended. */
  function Wrap(s: string): string {
    if |s| > COLUMNS then s[..COLUMNS] + "\n" + Wrap(s[COLUMNS..])
    else if s != "" then s + "\n" else ""
  }

  function Armored(b: Bytes): string {
    HEADER + "\n" + Wrap(Base64.Encode(b)) + FOOTER + "\n"
  }

  method ArmorBlob(b: Bytes) returns (out: string)
    ensures out == Armored(b)
  {
    var encoded: string := Base64.Encode(b);
    out := HEADER + "\n";
    ghost var start, whole := out, encoded;
    while |encoded| > COLUMNS
      invariant out + Wrap(encoded) == start + Wrap(whole)
    {
      ghost var was := out;
      out := out + encoded[..COLUMNS];
      out := out + "\n";
      assert out == was + (encoded[..COLUMNS] + "\n");
      encoded := encoded[COLUMNS..];
    }
    if encoded != "" {
      out := out + encoded;
      out := out + "\n";
    }
    assert out == start + Wrap(whole);
    out := out + FOOTER + "\n";
  }

  lemma {:induction false} WrapLength(s: string)
    ensures |Wrap(s)| == |s| + (|s| + COLUMNS - 1) / COLUMNS
  {
    if |s| > COLUMNS {
      WrapLength(s[COLUMNS..]);
    }
  }

  /** 58 bytes of frame, the base64 text, and one line end per 70 columns begun. */
  lemma ArmoredLength(b: Bytes)
    ensures var e := (|b| + 2) / 3 * 4; |Armored(b)| == 58 + e + (e + 69) / 70
  {
    WrapLength(Base64.Encode(b));
    assert |HEADER| == 29 && |FOOTER| == 27;
  }

  // ----- reading

  datatype ReadError =
    | NoData | TooLong | NoHeader | BadBlock | SecondHeader | WrongType | HeadersPresent | DataAfter
    | BadSignature(error: Sshsig.Error)

  /** The blob in an armored file. */
  function Unarmored(data: string, max: nat): Result<Bytes, ReadError> {
    if data == "" then Err(NoData)
    else if |data| > max then Err(TooLong)
    else if !HasPrefix(data, HEADER) then Err(NoHeader)
    else
      BlockEndsBehindHeader(data);
      Judged(data, Decode(data))
  }

  /** A block with an END line, both behind the header that starts a text. */
  predicate Behind(data: string, place: Place) {
    place.Place? ==>
      && place.begin + |BEGIN| <= place.end <= |data| - |place.block.rest| - |END_LINE|
      && |HEADER| <= place.end
  }

  /** The checks on what pem.Decode finds. Another header is searched between
      the first one and the end of the block. */
  function Judged(data: string, place: Place): Result<Bytes, ReadError>
    requires Behind(data, place)
  {
    match place
    case Nowhere => Err(BadBlock)
    case Place(_, _, block) =>
      if Contains(data[|HEADER|..|data| - |block.rest|], BEGIN) then Err(SecondHeader)
      else if block.typ != PEM_TYPE then Err(WrongType)
      else if block.headers then Err(HeadersPresent)
      else if !AllSpace(block.rest) then Err(DataAfter)
      else Ok(block.bytes)
  }

  /** signatureRead over everything its reader yields. A signature that is
      returned has passed every check that Verify repeats. */
  function SignatureRead(parse: KeyParser, data: string, max: nat): (r: Result<Signature, ReadError>)
    ensures r.Ok? ==> ValidateStructure(parse, r.value).None? && ValidateAlgorithm(parse, r.value).None?
  {
    match Unarmored(data, max)
    case Err(e) => Err(e)
    case Ok(blob) => ReadBlob(parse, blob)
  }

  function ReadBlob(parse: KeyParser, blob: Bytes): (r: Result<Signature, ReadError>)
    ensures r.Ok? ==> ValidateStructure(parse, r.value).None? && ValidateAlgorithm(parse, r.value).None?
  {
    match ParseSignature(parse, blob)
    case Err(e) => Err(BadSignature(e))
    case Ok(sig) =>
      match ValidateAlgorithm(parse, sig)
      case Some(e) => Err(BadSignature(e))
      case None => Ok(sig)
  }

  /** A text that starts with the header has no line feed before its end. */
  lemma HeaderIsOneLine(data: string, i: nat)
    requires HasPrefix(data, HEADER) && i < |data| && data[i] == '\n'
    ensures i >= |HEADER| == 29
  {
    assert HEADER == "-----BEGIN SSH SIGNATURE-----";
    assert forall k | 0 <= k < |HEADER| :: data[..|HEADER|][k] == data[k];
  }

  /** A decoded block ends behind the header, so the text between the two that
      is searched for another header is always there. */
  lemma BlockEndsBehindHeader(data: string)
    requires HasPrefix(data, HEADER)
    ensures Behind(data, Decode(data))
  {
    var place := Decode(data);
    if place.Place? {
      FoundIsEnclosed(BlockAt, data);
      BlockEnds(data, place);
      EndsBehindHeader(BlockAt, data, place);
    }
  }

  lemma EndsBehindHeader(read: BlockReader, data: string, place: Place)
    requires HasPrefix(data, HEADER) && Encloses(read, data, place)
    ensures place.begin + |BEGIN| <= place.end && |HEADER| <= place.end
  {
    assert data[place.end] == data[place.end..place.end + |END_LINE|][0] == '\n';
    HeaderIsOneLine(data, place.end);
  }

  lemma BlockEnds(data: string, place: Place)
    requires Encloses(BlockAt, data, place)
    ensures place.end <= |data| - |place.block.rest| - |END_LINE|
  {
    var k := place.begin + |BEGIN|;
    RestIsBehind(data[k..], place.end - k);
  }

  // ----- reading undoes writing

  lemma GetLineHere(text: string, rest: string)
    requires '\n' !in text && (text != "" ==> !Blank(text[|text| - 1]) && text[|text| - 1] != '\r')
    ensures GetLine(text + "\n" + rest) == Line(text, rest)
  {
    var s := text + "\n" + rest;
    assert s == text + ("\n" + rest);
    FindHere(text, "\n" + rest, '\n');
    assert s[..|text|] == text && s[|text| + 1..] == rest;
    assert |text| > 0 ==> s[|text| - 1] == text[|text| - 1];
  }

  /** What stands between header and footer. */
  predicate BodyByte(c: char) {
    Base64.IsDigit(c) || c == '=' || c == '\n'
  }

  predicate Digits(s: string) {
    forall i | 0 <= i < |s| :: Base64.IsDigit(s[i]) || s[i] == '='
  }

  lemma {:induction false} WrapShape(s: string)
    requires s != "" && Digits(s)
    ensures var w := Wrap(s); |w| >= 2 && w[|w| - 1] == '\n' && w[0] == s[0]
    ensures forall i | 0 <= i < |Wrap(s)| :: BodyByte(Wrap(s)[i])
    ensures Base64.WithoutBreaks(Wrap(s)) == s
  {
    if |s| > COLUMNS {
      var first, more := s[..COLUMNS], s[COLUMNS..];
      WrapShape(more);
      WithoutBreaksConcat(first + "\n", Wrap(more));
      WithoutBreaksConcat(first, "\n");
      Base64.NothingToStrip(first);
      assert Base64.WithoutBreaks("\n") == "";
      assert first + "" + more == s;
    } else {
      WithoutBreaksConcat(s, "\n");
      Base64.NothingToStrip(s);
      assert Base64.WithoutBreaks("\n") == "";
    }
  }

  lemma {:induction false} NoBlanksToDrop(s: string)
    requires forall i | 0 <= i < |s| :: !Blank(s[i])
    ensures WithoutBlanks(s) == s
  {
    if s != "" {
      NoBlanksToDrop(s[1..]);
    }
  }

  lemma WrapFirst(s: string) returns (first: string, more: string)
    requires s != "" && Digits(s)
    ensures Wrap(s) == first + "\n" + more && first != "" && Digits(first)
  {
    if |s| > COLUMNS {
      first, more := s[..COLUMNS], Wrap(s[COLUMNS..]);
    } else {
      first, more := s, "";
    }
  }

  /** The first line of wrapped text has no colon. */
  lemma FirstLine(s: string, after: string)
    requires s != "" && Digits(s)
    ensures SkipHeaders(Wrap(s) + after, false) == Body(false, Wrap(s) + after)
  {
    var first, more := WrapFirst(s);
    assert Wrap(s) + after == first + "\n" + (more + after);
    DigitsAreQuiet(first);
    GetLineHere(first, more + after);
  }

  lemma DigitsAreQuiet(s: string)
    requires Digits(s)
    ensures '\n' !in s && ':' !in s && (s != "" ==> !Blank(s[|s| - 1]) && s[|s| - 1] != '\r')
  {
    assert s != "" ==> Base64.IsDigit(s[|s| - 1]) || s[|s| - 1] == '=';
  }

  lemma FinalBreak(body: string)
    ensures Base64.WithoutBreaks(body + "\n") == Base64.WithoutBreaks(body)
  {
    WithoutBreaksConcat(body, "\n");
    assert Base64.WithoutBreaks("\n") == "";
    assert Base64.WithoutBreaks(body) + "" == Base64.WithoutBreaks(body);
  }

  lemma BodyDecodes(b: Bytes, body: string)
    requires forall i | 0 <= i < |body| :: BodyByte(body[i])
    requires Base64.WithoutBreaks(body) == Base64.Encode(b)
    ensures Base64.Decode(WithoutBlanks(body)) == Some(b)
  {
    NoBlanksToDrop(body);
    Base64.DecodeGroupsInvertsEncode(b);
  }

  lemma TrailerMatches(w: string, after: string)
    ensures var t := (w + (FOOTER + "\n" + after))[|w| + |END|..];
            && |PEM_TYPE| + |DASHES| == 18 && |t| >= 18 && HasPrefix(t, PEM_TYPE)
            && t[|PEM_TYPE|..18] == DASHES && GetLine(t[18..]).text == ""
  {
    var rest := w + (FOOTER + "\n" + after);
    assert rest == w + END + (PEM_TYPE + (DASHES + ("\n" + after)));
    var t := rest[|w| + |END|..];
    assert t == PEM_TYPE + (DASHES + ("\n" + after));
    assert t[18..] == "" + "\n" + after;
    GetLineHere("", after);
  }

  lemma LastLine(w: string, after: string)
    ensures GetLine((w + (FOOTER + "\n" + after))[|w| + |END| - 1..]).rest == after
  {
    var rest := w + (FOOTER + "\n" + after);
    var text := " " + PEM_TYPE + DASHES;
    assert text == " SSH SIGNATURE-----";
    assert FOOTER == END[..8] + text by {
      assert END == END[..8] + " ";
    }
    assert rest == w + END[..8] + (text + "\n" + after);
    assert rest[|w| + 8..] == text + "\n" + after;
    GetLineHere(text, after);
  }

  lemma {:induction false} DecodeTail(b: Bytes, w: string, after: string)
    requires |w| >= 2 && w[|w| - 1] == '\n' && (forall i | 0 <= i < |w| :: BodyByte(w[i]))
    requires Base64.WithoutBreaks(w) == Base64.Encode(b)
    ensures var rest := w + (FOOTER + "\n" + after);
            DecodeBody(PEM_TYPE, false, rest, |w| - 1) == Found(Block(PEM_TYPE, false, b, after))
  {
    var rest := w + (FOOTER + "\n" + after);
    var body := w[..|w| - 1];
    assert rest[..|w| - 1] == body && w == body + "\n";
    FinalBreak(body);
    BodyDecodes(b, body);
    TrailerMatches(w, after);
    LastLine(w, after);
  }

  /** What an armored text holds from its type on. */
  function Typed(w: string, after: string): string {
    PEM_TYPE + DASHES + "\n" + (w + (FOOTER + "\n" + after))
  }

  lemma FooterParts(after: string)
    ensures FOOTER + "\n" + after == END + (PEM_TYPE + DASHES + "\n" + after)
  {
  }

  lemma EndsBetween(a: string, b: string, c: string)
    ensures EndsAt(a + b + "\n" + (END + c), |a + b|)
  {
    var s := a + b + "\n" + (END + c);
    assert END_LINE == "\n" + END;
    assert s[|a + b|..|a + b| + |END_LINE|] == "\n" + END;
  }

  lemma {:induction false} TypedEndsAt(w: string, after: string)
    requires w != "" && w[|w| - 1] == '\n'
    ensures EndsAt(Typed(w, after), 18 + |w|)
  {
    var a, b, c := PEM_TYPE + DASHES + "\n", w[..|w| - 1], PEM_TYPE + DASHES + "\n" + after;
    EndsBetween(a, b, c);
    FooterParts(after);
    Regrouped(a, b, w, END + c);
  }

  lemma Regrouped(a: string, b: string, w: string, more: string)
    requires w != "" && w[|w| - 1] == '\n' && b == w[..|w| - 1]
    ensures a + (w + more) == a + b + "\n" + more
  {
    assert w == b + "\n";
  }

  lemma TypedLine(w: string, after: string)
    ensures GetLine(Typed(w, after)) == Line(PEM_TYPE + DASHES, w + (FOOTER + "\n" + after))
    ensures |Typed(w, after)| == 19 + |w + (FOOTER + "\n" + after)|
    ensures HasSuffix(PEM_TYPE + DASHES, DASHES) && (PEM_TYPE + DASHES)[..13] == PEM_TYPE
  {
    assert PEM_TYPE + DASHES == "SSH SIGNATURE-----";
    GetLineHere(PEM_TYPE + DASHES, w + (FOOTER + "\n" + after));
  }

  lemma {:induction false} DecodeTyped(b: Bytes, after: string)
    requires b != []
    ensures var w := Wrap(Base64.Encode(b));
            BlockAt(Typed(w, after), 18 + |w|) == Found(Block(PEM_TYPE, false, b, after))
  {
    var e: string := Base64.Encode(b);
    var w := Wrap(e);
    Base64.EncodeAlphabet(b);
    WrapShape(e);
    TypedEndsAt(w, after);
    TypedLine(w, after);
    FirstLine(e, FOOTER + "\n" + after);
    DecodeTail(b, w, after);
  }

  /** The armored text up to the line that ends it. */
  function Front(w: string): string {
    HEADER + "\n" + w
  }

  lemma {:induction false} FrontThenFooter(b: Bytes, after: string)
    ensures Armored(b) + after == Front(Wrap(Base64.Encode(b))) + (FOOTER + "\n" + after)
  {
    assert Armored(b) == Front(Wrap(Base64.Encode(b))) + FOOTER + "\n";
  }

  lemma {:induction false} StartsWithHeader(b: Bytes, after: string)
    ensures HasPrefix(Armored(b) + after, HEADER)
  {
    var rest := "\n" + Wrap(Base64.Encode(b)) + FOOTER + "\n" + after;
    assert Armored(b) + after == HEADER + rest;
  }

  // ----- armor behind other text

  /** Text before an armored signature: whole lines, and no END line. */
  predicate Lines(pre: string) {
    (pre != "" ==> pre[|pre| - 1] == '\n') && !Contains(pre, END_LINE)
  }

  lemma HeaderBytes()
    ensures |HEADER| == 29 && HEADER[5] == 'B' && '\n' !in HEADER
    ensures forall k | 5 <= k < 24 :: HEADER[k] != '-'
    ensures BEGIN[0] == BEGIN[4] == '-' && BEGIN[5] == 'B' && |BEGIN| == 11
  {
    assert HEADER == "-----BEGIN SSH SIGNATURE-----";
  }

  lemma FrontBytes(w: string)
    ensures var f := Front(w);
            && |f| == 30 + |w| && f[29] == '\n' && f[5] == 'B' && (forall k | 5 <= k < 24 :: f[k] != '-')
            && (forall k | 0 <= k < 29 :: f[k] != '\n') && (forall k | 30 <= k < |f| :: f[k] == w[k - 30])
  {
    HeaderBytes();
    assert forall k | 0 <= k < 29 :: Front(w)[k] == HEADER[k];
    assert forall k | 0 <= k < 29 :: HEADER[k] in HEADER;
  }

  lemma MismatchAt(s: string, k: nat, pat: string, j: nat)
    requires k <= |s| && j < |pat| && (k + j < |s| ==> s[k + j] != pat[j])
    ensures !HasPrefix(s[k..], pat)
  {
    assert |pat| <= |s| - k ==> s[k..][..|pat|][j] == s[k + j];
  }

  /** Only the last line feed of a text can precede an END line. */
  predicate Quiet(f: string) {
    forall k | 0 <= k < |f| - 1 :: f[k] == '\n' ==> f[k + 1] != '-'
  }

  lemma FrontIsQuiet(w: string)
    requires w != "" && forall i | 0 <= i < |w| :: BodyByte(w[i])
    ensures Quiet(Front(w))
  {
    FrontBytes(w);
    assert Front(w)[30] == w[0];
  }

  lemma EndLineBytes()
    ensures |END_LINE| == 10 && END_LINE[0] == '\n' && END_LINE[1] == '-' && END_LINE[6] == 'E'
    ensures forall j | 1 <= j < 10 :: END_LINE[j] != '\n'
  {
  }

  lemma NoEndLineAt(pre: string, f: string, tail: string, k: nat)
    requires Lines(pre) && Quiet(f) && |f| > 5 && f[5] == 'B' && k + 1 < |pre| + |f|
    ensures !HasPrefix((pre + f + tail)[k..], END_LINE)
  {
    var s := pre + f + tail;
    EndLineBytes();
    if k >= |pre| {
      assert s[k] == f[k - |pre|] && s[k + 1] == f[k - |pre| + 1];
      MismatchAt(s, k, END_LINE, if s[k] == '\n' then 1 else 0);
    } else if k + 10 <= |pre| {
      NoEndLineInside(pre, f + tail, k);
      assert pre + (f + tail) == s;
    } else {
      var j := if k == |pre| - 1 then 6 else |pre| - 1 - k;
      assert s[|pre| - 1] == pre[|pre| - 1] && s[|pre| + 5] == f[5];
      MismatchAt(s, k, END_LINE, j);
    }
  }

  lemma NoEndLineInside(pre: string, more: string, k: nat)
    requires !Contains(pre, END_LINE) && k + |END_LINE| <= |pre|
    ensures !HasPrefix((pre + more)[k..], END_LINE)
  {
    assert (pre + more)[k..][..|END_LINE|] == pre[k..][..|END_LINE|];
    if HasPrefix(pre[k..], END_LINE) {
      ContainsAt(pre, END_LINE, k);
    }
  }

  lemma EndLineOfArmor(pre: string, f: string, tail: string)
    requires Lines(pre) && Quiet(f) && |f| > 5 && f[5] == 'B' && f[|f| - 1] == '\n' && HasPrefix(tail, END)
    ensures Index(pre + f + tail, END_LINE) == |pre + f| - 1
  {
    var s, e := pre + f + tail, |pre + f| - 1;
    assert END_LINE == "\n" + END;
    assert s[e..] == "\n" + tail;
    assert s[e..][..|END_LINE|] == "\n" + tail[..|END|];
    forall k | 0 <= k < e ensures !HasPrefix(s[k..], END_LINE) {
      NoEndLineAt(pre, f, tail, k);
    }
    IndexHere(s, END_LINE, e);
  }

  lemma NoHeaderInFront(w: string, k: nat)
    requires (forall i | 0 <= i < |w| :: BodyByte(w[i])) && 0 < k <= |Front(w)|
    ensures !HasPrefix(Front(w)[k..], BEGIN)
  {
    HeaderBytes();
    FrontBytes(w);
    MismatchAt(Front(w), k, BEGIN, if k == 24 then 5 else if k < 5 || 25 <= k < 29 then 4 else 0);
  }

  /** The header of an armored text is the last before its END line. */
  lemma HeaderOfArmor(pre: string, f: string)
    requires HasPrefix(f, BEGIN) && forall k | 0 < k <= |f| :: !HasPrefix(f[k..], BEGIN)
    ensures LastIndex(pre + f, BEGIN) == |pre|
  {
    var s := pre + f;
    assert s[|pre|..] == f;
    forall k | |pre| < k <= |s| ensures !HasPrefix(s[k..], BEGIN) {
      assert s[k..] == f[k - |pre|..];
    }
    LastIndexHere(s, BEGIN, |pre|);
  }

  lemma FooterStarts(after: string)
    ensures HasPrefix(FOOTER + "\n" + after, END)
  {
    FooterParts(after);
  }

  lemma TypedTail(pre: string, w: string, after: string)
    ensures (pre + Front(w) + (FOOTER + "\n" + after))[|pre| + |BEGIN|..] == Typed(w, after)
  {
    var tail := FOOTER + "\n" + after;
    assert Front(w) == BEGIN + (PEM_TYPE + DASHES + "\n" + w);
    assert pre + Front(w) + tail == pre + BEGIN + Typed(w, after);
  }

  lemma FrontOfInit(w: string)
    requires w != ""
    ensures Front(w)[..|Front(w)| - 1] == Front(w[..|w| - 1])
  {
    assert Front(w) == HEADER + "\n" + w;
  }

  lemma FrontStarts(w: string)
    ensures HasPrefix(Front(w), BEGIN)
  {
    assert Front(w) == BEGIN + (PEM_TYPE + DASHES + "\n" + w);
  }

  lemma HeaderBeforeEnd(pre: string, w: string)
    requires w != "" && forall i | 0 <= i < |w| :: BodyByte(w[i])
    ensures LastIndex(pre + Front(w)[..|Front(w)| - 1], BEGIN) == |pre|
  {
    var v := w[..|w| - 1];
    FrontOfInit(w);
    FrontStarts(v);
    forall k | 0 < k <= |Front(v)| ensures !HasPrefix(Front(v)[k..], BEGIN) {
      NoHeaderInFront(v, k);
    }
    HeaderOfArmor(pre, Front(v));
  }

  /** A wrapped text, as WrapShape describes it. Lemmas that only hand it on
      compare it with true. */
  predicate Wrapped(w: string) {
    |w| >= 2 && w[|w| - 1] == '\n' && forall i | 0 <= i < |w| :: BodyByte(w[i])
  }

  lemma {:induction false} ArmorIsFramed(pre: string, w: string, after: string)
    requires Lines(pre) && Wrapped(w)
    ensures var s, end := pre + Front(w) + (FOOTER + "\n" + after), |pre| + 29 + |w|;
            Index(s, END_LINE) == end && LastIndex(s[..end], BEGIN) == |pre|
  {
    var f, tail := Front(w), FOOTER + "\n" + after;
    FrontBytes(w);
    FrontIsQuiet(w);
    FooterStarts(after);
    EndLineOfArmor(pre, f, tail);
    HeaderBeforeEnd(pre, w);
    assert (pre + f + tail)[..|pre + f| - 1] == pre + f[..|f| - 1];
  }

  lemma LastOfLines(pre: string, a: string, b: string)
    requires Lines(pre) == true
    ensures pre == "" || (pre + a + b)[|pre| - 1] == '\n'
  {
  }

  /** What the search sees of an armored signature behind other lines. */
  predicate Framed(s: string, begin: nat, typed: string, end: nat) {
    && begin + |BEGIN| + end <= |s|
    && Index(s, END_LINE) == begin + |BEGIN| + end && LastIndex(s[..begin + |BEGIN| + end], BEGIN) == begin
    && (begin == 0 || s[begin - 1] == '\n') && s[begin + |BEGIN|..] == typed
  }

  lemma {:induction false} ArmorIsPlaced(pre: string, w: string, after: string)
    requires Lines(pre) == true && Wrapped(w) == true
    ensures Framed(pre + Front(w) + (FOOTER + "\n" + after), |pre|, Typed(w, after), 18 + |w|)
  {
    ArmorIsFramed(pre, w, after);
    TypedTail(pre, w, after);
    LastOfLines(pre, Front(w), FOOTER + "\n" + after);
    assert |BEGIN| == 11;
  }

  lemma SearchFramed(read: BlockReader, s: string, begin: nat, typed: string, end: nat, block: Block)
    requires Framed(s, begin, typed, end) && read(typed, end) == Found(block)
    ensures Search(read, s) == Place(begin, begin + |BEGIN| + end, block)
  {
    SearchHere(read, s, begin, typed, end, block);
  }

  lemma {:induction false} ArmorBehind(pre: string, b: Bytes, after: string)
    ensures pre + (Armored(b) + after) == pre + Front(Wrap(Base64.Encode(b))) + (FOOTER + "\n" + after)
  {
    FrontThenFooter(b, after);
  }

  lemma {:induction false} SearchArmored(read: BlockReader, pre: string, b: Bytes, after: string, block: Block)
    requires Lines(pre) && b != []
    requires read(Typed(Wrap(Base64.Encode(b)), after), 18 + |Wrap(Base64.Encode(b))|) == Found(block)
    ensures var place := Search(read, pre + (Armored(b) + after));
            place.Place? && place.begin == |pre| && place.block == block
  {
    EncodedIsWrapped(b);
    ArmorBehind(pre, b, after);
    SearchWrapped(read, pre, Wrap(Base64.Encode(b)), after, pre + (Armored(b) + after), block);
  }

  lemma {:induction false} SearchWrapped(
    read: BlockReader, pre: string, w: string, after: string, s: string, block: Block)
    requires Lines(pre) == true && Wrapped(w) == true && s == pre + Front(w) + (FOOTER + "\n" + after)
    requires read(Typed(w, after), 18 + |w|) == Found(block)
    ensures Search(read, s) == Place(|pre|, |pre| + |BEGIN| + (18 + |w|), block)
  {
    ArmorIsPlaced(pre, w, after);
    SearchFramed(read, s, |pre|, Typed(w, after), 18 + |w|, block);
  }

  /** The block of an armored blob behind other lines, whatever follows it. */
  lemma {:induction false} DecodeArmored(pre: string, b: Bytes, after: string)
    requires Lines(pre) && b != []
    ensures var place := Decode(pre + (Armored(b) + after));
            place.Place? && place.begin == |pre| && place.block == Block(PEM_TYPE, false, b, after)
  {
    DecodeTyped(b, after);
    SearchArmored(BlockAt, pre, b, after, Block(PEM_TYPE, false, b, after));
  }

  lemma {:induction false} EncodedIsWrapped(b: Bytes)
    requires b != []
    ensures Wrapped(Wrap(Base64.Encode(b)))
  {
    Base64.EncodeAlphabet(b);
    WrapShape(Base64.Encode(b));
  }

  // ----- what the second header check decides

  lemma HeaderInRegion(data: string, begin: nat, region: nat)
    requires HasPrefix(data, HEADER) && HeaderAt(data, begin) && begin > 0 && begin + |BEGIN| <= region <= |data|
    ensures |HEADER| <= region && Contains(data[|HEADER|..region], BEGIN)
  {
    var i :| 0 <= i < begin && data[..begin][i] == '\n';
    HeaderIsOneLine(data, i);
    var k := begin - |HEADER|;
    assert data[|HEADER|..region][k..][..|BEGIN|] == data[begin..][..|BEGIN|];
    ContainsAt(data[|HEADER|..region], BEGIN, k);
  }

  lemma PlaceIsHeader(read: BlockReader, data: string)
    requires Search(read, data).Place?
    ensures HeaderAt(data, Search(read, data).begin)
  {
    FoundIsEnclosed(read, data);
  }

  lemma LaterPlaceIsRefused(data: string, place: Place)
    requires HasPrefix(data, HEADER) && Behind(data, place)
    requires place.Place? && place.begin > 0 && HeaderAt(data, place.begin)
    ensures Judged(data, place) == Err(SecondHeader)
  {
    HeaderInRegion(data, place.begin, |data| - |place.block.rest|);
  }

  lemma {:induction false} DecodedIsJudged(data: string, max: nat)
    requires HasPrefix(data, HEADER) && |data| <= max
    ensures Behind(data, Decode(data)) && Unarmored(data, max) == Judged(data, Decode(data))
  {
    BlockEndsBehindHeader(data);
    assert |HEADER| == 29;
  }

  /** A block found behind the first header is never read: whatever pem.Decode
      skipped to reach it, the header it starts with is refused. */
  lemma {:induction false} LaterBlockIsRefused(data: string, max: nat)
    requires HasPrefix(data, HEADER) && |data| <= max && Decode(data).Place? && Decode(data).begin > 0
    ensures Unarmored(data, max) == Err(SecondHeader)
  {
    PlaceIsHeader(BlockAt, data);
    DecodedIsJudged(data, max);
    LaterPlaceIsRefused(data, Decode(data));
  }

  /** What decodes is made of digits, padding and whitespace. */
  predicate Base64Byte(c: char) {
    Base64.IsDigit(c) || c == '=' || Space(c)
  }

  lemma {:induction false} DecodedAreDigits(s: string)
    requires Base64.DecodeGroups(s).Some?
    ensures Digits(s)
    decreases |s|
  {
    if |s| >= 4 && Base64.IsDigit(s[2]) && Base64.IsDigit(s[3]) {
      DecodedAreDigits(s[4..]);
      forall i | 0 <= i < |s| ensures Base64.IsDigit(s[i]) || s[i] == '=' {
        assert i >= 4 ==> s[i] == s[4..][i - 4];
      }
    }
  }

  lemma {:induction false} BodyAlphabet(s: string)
    requires Digits(Stripped(s))
    ensures forall i | 0 <= i < |s| :: Base64Byte(s[i])
  {
    if s != "" {
      var c, more := s[0], s[1..];
      assert s == [c] + more;
      StrippedConcat([c], more);
      assert [c][1..] == "";
      assert Stripped([c]) == if Space(c) then "" else [c];
      var t := Stripped(s);
      assert !Space(c) ==> t[0] == c;
      assert forall i | 0 <= i < |Stripped(more)| :: t[|t| - |Stripped(more)| + i] == Stripped(more)[i];
      BodyAlphabet(more);
    }
  }

  lemma DecodableText(s: string)
    requires Base64.DecodeGroups(Stripped(s)).Some?
    ensures forall i | 0 <= i < |s| :: Base64Byte(s[i])
  {
    DecodedAreDigits(Stripped(s));
    BodyAlphabet(s);
  }

  /** What may stand between header and footer, and behind the footer. */
  predicate Plain(body: string, space: string) {
    (forall i | 0 <= i < |body| :: Base64Byte(body[i])) && AllSpace(space)
  }

  lemma HeaderJoins(data: string, body: string, more: string)
    requires HasPrefix(data, BEGIN) && data[|BEGIN|..] == PEM_TYPE + DASHES + body + (END + PEM_TYPE + DASHES) + more
    ensures data == HEADER + body + FOOTER + more
  {
    assert data == BEGIN + data[|BEGIN|..];
  }

  lemma FirstBlockEnclosed(data: string, block: Block) returns (end: nat)
    requires Decode(data).Place? && Decode(data).begin == 0 && Decode(data).block == block
    ensures HasPrefix(data, BEGIN) && EndsAt(data[|BEGIN|..], end) && DecodeAt(data[|BEGIN|..], end) == Found(block)
  {
    FoundIsEnclosed(BlockAt, data);
    end := Decode(data).end - |BEGIN|;
    assert data[0..] == data;
  }

  /** The block that the text's own header starts. */
  lemma FirstBlockShape(data: string, block: Block) returns (body: string, gap: string)
    requires Decode(data).Place? && Decode(data).begin == 0 && Decode(data).block == block
    requires block.typ == PEM_TYPE && !block.headers
    ensures data == HEADER + body + FOOTER + (gap + block.rest) && Plain(body, gap)
    ensures Base64.DecodeGroups(Stripped(body)) == Some(block.bytes)
  {
    var end := FirstBlockEnclosed(data, block);
    body, gap := BlockShape(data[|BEGIN|..], end, block);
    HeaderJoins(data, body, gap + block.rest);
    DecodableText(body);
  }

  lemma FooterBytes()
    ensures |FOOTER| == 27 && FOOTER[5] == 'E' && forall k | 5 <= k < 22 :: FOOTER[k] != '-'
  {
    assert FOOTER == "-----END SSH SIGNATURE-----";
  }

  lemma NoHeaderBehind(body: string, gap: string, k: nat)
    requires Plain(body, gap) && k <= |body + FOOTER + gap|
    ensures !HasPrefix((body + FOOTER + gap)[k..], BEGIN)
  {
    var f := body + FOOTER + gap;
    HeaderBytes();
    FooterBytes();
    var n := |body|;
    assert forall i | 0 <= i < n :: f[i] == body[i];
    assert forall i | 0 <= i < 27 :: f[n + i] == FOOTER[i];
    assert forall i | n + 27 <= i < |f| :: f[i] == gap[i - n - 27];
    var j := if k == n || k == n + 22 then 5 else if n < k < n + 5 || n + 23 <= k < n + 27 then 4 else 0;
    MismatchAt(f, k, BEGIN, j);
  }

  lemma OneBlockHasOneHeader(data: string, body: string, gap: string, rest: string)
    requires data == HEADER + body + FOOTER + (gap + rest) && Plain(body, gap)
    ensures |HEADER| <= |data| - |rest| && !Contains(data[|HEADER|..|data| - |rest|], BEGIN)
  {
    var f := body + FOOTER + gap;
    assert data == HEADER + f + rest;
    assert data[|HEADER|..|data| - |rest|] == f;
    forall k | 0 <= k <= |f| ensures !HasPrefix(f[k..], BEGIN) {
      NoHeaderBehind(body, gap, k);
    }
    IndexNowhere(f, BEGIN);
  }

  lemma {:induction false} FirstPlaceIsRead(data: string, place: Place, body: string, gap: string)
    requires Behind(data, place) && place.Place? && place.block.typ == PEM_TYPE && !place.block.headers
    requires data == HEADER + body + FOOTER + (gap + place.block.rest) && Plain(body, gap)
    ensures Judged(data, place) == if !AllSpace(place.block.rest) then Err(DataAfter) else Ok(place.block.bytes)
  {
    OneBlockHasOneHeader(data, body, gap, place.block.rest);
  }

  lemma {:induction false} FirstBlockIsRead(data: string, max: nat, place: Place)
    requires HasPrefix(data, HEADER) && |data| <= max && Decode(data) == place && place.Place? && place.begin == 0
    requires place.block.typ == PEM_TYPE && !place.block.headers
    ensures Unarmored(data, max) == if !AllSpace(place.block.rest) then Err(DataAfter) else Ok(place.block.bytes)
  {
    var body, gap := FirstBlockShape(data, place.block);
    DecodedIsJudged(data, max);
    FirstPlaceIsRead(data, place, body, gap);
  }

  /** A signature's block is refused for a second header exactly when it is not
      the one that the first header starts. */
  lemma {:induction false} SecondHeaderIsExact(data: string, max: nat)
    requires HasPrefix(data, HEADER) && |data| <= max && Decode(data).Place?
    requires Decode(data).block.typ == PEM_TYPE && !Decode(data).block.headers
    ensures Unarmored(data, max)
         == if Decode(data).begin > 0 then Err(SecondHeader)
            else if !AllSpace(Decode(data).block.rest) then Err(DataAfter)
            else Ok(Decode(data).block.bytes)
  {
    var place := Decode(data);
    if place.begin > 0 {
      LaterBlockIsRefused(data, max);
    } else {
      FirstBlockIsRead(data, max, place);
    }
  }

  // ----- reading undoes writing, and nothing else is read

  /** An armored blob followed by whitespace only is judged by its contents. */
  lemma {:induction false} ReadOfArmored(parse: KeyParser, b: Bytes, space: string, max: nat)
    requires b != [] && AllSpace(space)
    ensures var data := Armored(b) + space;
            SignatureRead(parse, data, max) == if |data| > max then Err(TooLong) else ReadBlob(parse, b)
  {
    var data := Armored(b) + space;
    StartsWithHeader(b, space);
    DecodeArmored("", b, space);
    assert "" + data == data;
    if |data| <= max {
      SecondHeaderIsExact(data, max);
    }
  }

  /** Reading undoes armoring: any signature that passes the checks comes back
      from its armor, with any trailing whitespace, within the size limit. */
  lemma ReadInvertsArmor(parse: KeyParser, sig: Signature, space: string, max: nat)
    requires Faithful(parse) && Readable(parse, sig.publicKey) && FieldsFit(sig)
    requires ValidateStructure(parse, sig).None? && ValidateAlgorithm(parse, sig).None?
    requires AllSpace(space)
    ensures var data := Armored(Marshal(sig)) + space;
            SignatureRead(parse, data, max)
            == if |data| > max then Err(TooLong) else Ok(Reread(parse, sig))
  {
    MarshalLayout(sig);
    ReadOfArmored(parse, Marshal(sig), space, max);
    ParseInvertsMarshal(parse, sig);
    RereadKeepsChecks(parse, sig);
  }

  lemma GarbageBegins(garbage: string, more: string)
    ensures HasPrefix(HEADER + "\n" + garbage + "\n" + more, HEADER)
  {
    assert HEADER + "\n" + garbage + "\n" + more == HEADER + ("\n" + garbage + "\n" + more);
  }

  /** A valid signature behind a malformed one is not read, whatever garbage
      stands between them. */
  lemma {:induction false} GarbageBeforeIsRefused(parse: KeyParser, garbage: string, b: Bytes, after: string, max: nat)
    requires b != [] && !Contains(HEADER + "\n" + garbage + "\n", END_LINE)
    ensures var data := HEADER + "\n" + garbage + "\n" + (Armored(b) + after);
            |data| <= max ==> SignatureRead(parse, data, max) == Err(SecondHeader)
  {
    var pre := HEADER + "\n" + garbage + "\n";
    var data := pre + (Armored(b) + after);
    DecodeArmored(pre, b, after);
    GarbageBegins(garbage, Armored(b) + after);
    if |data| <= max {
      LaterBlockIsRefused(data, max);
    }
  }

  lemma {:induction false} BlockChecks(data: string, max: nat) returns (block: Block)
    requires Unarmored(data, max).Ok?
    ensures |data| <= max && HasPrefix(data, HEADER) && Decode(data).Place? && Decode(data).block == block
    ensures block.typ == PEM_TYPE && !block.headers && AllSpace(block.rest)
  {
    block := Decode(data).block;
  }

  /** Every file whose armor is accepted is one block: the header, base64 text
      with whitespace, the footer, and whitespace. */
  lemma {:induction false} UnarmoredIsOneBlock(data: string, max: nat) returns (body: string, space: string)
    requires Unarmored(data, max).Ok?
    ensures |data| <= max && data == HEADER + body + FOOTER + space && Plain(body, space)
    ensures Base64.DecodeGroups(Stripped(body)) == Some(Unarmored(data, max).value)
  {
    var block := BlockChecks(data, max);
    SecondHeaderIsExact(data, max);
    var gap;
    body, gap := FirstBlockShape(data, block);
    space := gap + block.rest;
  }

  /** So nothing is hidden before, inside or after a signature that is read. */
  lemma {:induction false} AcceptedFileIsOneBlock(parse: KeyParser, data: string, max: nat)
    returns (body: string, space: string, blob: Bytes)
    requires SignatureRead(parse, data, max).Ok?
    ensures |data| <= max && data == HEADER + body + FOOTER + space && Plain(body, space)
    ensures Base64.DecodeGroups(Stripped(body)) == Some(blob)
    ensures ParseSignature(parse, blob) == Ok(SignatureRead(parse, data, max).value)
  {
    body, space := UnarmoredIsOneBlock(data, max);
    blob := Unarmored(data, max).value;
  }
}
