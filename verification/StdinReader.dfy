/** Reading a pasted signature from standard input
    (signatureStdinReader in internal/cmd/signature_stdin.go). */
module StdinReader {
  import opened Wrappers
  import Armor
  import Keys
  import Pem
  import Sshsig

  const MAX_WHITESPACE := 1024
  const MAX_SIZE := 0x10_0000

  datatype Fault = SourceFailed | TooLong | TooMuchWhitespace | NotAtLineStart

  /** What the reader delivers over its life: one text, or one error. */
  datatype Delivery = Text(text: string) | Fails(fault: Fault)

  function LeadingSpace(s: string): (n: nat)
    ensures n <= |s|
  {
    if s != "" && Pem.Space(s[0]) then 1 + LeadingSpace(s[1..]) else 0
  }

  /** Decided by the input alone: it starts at the first byte that is not
      whitespace, which must begin a line. */
  function DeliveryOf(content: string, sourceFails: bool): Delivery {
    if sourceFails then Fails(SourceFailed)
    else if |content| > MAX_SIZE then Fails(Fault.TooLong)
    else
      var start := LeadingSpace(content);
      if start == |content| then Text("")
      else if start > MAX_WHITESPACE then Fails(TooMuchWhitespace)
      else if start > 0 && content[start - 1] != '\n' then Fails(NotAtLineStart)
      else Text(content[start..])
  }

  /** One reply: some bytes, the end of the input, or the error. */
  datatype Reply = Got(bytes: string) | End | Failed(fault: Fault)

  function Min(a: nat, b: nat): nat {
    if a < b then a else b
  }

  /** The reply to a read of up to n bytes after `pos` have been delivered. */
  function ReplyTo(d: Delivery, pos: nat, n: nat): Reply {
    match d
    case Fails(fault) => Failed(fault)
    case Text(text) => if pos >= |text| then End else Got(text[pos..Min(pos + n, |text|)])
  }

  function Advance(d: Delivery, pos: nat, n: nat): nat {
    match d
    case Fails(_) => pos
    case Text(text) => if pos >= |text| then pos else Min(pos + n, |text|)
  }

  /** The source; it counts how often it was read to its end. */
  class Input {
    const content: string
    const fails: bool
    var drained: nat

    constructor (content: string, fails: bool)
      ensures this.content == content && this.fails == fails && drained == 0
    {
      this.content, this.fails, drained := content, fails, 0;
    }

    /** io.ReadAll through a limit. */
    method ReadAll(limit: nat) returns (data: string, failed: bool)
      modifies this
      ensures failed == fails && drained == old(drained) + 1
      ensures !failed ==> data == if |content| <= limit then content else content[..limit]
    {
      drained := drained + 1;
      failed := fails;
      data := if |content| <= limit then content else content[..limit];
    }
  }

  class SignatureStdinReader {
    const source: Input
    var data: Option<string>
    var pos: nat
    var err: Option<Fault>

    /** Before the first read nothing is known; after it, the delivery is fixed. */
    ghost predicate Valid()
      reads this, source
    {
      if data == None && err == None then source.drained == 0 && pos == 0
      else
        && source.drained == 1
        && match DeliveryOf(source.content, source.fails)
           case Text(text) => data == Some(text) && err == None && pos <= |text|
           case Fails(fault) => data == None && err == Some(fault) && pos == 0
    }

    constructor (source: Input)
      requires source.drained == 0
      ensures Valid() && this.source == source && pos == 0
    {
      this.source, data, pos, err := source, None, 0, None;
    }

    /** One Read call: the reply, and how far delivery has come. */
    method Read(n: nat) returns (reply: Reply)
      requires Valid()
      modifies this, source
      ensures Valid() && source.drained == 1
      ensures reply == ReplyTo(DeliveryOf(source.content, source.fails), old(pos), n)
      ensures pos == Advance(DeliveryOf(source.content, source.fails), old(pos), n)
    {
      if data == None && err == None {
        var content, failed := source.ReadAll(MAX_SIZE + 1);
        if failed {
          err := Some(SourceFailed);
          return Failed(SourceFailed);
        }
        if |content| > MAX_SIZE {
          err := Some(Fault.TooLong);
          return Failed(Fault.TooLong);
        }
        var start := LeadingSpace(content);
        if start == |content| {
          data := Some("");
          return End;
        }
        if start > MAX_WHITESPACE {
          err := Some(TooMuchWhitespace);
          return Failed(TooMuchWhitespace);
        }
        if start > 0 && content[start - 1] != '\n' {
          err := Some(NotAtLineStart);
          return Failed(NotAtLineStart);
        }
        data := Some(content[start..]);
      }
      if err.Some? {
        return Failed(err.value);
      }
      var text := data.value;
      if pos >= |text| {
        return End;
      }
      var next := Min(pos + n, |text|);
      reply := Got(text[pos..next]);
      pos := next;
    }
  }

  // ----- whole runs

  function Replies(d: Delivery, pos: nat, sizes: seq<nat>): (replies: seq<Reply>)
    ensures |replies| == |sizes|
    decreases |sizes|
  {
    if sizes == [] then []
    else [ReplyTo(d, pos, sizes[0])] + Replies(d, Advance(d, pos, sizes[0]), sizes[1..])
  }

  function Delivered(replies: seq<Reply>): string {
    if replies == [] then ""
    else (if replies[0].Got? then replies[0].bytes else "") + Delivered(replies[1..])
  }

  function Sum(sizes: seq<nat>): nat {
    if sizes == [] then 0 else sizes[0] + Sum(sizes[1..])
  }

  /** A run of reads is answered as Replies says. */
  method ReadRun(r: SignatureStdinReader, sizes: seq<nat>) returns (replies: seq<Reply>)
    requires r.Valid()
    modifies r, r.source
    ensures r.Valid() && (sizes != [] ==> r.source.drained == 1)
    ensures replies == Replies(DeliveryOf(r.source.content, r.source.fails), old(r.pos), sizes)
  {
    replies := [];
    ghost var d := DeliveryOf(r.source.content, r.source.fails);
    assert sizes[0..] == sizes;
    for i := 0 to |sizes|
      invariant r.Valid() && (i > 0 ==> r.source.drained == 1)
      invariant Replies(d, old(r.pos), sizes) == replies + Replies(d, r.pos, sizes[i..])
    {
      assert sizes[i..][0] == sizes[i] && sizes[i..][1..] == sizes[i + 1..];
      var reply := r.Read(sizes[i]);
      replies := replies + [reply];
    }
  }

  /** Whatever the buffer sizes, the reads deliver the text in order, nothing
      else, and as much of it as they asked for. */
  lemma {:induction false} RunsDeliverTheText(text: string, pos: nat, sizes: seq<nat>)
    requires pos <= |text|
    ensures Delivered(Replies(Text(text), pos, sizes)) == text[pos..Min(pos + Sum(sizes), |text|)]
    decreases |sizes|
  {
    if sizes != [] {
      var next := Advance(Text(text), pos, sizes[0]);
      RunsDeliverTheText(text, next, sizes[1..]);
      var end := Min(pos + Sum(sizes), |text|);
      assert end == Min(next + Sum(sizes[1..]), |text|);
      assert text[pos..next] + text[next..end] == text[pos..end];
      var replies := Replies(Text(text), pos, sizes);
      assert replies[1..] == Replies(Text(text), next, sizes[1..]);
    }
  }

  /** The end is reported exactly when everything was delivered before. */
  lemma {:induction false} EndComesLast(text: string, pos: nat, sizes: seq<nat>, k: nat)
    requires pos <= |text| && k < |sizes|
    ensures Replies(Text(text), pos, sizes)[k] == End <==> pos + Sum(sizes[..k]) >= |text|
    decreases k
  {
    if k > 0 {
      var next := Advance(Text(text), pos, sizes[0]);
      EndComesLast(text, next, sizes[1..], k - 1);
      assert sizes[1..][..k - 1] == sizes[..k][1..];
    }
  }

  /** A failed reader repeats its one error forever. */
  lemma {:induction false} FaultsAreSticky(fault: Fault, pos: nat, sizes: seq<nat>)
    ensures forall k | 0 <= k < |sizes| :: Replies(Fails(fault), pos, sizes)[k] == Failed(fault)
  {
    if sizes != [] {
      FaultsAreSticky(fault, pos, sizes[1..]);
    }
  }

  // ----- what reaches the signature reader

  lemma {:induction false} LeadingSpaceSkips(space: string, rest: string)
    requires Pem.AllSpace(space)
    requires rest != "" ==> !Pem.Space(rest[0])
    ensures LeadingSpace(space + rest) == |space|
  {
    if space == "" {
      assert space + rest == rest;
    } else {
      assert (space + rest)[1..] == space[1..] + rest;
      LeadingSpaceSkips(space[1..], rest);
    }
  }

  lemma {:induction false} LeadingSpaceStops(s: string)
    ensures var n := LeadingSpace(s); Pem.AllSpace(s[..n]) && (n < |s| ==> !Pem.Space(s[n]))
  {
    if s != "" && Pem.Space(s[0]) {
      LeadingSpaceStops(s[1..]);
      var n := LeadingSpace(s);
      assert s[..n] == [s[0]] + s[1..][..n - 1];
    }
  }

  /** A text pasted behind whitespace: a bounded amount of it, in whole lines. */
  predicate Pasted(content: string, space: string, text: string) {
    && content == space + text && Pem.AllSpace(space) && |space| <= MAX_WHITESPACE
    && (space == "" || space[|space| - 1] == '\n') && text != "" && !Pem.Space(text[0])
  }

  /** What is delivered, with no reference to how it is found: a text that is
      not empty exactly when it was pasted behind whitespace, and nothing
      exactly when there is whitespace only. */
  lemma DeliversPastedText(content: string, text: string)
    ensures text != "" ==>
              (DeliveryOf(content, false) == Text(text)
               <==> |content| <= MAX_SIZE && exists space :: Pasted(content, space, text))
    ensures DeliveryOf(content, false) == Text("") <==> |content| <= MAX_SIZE && Pem.AllSpace(content)
  {
    var start := LeadingSpace(content);
    LeadingSpaceStops(content);
    assert content == content[..start] + content[start..];
    assert start == |content| ==> content[..start] == content;
    if text != "" && DeliveryOf(content, false) == Text(text) {
      assert Pasted(content, content[..start], text);
    }
    if space :| Pasted(content, space, text) {
      LeadingSpaceSkips(space, text);
      assert content[start..] == text && (start > 0 ==> content[start - 1] == space[start - 1]);
    }
  }

  /** A content that goes on after some whitespace. */
  predicate Leads(content: string, space: string, text: string) {
    content == space + text && Pem.AllSpace(space) && text != "" && !Pem.Space(text[0])
  }

  /** What is refused: a source that fails, more than the size limit, more than
      1024 bytes of whitespace before the text, or a text that does not start
      its line; the first of these that applies. */
  lemma FaultsMean(content: string, sourceFails: bool)
    ensures var d := DeliveryOf(content, sourceFails);
            && (d == Fails(SourceFailed) <==> sourceFails)
            && (d == Fails(Fault.TooLong) <==> !sourceFails && |content| > 0x10_0000)
            && (d == Fails(TooMuchWhitespace) <==>
                !sourceFails && |content| <= 0x10_0000
                && exists space, text :: Leads(content, space, text) && |space| > 1024)
            && (d == Fails(NotAtLineStart) <==>
                !sourceFails && |content| <= 0x10_0000
                && exists space, text ::
                     Leads(content, space, text) && 0 < |space| <= 1024 && space[|space| - 1] != '\n')
  {
    var start := LeadingSpace(content);
    LeadingSpaceStops(content);
    assert content == content[..start] + content[start..];
    if start < |content| {
      assert Leads(content, content[..start], content[start..]);
    }
    forall space, text | Leads(content, space, text) ensures |space| == start && space == content[..start] {
      LeadingSpaceSkips(space, text);
    }
  }

  /** Whitespace alone reads as empty, however much of it there is. */
  lemma OnlySpaceIsEmpty(space: string)
    requires |space| <= MAX_SIZE && Pem.AllSpace(space)
    ensures DeliveryOf(space, false) == Text("")
  {
    LeadingSpaceSkips(space, "");
    assert space + "" == space;
  }

  /** Pasting: a signature behind at most 1024 bytes of blank lines is read
      back, with whatever whitespace follows it. */
  lemma PastedSignatureIsRead(parse: Keys.KeyParser, sig: Sshsig.Signature, lines: string, space: string)
    requires Keys.Faithful(parse) && Sshsig.Readable(parse, sig.publicKey) && Sshsig.FieldsFit(sig)
    requires Sshsig.ValidateStructure(parse, sig).None? && Sshsig.ValidateAlgorithm(parse, sig).None?
    requires |lines| <= MAX_WHITESPACE && (lines != "" ==> lines[|lines| - 1] == '\n')
    requires Pem.AllSpace(lines) && Pem.AllSpace(space)
    requires |lines + (Armor.Armored(Sshsig.Marshal(sig)) + space)| <= MAX_SIZE
    ensures var d := DeliveryOf(lines + (Armor.Armored(Sshsig.Marshal(sig)) + space), false);
            d.Text? && Armor.SignatureRead(parse, d.text, MAX_SIZE) == Ok(Sshsig.Reread(parse, sig))
  {
    var armor := Armor.Armored(Sshsig.Marshal(sig)) + space;
    Armor.StartsWithHeader(Sshsig.Marshal(sig), space);
    Armor.HeaderBytes();
    assert armor[0] == armor[..|Armor.HEADER|][0] == Armor.HEADER[0] == '-';
    assert Pasted(lines + armor, lines, armor);
    DeliversPastedText(lines + armor, armor);
    Armor.ReadInvertsArmor(parse, sig, space, MAX_SIZE);
  }
}
