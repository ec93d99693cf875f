/** Escaping terminal controls in encoded JSON (EscapeJSONControls in pkg/cli/format.go). */
module JsonEscape {
  import opened Wrappers
  import opened Keys

  const DEL: Byte := '\U{7f}'
  const C2: Byte := '\U{c2}'

  /** The second byte of a C1 control in UTF-8. */
  predicate C1Tail(c: char) {
    0x80 <= c as int <= 0x9f
  }

  predicate StartsC1(s: Bytes) {
    |s| > 1 && s[0] == C2 && C1Tail(s[1])
  }

  function HexDigit(n: nat): Byte
    requires n < 16
  {
    if n < 10 then (n + 48) as char else (n + 87) as char
  }

  /** Four lower-case hex digits of a code point below 256. */
  function Escaped(c: Byte): (s: Bytes)
    ensures |s| == 6
  {
    ['\\', 'u', '0', '0', HexDigit(c as int / 16), HexDigit(c as int % 16)]
  }

  /** Every DEL and every C1 control written as an escape, all else kept. */
  function EscapeAll(s: Bytes): Bytes {
    if s == [] then []
    else if s[0] == DEL then Escaped(DEL) + EscapeAll(s[1..])
    else if StartsC1(s) then Escaped(s[1]) + EscapeAll(s[2..])
    else [s[0]] + EscapeAll(s[1..])
  }

  /** What the copying loop has put out, and what it still owes. The loop
      compares it with true to carry it along. */
  ghost predicate Copied(encoded: Bytes, out: Bytes, last: nat, i: nat) {
    last <= i <= |encoded| && EscapeAll(encoded) == out + encoded[last..i] + EscapeAll(encoded[i..])
  }

  /** The copying loop: it appends the segments between controls, and returns
      its input itself when it meets none. */
  method EscapeJSONControls(encoded: Bytes) returns (r: Bytes)
    ensures r == EscapeAll(encoded)
  {
    var out: Bytes := [];
    var found := false;
    var last, i := 0, 0;
    NothingCopied(encoded);
    while i < |encoded|
      invariant 0 <= last <= i <= |encoded| && (!found ==> out == [] && last == 0)
      invariant Copied(encoded, out, last, i) == true
    {
      var c: Byte;
      if encoded[i] == DEL {
        c := DEL;
      } else if encoded[i] == C2 && i + 1 < |encoded| && C1Tail(encoded[i + 1]) {
        c := encoded[i + 1];
      } else {
        KeepByte(encoded, out, last, i);
        i := i + 1;
        continue;
      }
      ReplaceControl(encoded, out, last, i);
      found := true;
      out := out + encoded[last..i];
      out := out + Escaped(c);
      if c != DEL {
        i := i + 1;
      }
      i := i + 1;
      last := i;
    }
    AllCopied(encoded, out, last, i);
    if !found {
      return encoded;
    }
    r := out + encoded[last..];
  }

  lemma NothingCopied(encoded: Bytes)
    ensures Copied(encoded, [], 0, 0)
  {
    assert encoded[0..] == encoded && [] + encoded[0..0] + EscapeAll(encoded) == EscapeAll(encoded);
  }

  lemma {:induction false} AllCopied(encoded: Bytes, out: Bytes, last: nat, i: nat)
    requires Copied(encoded, out, last, i) && i >= |encoded|
    ensures EscapeAll(encoded) == out + encoded[last..]
    ensures out == [] && last == 0 ==> EscapeAll(encoded) == encoded
  {
    assert encoded[i..] == [] && encoded[last..i] == encoded[last..];
    assert EscapeAll([]) == [] && out + encoded[last..] + [] == out + encoded[last..];
    assert out == [] && last == 0 ==> out + encoded[last..] == encoded;
  }

  lemma KeepByte(encoded: Bytes, out: Bytes, last: nat, i: nat)
    requires Copied(encoded, out, last, i) && i < |encoded|
    requires encoded[i] != DEL && !(encoded[i] == C2 && i + 1 < |encoded| && C1Tail(encoded[i + 1]))
    ensures Copied(encoded, out, last, i + 1)
  {
    assert encoded[i..][1..] == encoded[i + 1..];
    assert encoded[last..i + 1] == encoded[last..i] + [encoded[i]];
  }

  lemma ReplaceControl(encoded: Bytes, out: Bytes, last: nat, i: nat)
    requires Copied(encoded, out, last, i) && i < |encoded|
    requires encoded[i] == DEL || (encoded[i] == C2 && i + 1 < |encoded| && C1Tail(encoded[i + 1]))
    ensures var j := if encoded[i] == DEL then i + 1 else i + 2;
            var c := if encoded[i] == DEL then DEL else encoded[i + 1];
            Copied(encoded, out + encoded[last..i] + Escaped(c), j, j)
  {
    var j := if encoded[i] == DEL then i + 1 else i + 2;
    assert encoded[i..][j - i..] == encoded[j..];
    assert encoded[j..j] == [];
  }

  // ----- complete and idempotent

  /** No byte 7F, and no byte C2 before one from 80 to 9F. */
  predicate Clean(s: Bytes) {
    forall i | 0 <= i < |s| ::
      && s[i] as int != 0x7f
      && !(s[i] as int == 0xc2 && i + 1 < |s| && 0x80 <= s[i + 1] as int <= 0x9f)
  }

  lemma {:induction false} CleanCons(c: Byte, s: Bytes)
    requires Clean(s) && c != DEL && !(s != [] && c == C2 && C1Tail(s[0]))
    ensures Clean([c] + s)
  {
    var t := [c] + s;
    forall i | 0 <= i < |t| ensures t[i] != DEL && !(i + 1 < |t| && t[i] == C2 && C1Tail(t[i + 1])) {
      if i > 0 {
        assert t[i] == s[i - 1];
      }
    }
  }

  lemma CleanEscape(c: Byte, s: Bytes)
    requires Clean(s)
    ensures Clean(Escaped(c) + s)
  {
    var e := Escaped(c);
    var t := e + s;
    forall i | 0 <= i < |t| ensures t[i] != DEL && !(i + 1 < |t| && t[i] == C2 && C1Tail(t[i + 1])) {
      if i >= 6 {
        assert t[i] == s[i - 6];
      } else {
        assert t[i] == e[i];
      }
    }
  }

  /** The output never holds a raw DEL or C1 control. */
  lemma {:induction false} EscapeIsComplete(s: Bytes)
    ensures Clean(EscapeAll(s))
    ensures s != [] && s[0] != DEL && !StartsC1(s) ==> EscapeAll(s)[0] == s[0]
    ensures s != [] && (s[0] == DEL || StartsC1(s)) ==> EscapeAll(s)[0] == '\\'
  {
    if s != [] {
      if s[0] == DEL {
        EscapeIsComplete(s[1..]);
        CleanEscape(DEL, EscapeAll(s[1..]));
      } else if StartsC1(s) {
        EscapeIsComplete(s[2..]);
        CleanEscape(s[1], EscapeAll(s[2..]));
      } else {
        EscapeIsComplete(s[1..]);
        CleanCons(s[0], EscapeAll(s[1..]));
      }
    }
  }

  /** Exactly the clean texts are left as they are. */
  lemma {:induction false} CleanIsKept(s: Bytes)
    ensures EscapeAll(s) == s <==> Clean(s)
  {
    EscapeIsComplete(s);
    if Clean(s) && s != [] {
      assert Clean(s[1..]) by {
        forall i | 0 <= i < |s[1..]|
          ensures s[1..][i] != DEL && !(i + 1 < |s[1..]| && s[1..][i] == C2 && C1Tail(s[1..][i + 1]))
        {
          assert s[1..][i] == s[i + 1];
        }
      }
      CleanIsKept(s[1..]);
      assert s == [s[0]] + s[1..];
    }
  }

  lemma EscapeIsIdempotent(s: Bytes)
    ensures EscapeAll(EscapeAll(s)) == EscapeAll(s)
  {
    EscapeIsComplete(s);
    CleanIsKept(EscapeAll(s));
  }

  // ----- lossless: what a JSON string body decodes to (section 7 of RFC 8259)

  /** The first character of a string body: its UTF-16 code units and how many
      bytes spell it. */
  datatype Head = Head(units: seq<nat>, width: nat) | BadHead

  predicate Within(c: Byte, lo: nat, hi: nat) {
    lo <= c as int <= hi
  }

  function HexValue(c: Byte): int {
    if '0' <= c <= '9' then c as int - 48
    else if 'a' <= c <= 'f' then c as int - 87
    else if 'A' <= c <= 'F' then c as int - 55
    else -1
  }

  function SimpleEscape(c: Byte): int {
    if c == '"' || c == '\\' || c == '/' then c as int
    else if c == 'b' then 8
    else if c == 'f' then 12
    else if c == 'n' then 10
    else if c == 'r' then 13
    else if c == 't' then 9
    else -1
  }

  function EscapeHead(s: Bytes): Head
    requires s != []
  {
    if |s| < 2 then BadHead
    else if SimpleEscape(s[1]) >= 0 then Head([SimpleEscape(s[1])], 2)
    else if s[1] != 'u' || |s| < 6 then BadHead
    else if HexValue(s[2]) < 0 || HexValue(s[3]) < 0 || HexValue(s[4]) < 0 || HexValue(s[5]) < 0 then BadHead
    else Head([HexValue(s[2]) * 4096 + HexValue(s[3]) * 256 + HexValue(s[4]) * 16 + HexValue(s[5])], 6)
  }

  /** One character of well-formed UTF-8 (section 4 of RFC 3629) at or above U+0080. */
  function Utf8Head(s: Bytes): Head
    requires s != []
  {
    var a := s[0] as int;
    if 0xc2 <= a <= 0xdf && |s| >= 2 && Within(s[1], 0x80, 0xbf) then
      Head([(a - 0xc0) * 64 + s[1] as int - 0x80], 2)
    else if 0xe0 <= a <= 0xef && |s| >= 3 && Within(s[2], 0x80, 0xbf)
            && Within(s[1], if a == 0xe0 then 0xa0 else 0x80, if a == 0xed then 0x9f else 0xbf) then
      Head([(a - 0xe0) * 4096 + (s[1] as int - 0x80) * 64 + s[2] as int - 0x80], 3)
    else if 0xf0 <= a <= 0xf4 && |s| >= 4 && Within(s[2], 0x80, 0xbf) && Within(s[3], 0x80, 0xbf)
            && Within(s[1], if a == 0xf0 then 0x90 else 0x80, if a == 0xf4 then 0x8f else 0xbf) then
      var high := (a - 0xf0) * 256 + (s[1] as int - 0x80) * 4 + (s[2] as int - 0x80) / 16 - 64;
      Head([0xd800 + high, 0xdc00 + (s[2] as int - 0x80) % 16 * 64 + s[3] as int - 0x80], 4)
    else BadHead
  }

  function HeadOf(s: Bytes): (h: Head)
    requires s != []
    ensures h.Head? ==> 0 < h.width <= |s|
  {
    if s[0] == '\\' then EscapeHead(s)
    else if s[0] == '"' || s[0] as int < 0x20 then BadHead
    else if s[0] as int < 0x80 then Head([s[0] as int], 1)
    else Utf8Head(s)
  }

  /** The UTF-16 text of a string body, if it is a valid one. */
  function Decode(s: Bytes): Option<seq<nat>>
    decreases |s|
  {
    if s == [] then Some([])
    else match HeadOf(s)
      case BadHead => None
      case Head(units, width) =>
        match Decode(s[width..])
        case None => None
        case Some(more) => Some(units + more)
  }

  /** A character is decided by its own bytes. */
  lemma HeadIsLocal(s: Bytes, tail: Bytes)
    requires s != [] && HeadOf(s).Head?
    ensures var t := s[..HeadOf(s).width] + tail; t != [] && HeadOf(t) == HeadOf(s)
  {
    var k := HeadOf(s).width;
    var t := s[..k] + tail;
    forall i | 0 <= i < k ensures t[i] == s[i] {}
  }

  predicate IsControl(s: Bytes)
    requires s != []
  {
    s[0] == DEL || StartsC1(s)
  }

  /** A control and its escape are the same character. */
  lemma ControlDecodes(s: Bytes, tail: Bytes)
    requires s != [] && IsControl(s)
    ensures var c := if s[0] == DEL then DEL else s[1];
            && HeadOf(s) == Head([c as int], if s[0] == DEL then 1 else 2)
            && HeadOf(Escaped(c) + tail) == Head([c as int], 6)
  {
    var c := if s[0] == DEL then DEL else s[1];
    var t := Escaped(c) + tail;
    assert t[0] == '\\' && t[1] == 'u' && t[2] == '0' && t[3] == '0';
    assert t[4] == HexDigit(c as int / 16) && t[5] == HexDigit(c as int % 16);
    HexReadsBack(c as int / 16);
    HexReadsBack(c as int % 16);
  }

  lemma HexReadsBack(n: nat)
    requires n < 16
    ensures HexValue(HexDigit(n)) == n
  {
  }

  /** Any other character passes through, byte for byte. */
  lemma OthersPass(s: Bytes)
    requires s != [] && !IsControl(s) && HeadOf(s).Head?
    ensures var k := HeadOf(s).width; EscapeAll(s) == s[..k] + EscapeAll(s[k..])
  {
    var k := HeadOf(s).width;
    PassBytes(s, 1);
    forall i | 1 <= i < k ensures s[i] != DEL && s[i] != C2 {
    }
    PassFrom(s, 1, k);
  }

  lemma PassBytes(s: Bytes, k: nat)
    requires s != [] && !IsControl(s) && k == 1
    ensures EscapeAll(s) == s[..k] + EscapeAll(s[k..])
  {
    assert s[..1] == [s[0]];
  }

  lemma {:induction false} PassFrom(s: Bytes, i: nat, k: nat)
    requires i <= k <= |s| && EscapeAll(s) == s[..i] + EscapeAll(s[i..])
    requires forall j | i <= j < k :: s[j] != DEL && s[j] != C2
    ensures EscapeAll(s) == s[..k] + EscapeAll(s[k..])
    decreases k - i
  {
    if i < k {
      var c, t := s[i], s[i + 1..];
      assert s[i..] == [c] + t && s[..i + 1] == s[..i] + [c];
      EscapeKeeps(c, t);
      Regroup(s[..i], c, EscapeAll(t));
      PassFrom(s, i + 1, k);
    }
  }

  lemma Regroup(a: Bytes, c: Byte, b: Bytes)
    ensures a + ([c] + b) == a + [c] + b
  {
  }

  /** Escaping loses nothing: every valid string body decodes to the same text
      before and after. */
  lemma {:induction false} EscapeIsLossless(s: Bytes)
    requires Decode(s).Some?
    ensures Decode(EscapeAll(s)) == Decode(s)
    decreases |s|
  {
    if s != [] {
      var k := HeadOf(s).width;
      EscapeIsLossless(s[k..]);
      var tail := EscapeAll(s[k..]);
      if IsControl(s) {
        ControlDecodes(s, tail);
        var c := if s[0] == DEL then DEL else s[1];
        assert EscapeAll(s) == Escaped(c) + tail;
        assert EscapeAll(s)[6..] == tail;
      } else {
        OthersPass(s);
        HeadIsLocal(s, tail);
        assert EscapeAll(s)[k..] == tail;
      }
    }
  }

  // ----- whole documents

  lemma {:induction false} EscapeKeeps(c: Byte, t: Bytes)
    requires c != DEL && !(c == C2 && t != [] && C1Tail(t[0]))
    ensures EscapeAll([c] + t) == [c] + EscapeAll(t)
  {
    assert ([c] + t)[1..] == t;
  }

  lemma {:induction false} EscapeDel(t: Bytes)
    ensures EscapeAll([DEL] + t) == Escaped(DEL) + EscapeAll(t)
  {
    assert ([DEL] + t)[1..] == t;
  }

  lemma {:induction false} EscapeC1(d: Byte, t: Bytes)
    requires C1Tail(d)
    ensures EscapeAll([C2, d] + t) == Escaped(d) + EscapeAll(t)
  {
    assert ([C2, d] + t)[2..] == t;
  }

  lemma Associates(x: Bytes, y: Bytes, z: Bytes)
    ensures x + (y + z) == (x + y) + z
  {
  }

  lemma {:induction false} FirstThenRest(c: Byte, t: Bytes, b: Bytes)
    requires EscapeAll(t + b) == EscapeAll(t) + EscapeAll(b)
    requires c != DEL ==> !(c == C2 && t + b != [] && C1Tail((t + b)[0]))
    ensures EscapeAll([c] + (t + b)) == EscapeAll([c] + t) + EscapeAll(b)
  {
    if c == DEL {
      EscapeDel(t);
      EscapeDel(t + b);
      Associates(Escaped(DEL), EscapeAll(t), EscapeAll(b));
    } else {
      assert t != [] ==> (t + b)[0] == t[0];
      EscapeKeeps(c, t);
      EscapeKeeps(c, t + b);
      Associates([c], EscapeAll(t), EscapeAll(b));
    }
  }

  lemma {:induction false} ControlThenRest(d: Byte, t: Bytes, b: Bytes)
    requires EscapeAll(t + b) == EscapeAll(t) + EscapeAll(b) && C1Tail(d)
    ensures EscapeAll([C2, d] + (t + b)) == EscapeAll([C2, d] + t) + EscapeAll(b)
  {
    EscapeC1(d, t);
    EscapeC1(d, t + b);
    Associates(Escaped(d), EscapeAll(t), EscapeAll(b));
  }

  /** Escaping goes piece by piece, unless a C1 control is cut in two. */
  lemma {:induction false} EscapeConcat(a: Bytes, b: Bytes)
    requires a == [] || b == [] || !(a[|a| - 1] == C2 && C1Tail(b[0]))
    ensures EscapeAll(a + b) == EscapeAll(a) + EscapeAll(b)
    decreases |a|
  {
    if a == [] {
      assert a + b == b;
    } else if StartsC1(a) {
      EscapeConcat(a[2..], b);
      ControlThenRest(a[1], a[2..], b);
      Associates([C2, a[1]], a[2..], b);
      assert a == [C2, a[1]] + a[2..];
    } else {
      EscapeConcat(a[1..], b);
      FirstThenRest(a[0], a[1..], b);
      Associates([a[0]], a[1..], b);
      assert a == [a[0]] + a[1..];
    }
  }

  /** A document: text between strings, and the bodies of its strings. */
  function Document(between: seq<Bytes>, bodies: seq<Bytes>): Bytes
    requires |between| == |bodies| + 1
    decreases |bodies|
  {
    if bodies == [] then between[0]
    else between[0] + (['"'] + (bodies[0] + (['"'] + Document(between[1..], bodies[1..]))))
  }

  function EscapeEach(bodies: seq<Bytes>): (escaped: seq<Bytes>)
    ensures |escaped| == |bodies|
  {
    Map(EscapeAll, bodies)
  }

  lemma {:induction false} EscapeAtQuote(a: Bytes, b: Bytes)
    ensures EscapeAll(a + (['"'] + b)) == EscapeAll(a) + (['"'] + EscapeAll(b))
  {
    var t: Bytes := ['"'] + b;
    EscapeConcat(a, t);
    EscapeKeeps('"', b);
  }

  /** Escaping a document escapes the bodies of its strings and nothing else,
      so it keeps its structure and every string its text. */
  lemma {:induction false} DocumentsAreKept(between: seq<Bytes>, bodies: seq<Bytes>)
    requires |between| == |bodies| + 1 && forall i | 0 <= i < |between| :: Clean(between[i])
    ensures EscapeAll(Document(between, bodies)) == Document(between, EscapeEach(bodies))
    ensures forall i | 0 <= i < |bodies| && Decode(bodies[i]).Some? ::
              Decode(EscapeEach(bodies)[i]) == Decode(bodies[i])
    decreases |bodies|
  {
    CleanIsKept(between[0]);
    forall i | 0 <= i < |bodies| && Decode(bodies[i]).Some? ensures Decode(EscapeEach(bodies)[i]) == Decode(bodies[i]) {
      EscapeIsLossless(bodies[i]);
    }
    if bodies != [] {
      DocumentsAreKept(between[1..], bodies[1..]);
      var tail := Document(between[1..], bodies[1..]);
      EscapeAtQuote(bodies[0], tail);
      EscapeAtQuote(between[0], bodies[0] + (['"'] + tail));
      assert EscapeEach(bodies)[1..] == EscapeEach(bodies[1..]);
    }
  }

  /** The escapes have lower-case digits. */
  lemma EscapeExamples()
    ensures Escaped(DEL) == "\\u007f" && Escaped('\U{85}') == "\\u0085" && Escaped('\U{9b}') == "\\u009b"
  {
  }
}
