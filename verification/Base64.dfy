/** Standard padded base64, section 4 of RFC 4648, as Go's base64.StdEncoding
    reads it: line breaks are ignored, trailing bits of the last group are not
    checked. Used for keys (pkg/sshsig/publickey.go) and armor
    (pkg/sshsig/protocol.go, pkg/sshsig/signature.go). */
module Base64 {
  import opened Wrappers
  import opened Keys

  type Sextet = n: int | 0 <= n < 64

  function Digit(n: Sextet): Byte {
    if n < 26 then (n + 65) as char
    else if n < 52 then (n + 71) as char
    else if n < 62 then (n - 4) as char
    else if n == 62 then '+' else '/'
  }

  predicate IsDigit(c: char) {
    'A' <= c <= 'Z' || 'a' <= c <= 'z' || '0' <= c <= '9' || c == '+' || c == '/'
  }

  function Value(c: char): Sextet
    requires IsDigit(c)
  {
    if 'A' <= c <= 'Z' then c as int - 65
    else if 'a' <= c <= 'z' then c as int - 71
    else if '0' <= c <= '9' then c as int + 4
    else if c == '+' then 62 else 63
  }

  lemma DigitHasItsValue(n: Sextet)
    ensures IsDigit(Digit(n)) && Value(Digit(n)) == n
  {
  }

  // ----- one group of three bytes and four digits

  function First(b0: Byte): Sextet {
    b0 as int / 4
  }

  function Second(b0: Byte, b1: Byte): Sextet {
    b0 as int % 4 * 16 + b1 as int / 16
  }

  function Third(b1: Byte, b2: Byte): Sextet {
    b1 as int % 16 * 4 + b2 as int / 64
  }

  function Fourth(b2: Byte): Sextet {
    b2 as int % 64
  }

  function Byte0(n0: Sextet, n1: Sextet): Byte {
    (n0 * 4 + n1 / 16) as char
  }

  function Byte1(n1: Sextet, n2: Sextet): Byte {
    (n1 % 16 * 16 + n2 / 4) as char
  }

  function Byte2(n2: Sextet, n3: Sextet): Byte {
    (n2 % 4 * 64 + n3) as char
  }

  lemma GroupRoundTrip(b0: Byte, b1: Byte, b2: Byte)
    ensures Byte0(First(b0), Second(b0, b1)) == b0
    ensures Byte1(Second(b0, b1), Third(b1, b2)) == b1
    ensures Byte2(Third(b1, b2), Fourth(b2)) == b2
  {
  }

  // ----- whole texts

  const ZERO: Byte := '\0'

  function Encode(b: Bytes): (text: Bytes)
    ensures |text| == (|b| + 2) / 3 * 4
  {
    if b == [] then []
    else if |b| == 1 then [Digit(First(b[0])), Digit(Second(b[0], ZERO)), '=', '=']
    else if |b| == 2 then [Digit(First(b[0])), Digit(Second(b[0], b[1])), Digit(Third(b[1], ZERO)), '=']
    else
      [Digit(First(b[0])), Digit(Second(b[0], b[1])), Digit(Third(b[1], b[2])), Digit(Fourth(b[2]))]
      + Encode(b[3..])
  }

  function DecodeGroups(s: string): Option<Bytes> {
    if s == "" then Some([])
    else if |s| < 4 || !IsDigit(s[0]) || !IsDigit(s[1]) then None
    else if |s| == 4 && s[2] == '=' && s[3] == '=' then
      Some([Byte0(Value(s[0]), Value(s[1]))])
    else if !IsDigit(s[2]) then None
    else if |s| == 4 && s[3] == '=' then
      Some([Byte0(Value(s[0]), Value(s[1])), Byte1(Value(s[1]), Value(s[2]))])
    else if !IsDigit(s[3]) then None
    else match DecodeGroups(s[4..])
      case None => None
      case Some(more) =>
        Some([Byte0(Value(s[0]), Value(s[1])), Byte1(Value(s[1]), Value(s[2])), Byte2(Value(s[2]), Value(s[3]))] + more)
  }

  function WithoutBreaks(s: string): string {
    if s == "" then ""
    else if s[0] == '\r' || s[0] == '\n' then WithoutBreaks(s[1..])
    else [s[0]] + WithoutBreaks(s[1..])
  }

  function Decode(s: string): Option<Bytes> {
    DecodeGroups(WithoutBreaks(s))
  }

  // ----- decoding undoes encoding

  lemma {:induction false} DecodeGroupsInvertsEncode(b: Bytes)
    ensures DecodeGroups(Encode(b)) == Some(b)
  {
    if |b| == 1 {
      assert b == [b[0]];
      LastByteRoundTrip(b[0]);
    } else if |b| == 2 {
      assert b == [b[0], b[1]];
      LastBytesRoundTrip(b[0], b[1]);
    } else if b != [] {
      DecodeGroupsInvertsEncode(b[3..]);
      GroupDecodes(b[0], b[1], b[2], Encode(b[3..]), b[3..]);
      assert b == [b[0], b[1], b[2]] + b[3..];
    }
  }

  lemma GroupDecodes(b0: Byte, b1: Byte, b2: Byte, text: Bytes, more: Bytes)
    requires DecodeGroups(text) == Some(more)
    ensures DecodeGroups([Digit(First(b0)), Digit(Second(b0, b1)), Digit(Third(b1, b2)), Digit(Fourth(b2))] + text)
            == Some([b0, b1, b2] + more)
  {
    var s := [Digit(First(b0)), Digit(Second(b0, b1)), Digit(Third(b1, b2)), Digit(Fourth(b2))] + text;
    DigitHasItsValue(First(b0));
    DigitHasItsValue(Second(b0, b1));
    DigitHasItsValue(Third(b1, b2));
    DigitHasItsValue(Fourth(b2));
    GroupRoundTrip(b0, b1, b2);
    assert s[4..] == text;
    assert s[2] != '=' && s[3] != '=';
  }

  lemma LastByteRoundTrip(b0: Byte)
    ensures DecodeGroups(Encode([b0])) == Some([b0])
  {
    DigitHasItsValue(First(b0));
    DigitHasItsValue(Second(b0, ZERO));
    GroupRoundTrip(b0, ZERO, ZERO);
  }

  lemma LastBytesRoundTrip(b0: Byte, b1: Byte)
    ensures DecodeGroups(Encode([b0, b1])) == Some([b0, b1])
  {
    DigitHasItsValue(First(b0));
    DigitHasItsValue(Second(b0, b1));
    DigitHasItsValue(Third(b1, ZERO));
    GroupRoundTrip(b0, b1, ZERO);
  }

  /** Encoded text holds digits and padding only. */
  lemma {:induction false} EncodeAlphabet(b: Bytes)
    ensures forall i | 0 <= i < |Encode(b)| :: IsDigit(Encode(b)[i]) || Encode(b)[i] == '='
  {
    if |b| >= 3 {
      EncodeAlphabet(b[3..]);
    }
  }

  lemma {:induction false} NothingToStrip(s: string)
    requires forall i | 0 <= i < |s| :: s[i] != '\r' && s[i] != '\n'
    ensures WithoutBreaks(s) == s
  {
    if s != "" {
      NothingToStrip(s[1..]);
    }
  }

  lemma DecodeInvertsEncode(b: Bytes)
    ensures Decode(Encode(b)) == Some(b)
  {
    EncodeAlphabet(b);
    NothingToStrip(Encode(b));
    DecodeGroupsInvertsEncode(b);
  }

  /** ParsePublicKey: a key from its base64 text. */
  function ParsePublicKey(parse: KeyParser, text: string): Option<PublicKey> {
    match Decode(text)
    case None => None
    case Some(blob) => parse(blob)
  }

  // ----- the alphabet, the order of bits, and what decodes

  /** The alphabet: A to Z, a to z, 0 to 9, plus and slash, in this order. */
  lemma DigitsAreTheAlphabet(n: Sextet)
    ensures Digit(0) == 'A' && Digit(25) == 'Z' && Digit(26) == 'a' && Digit(51) == 'z'
    ensures Digit(52) == '0' && Digit(61) == '9' && Digit(62) == '+' && Digit(63) == '/'
    ensures n < 61 && n != 25 && n != 51 ==> Digit(n + 1) as int == Digit(n) as int + 1
  {
  }

  /** Four digits hold three bytes, most significant first. */
  lemma GroupIsBigEndian(b0: Byte, b1: Byte, b2: Byte)
    ensures ((First(b0) * 64 + Second(b0, b1)) * 64 + Third(b1, b2)) * 64 + Fourth(b2)
         == (b0 as int * 0x100 + b1 as int) * 0x100 + b2 as int
  {
  }

  /** Whole groups of digits, of which the last k are padding. */
  predicate PaddedBy(s: string, k: nat) {
    && |s| % 4 == 0 && k <= 2 && k <= |s|
    && (forall i | 0 <= i < |s| - k :: IsDigit(s[i]))
    && (forall i | |s| - k <= i < |s| :: s[i] == '=')
  }

  lemma PaddedTail(s: string, k: nat)
    requires |s| >= 4
    ensures |s| > 4 || k == 0 ==>
              (PaddedBy(s, k)
               <==> PaddedBy(s[4..], k) && IsDigit(s[0]) && IsDigit(s[1]) && IsDigit(s[2]) && IsDigit(s[3]))
  {
    forall i | 0 <= i < |s| - 4 ensures s[4..][i] == s[i + 4] {}
    assert forall i | 4 <= i < |s| :: s[i] == s[4..][i - 4];
  }

  /** Exactly the padded texts decode, whatever the unused bits of their last
      digit, and to a length that the padding tells. */
  lemma {:induction false} PaddedDecodes(s: string, k: nat)
    requires PaddedBy(s, k)
    ensures DecodeGroups(s).Some? && |DecodeGroups(s).value| == |s| / 4 * 3 - k
    decreases |s|
  {
    if |s| > 4 || (|s| == 4 && k == 0) {
      PaddedTail(s, k);
      PaddedDecodes(s[4..], k);
    }
  }

  lemma {:induction false} DecodedIsPadded(s: string) returns (k: nat)
    requires DecodeGroups(s).Some?
    ensures PaddedBy(s, k)
    decreases |s|
  {
    if s == "" {
      k := 0;
    } else if |s| == 4 && s[3] == '=' {
      k := if s[2] == '=' then 2 else 1;
    } else {
      k := DecodedIsPadded(s[4..]);
      PaddedTail(s, k);
      assert |s| == 4 ==> k == 0;
    }
  }

  lemma DecodeIsExact(s: string)
    ensures DecodeGroups(s).Some? <==> exists k :: PaddedBy(s, k)
  {
    if DecodeGroups(s).Some? {
      var k := DecodedIsPadded(s);
    }
    if k :| PaddedBy(s, k) {
      PaddedDecodes(s, k);
    }
  }
}
