/** SSH wire encoding, section 5 of RFC 4251: 32-bit big-endian integers and
    length-prefixed strings, as ssh.Marshal and ssh.Unmarshal use them. */
module Wire {
  import opened Keys

  function PutUint32(n: nat): (b: Bytes)
    ensures |b| == 4
  {
    [(n / 0x100_0000 % 0x100) as char, (n / 0x1_0000 % 0x100) as char, (n / 0x100 % 0x100) as char, (n % 0x100) as char]
  }

  function Uint32At(b: Bytes): Uint32
    requires |b| >= 4
  {
    b[0] as int * 0x100_0000 + b[1] as int * 0x1_0000 + b[2] as int * 0x100 + b[3] as int
  }

  lemma Digits(n: Uint32)
    ensures n == n / 0x100_0000 % 0x100 * 0x100_0000 + n / 0x1_0000 % 0x100 * 0x1_0000
              + n / 0x100 % 0x100 * 0x100 + n % 0x100
  {
    var a := n / 0x100;
    var b := a / 0x100;
    assert b == n / 0x1_0000;
    assert b / 0x100 == n / 0x100_0000;
    assert n == a * 0x100 + n % 0x100 && a == b * 0x100 + a % 0x100 && b == b / 0x100 * 0x100 + b % 0x100;
  }

  lemma Uint32ReadsBack(n: Uint32, rest: Bytes)
    ensures Uint32At(PutUint32(n) + rest) == n
  {
    var b := PutUint32(n);
    Digits(n);
    forall i | 0 <= i < 4 ensures (b + rest)[i] == b[i] {}
  }

  lemma Uint32IsCanonical(b: Bytes)
    requires |b| == 4
    ensures PutUint32(Uint32At(b)) == b
  {
    var n := Uint32At(b);
    assert n / 0x100 == b[0] as int * 0x1_0000 + b[1] as int * 0x100 + b[2] as int;
    assert n / 0x1_0000 == b[0] as int * 0x100 + b[1] as int;
    assert n / 0x100_0000 == b[0] as int;
  }

  /** Lengths are written modulo 2^32, as the source's uint32(len) is. */
  function PutString(s: Bytes): Bytes {
    PutUint32(|s|) + s
  }

  /** What reading one string off the front yields. */
  datatype Taken = Taken(value: Bytes, rest: Bytes) | Short

  function TakeString(b: Bytes): Taken {
    if |b| < 4 then Short
    else
      var n := Uint32At(b);
      if |b| - 4 < n then Short else Taken(b[4..4 + n], b[4 + n..])
  }

  predicate Fits(s: Bytes) {
    |s| < 0x1_0000_0000
  }

  lemma TakeInvertsPut(s: Bytes, rest: Bytes)
    requires Fits(s)
    ensures TakeString(PutString(s) + rest) == Taken(s, rest)
  {
    var b := PutString(s) + rest;
    assert b == PutUint32(|s|) + (s + rest);
    Uint32ReadsBack(|s|, s + rest);
    assert b[4..4 + |s|] == s && b[4 + |s|..] == rest;
  }

  /** There is one way to write what was read. */
  lemma PutInvertsTake(b: Bytes)
    requires TakeString(b).Taken?
    ensures Fits(TakeString(b).value) && b == PutString(TakeString(b).value) + TakeString(b).rest
  {
    var n := Uint32At(b);
    assert Uint32At(b[..4]) == n;
    Uint32IsCanonical(b[..4]);
    assert b == b[..4] + b[4..4 + n] + b[4 + n..];
  }

  /** Integers are big-endian. */
  lemma BigEndian(n: Uint32)
    ensures var b := PutUint32(n);
            n == ((b[0] as int * 0x100 + b[1] as int) * 0x100 + b[2] as int) * 0x100 + b[3] as int
  {
    Digits(n);
  }

  /** The example of section 5 of RFC 4251. */
  lemma WireExample()
    ensures PutString("testing") == ['\0', '\0', '\0', '\U{7}'] + "testing"
  {
  }
}
