/** Byte-string helpers the source takes from Go's strings and bytes packages.
    A char stands for one byte. */
module Text {

  function Find(s: string, c: char): (n: nat)
    ensures n <= |s| && c !in s[..n]
    ensures n < |s| ==> s[n] == c
  {
    if s == "" || s[0] == c then 0 else
      var n := 1 + Find(s[1..], c);
      assert s[..n] == [s[0]] + s[1..][..n - 1];
      n
  }

  /** strings.Split with a one-byte separator. */
  function Split(s: string, sep: char): (parts: seq<string>)
    ensures parts != []
    decreases |s|
  {
    var n := Find(s, sep);
    if n == |s| then [s] else [s[..n]] + Split(s[n + 1..], sep)
  }

  /** strings.Join with a one-byte separator. */
  function Join(parts: seq<string>, sep: char): string {
    if parts == [] then "" else if |parts| == 1 then parts[0]
    else parts[0] + [sep] + Join(parts[1..], sep)
  }

  /** Splitting finds the pieces without the separator that join to the text. */
  lemma {:induction false} SplitJoins(s: string, sep: char)
    ensures Join(Split(s, sep), sep) == s
    ensures forall i | 0 <= i < |Split(s, sep)| :: sep !in Split(s, sep)[i]
    decreases |s|
  {
    var n := Find(s, sep);
    if n < |s| {
      SplitJoins(s[n + 1..], sep);
      assert s == s[..n] + [sep] + s[n + 1..];
    } else {
      assert s[..n] == s;
    }
  }

  /** And there is one way to do so. */
  lemma {:induction false} JoinSplits(parts: seq<string>, sep: char)
    requires parts != [] && forall i | 0 <= i < |parts| :: sep !in parts[i]
    ensures Split(Join(parts, sep), sep) == parts
  {
    var first := parts[0];
    if |parts| == 1 {
      FindNone(first, sep);
      assert parts == [first];
    } else {
      var rest := Join(parts[1..], sep);
      JoinSplits(parts[1..], sep);
      assert first + [sep] + rest == first + ([sep] + rest);
      FindHere(first, [sep] + rest, sep);
      assert (first + ([sep] + rest))[|first| + 1..] == rest;
      assert parts == [first] + parts[1..];
    }
  }

  lemma FindNone(s: string, c: char)
    requires c !in s
    ensures Find(s, c) == |s| && s[..|s|] == s
  {
  }

  /** The two field separators. */
  predicate Blank(c: char) {
    c == ' ' || c == '\t'
  }

  function TrimLeft(s: string): (t: string)
    ensures |t| <= |s|
  {
    if s != "" && Blank(s[0]) then TrimLeft(s[1..]) else s
  }

  function TrimRight(s: string): (t: string)
    ensures |t| <= |s|
  {
    if s != "" && Blank(s[|s| - 1]) then TrimRight(s[..|s| - 1]) else s
  }

  function Trim(s: string): string {
    TrimRight(TrimLeft(s))
  }

  /** The first occurrence, when the text before it has none. */
  lemma {:induction false} FindHere(a: string, b: string, c: char)
    requires c !in a && b != "" && b[0] == c
    ensures Find(a + b, c) == |a|
  {
    if a == "" {
      assert a + b == b;
    } else {
      assert (a + b)[1..] == a[1..] + b;
      FindHere(a[1..], b, c);
    }
  }

  lemma NothingToTrim(s: string)
    requires s != "" && !Blank(s[0]) && !Blank(s[|s| - 1])
    ensures Trim(s) == s
  {
  }

  lemma {:induction false} TrimLeftMeans(s: string) returns (blanks: string)
    ensures s == blanks + TrimLeft(s) && forall c | c in blanks :: c == ' ' || c == '\t'
    ensures TrimLeft(s) == "" || (TrimLeft(s)[0] != ' ' && TrimLeft(s)[0] != '\t')
  {
    blanks := "";
    if s != "" && Blank(s[0]) {
      var more := TrimLeftMeans(s[1..]);
      blanks := [s[0]] + more;
      assert s == [s[0]] + s[1..];
    } else {
      assert "" + s == s;
    }
  }

  lemma {:induction false} TrimRightMeans(s: string) returns (blanks: string)
    ensures s == TrimRight(s) + blanks && forall c | c in blanks :: c == ' ' || c == '\t'
    ensures var t := TrimRight(s); t == "" || (t[0] == s[0] && t[|t| - 1] != ' ' && t[|t| - 1] != '\t')
  {
    blanks := "";
    if s != "" && Blank(s[|s| - 1]) {
      var init := s[..|s| - 1];
      var more := TrimRightMeans(init);
      blanks := more + [s[|s| - 1]];
      assert s == init + [s[|s| - 1]];
    } else {
      assert s + "" == s;
    }
  }

  /** Trimming takes blanks off both ends, and all of them. */
  lemma TrimMeans(s: string) returns (before: string, after: string)
    ensures s == before + Trim(s) + after
    ensures forall c | c in before + after :: c == ' ' || c == '\t'
    ensures var t := Trim(s); t == "" || (t[0] !in {' ', '\t'} && t[|t| - 1] !in {' ', '\t'})
  {
    before := TrimLeftMeans(s);
    after := TrimRightMeans(TrimLeft(s));
  }
}
