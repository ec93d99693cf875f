/** OpenSSH patterns and pattern-lists (pkg/allowedsigners/pattern.go). */
module Glob {
  import opened Text

  /** The meaning of a pattern: '*' stands for any bytes, '?' for exactly one,
      anything else for itself. The value is always taken literally. */
  predicate Matches(pattern: string, value: string)
    decreases |pattern|, |value|
  {
    if pattern == "" then value == ""
    else if pattern[0] == '*' then
      Matches(pattern[1..], value) || (value != "" && Matches(pattern, value[1..]))
    else
      value != "" && (pattern[0] == '?' || pattern[0] == value[0]) && Matches(pattern[1..], value[1..])
  }

  // ----- Matches is fixed by what one-byte patterns match and by concatenation

  lemma {:induction false} MatchesOneByte(c: char, value: string)
    ensures Matches([c], value) <==> c == '*' || (|value| == 1 && (c == '?' || value == [c]))
    ensures Matches("", value) <==> value == ""
  {
    if c == '*' && value != "" {
      MatchesOneByte(c, value[1..]);
    }
  }

  lemma {:induction false} MatchesJoin(left: string, right: string, a: string, b: string)
    requires Matches(left, a) && Matches(right, b)
    ensures Matches(left + right, a + b)
    decreases |left|, |a|
  {
    if left == "" {
      assert left + right == right && a + b == b;
    } else {
      assert (left + right)[1..] == left[1..] + right;
      assert a != "" ==> (a + b)[1..] == a[1..] + b;
      if left[0] == '*' && Matches(left[1..], a) {
        MatchesJoin(left[1..], right, a, b);
      } else if left[0] == '*' {
        MatchesJoin(left, right, a[1..], b);
      } else {
        MatchesJoin(left[1..], right, a[1..], b);
      }
    }
  }

  lemma {:induction false} MatchesSplit(left: string, right: string, value: string) returns (i: nat)
    requires Matches(left + right, value)
    ensures i <= |value| && Matches(left, value[..i]) && Matches(right, value[i..])
    decreases |left|, |value|
  {
    if left == "" {
      assert left + right == right && value[0..] == value;
      i := 0;
    } else {
      assert (left + right)[1..] == left[1..] + right;
      if left[0] == '*' && Matches(left[1..] + right, value) {
        i := MatchesSplit(left[1..], right, value);
      } else {
        var k := MatchesSplit(if left[0] == '*' then left else left[1..], right, value[1..]);
        i := k + 1;
        assert value[..i][1..] == value[1..][..k] && value[i..] == value[1..][k..];
      }
    }
  }

  /** A pattern cut anywhere matches exactly the values that can be cut so that
      both halves match. */
  lemma MatchesConcat(left: string, right: string, value: string)
    ensures Matches(left + right, value) <==>
            exists i :: 0 <= i <= |value| && Matches(left, value[..i]) && Matches(right, value[i..])
  {
    if Matches(left + right, value) {
      var i := MatchesSplit(left, right, value);
    }
    if i :| 0 <= i <= |value| && Matches(left, value[..i]) && Matches(right, value[i..]) {
      assert value[..i] + value[i..] == value;
      MatchesJoin(left, right, value[..i], value[i..]);
    }
  }

  // ----- the exchange argument behind a single backtrack point

  /** A star that can stop at a later byte can also stop at any earlier one. */
  lemma {:induction false} StarAbsorbs(pattern: string, value: string, k: nat)
    requires pattern != "" && pattern[0] == '*'
    requires k <= |value| && Matches(pattern, value[k..])
    ensures Matches(pattern, value)
    decreases k
  {
    if k > 0 {
      assert value[k..] == value[1..][k - 1..];
      StarAbsorbs(pattern, value[1..], k - 1);
    } else {
      assert value[0..] == value;
    }
  }

  /** A star-free stretch of a pattern consumes exactly its own length. */
  lemma {:induction false} StarFreeConsumes(stretch: string, rest: string, value: string)
    requires '*' !in stretch && Matches(stretch + rest, value)
    ensures |stretch| <= |value| && Matches(rest, value[|stretch|..])
  {
    if stretch == "" {
      assert stretch + rest == rest && value[0..] == value;
    } else {
      assert (stretch + rest)[0] == stretch[0] && (stretch + rest)[1..] == stretch[1..] + rest;
      StarFreeConsumes(stretch[1..], rest, value[1..]);
      assert value[1..][|stretch| - 1..] == value[|stretch|..];
    }
  }

  /** If a star followed by a star-free stretch can match, then dropping what
      the star swallows is enough to reach what follows the stretch. */
  lemma {:induction false} StarThenStretch(pattern: string, n: nat, value: string)
    requires pattern != "" && pattern[0] == '*' && n < |pattern| && '*' !in pattern[1..n + 1]
    requires Matches(pattern, value)
    ensures exists k :: n <= k <= |value| && Matches(pattern[n + 1..], value[k..])
  {
    if Matches(pattern[1..], value) {
      assert pattern[1..] == pattern[1..n + 1] + pattern[n + 1..];
      StarFreeConsumes(pattern[1..n + 1], pattern[n + 1..], value);
    } else {
      StarThenStretch(pattern, n, value[1..]);
      var k :| n <= k <= |value[1..]| && Matches(pattern[n + 1..], value[1..][k..]);
      assert value[1..][k..] == value[k + 1..];
    }
  }

  /** Forgetting an older star loses nothing: whatever retrying the old star
      from beyond `mark` could still match, the star at `p` matches from `v`. */
  lemma OldStarIsSubsumed(pattern: string, value: string, star: nat, mark: nat, p: nat, v: nat)
    requires star < p < |pattern| && mark < |value| && mark <= v <= |value| && p - star - 1 == v - mark
    requires pattern[star] == '*' && '*' !in pattern[star + 1..p] && pattern[p] == '*'
    requires Matches(pattern[star..], value[mark + 1..])
    ensures Matches(pattern[p..], value[v..])
  {
    var n := p - star - 1;
    assert pattern[star..][1..n + 1] == pattern[star + 1..p];
    StarThenStretch(pattern[star..], n, value[mark + 1..]);
    assert pattern[star..][n + 1..] == pattern[p..];
    var k :| n <= k <= |value[mark + 1..]| && Matches(pattern[p..], value[mark + 1..][k..]);
    assert value[mark + 1..][k..] == value[v..][mark + 1 + k - v..];
    StarAbsorbs(pattern[p..], value[v..], mark + 1 + k - v);
  }

  /** With the value used up, retrying the latest star cannot help: the stretch
      after it already reached the end. */
  lemma RetryIsHopelessAtEnd(pattern: string, value: string, star: nat, mark: nat, p: nat)
    requires star < p <= |pattern| && mark < |value| && p - star - 1 == |value| - mark
    requires pattern[star] == '*' && '*' !in pattern[star + 1..p]
    ensures !Matches(pattern[star..], value[mark + 1..])
  {
    if Matches(pattern[star..], value[mark + 1..]) {
      var n := p - star - 1;
      assert pattern[star..][1..n + 1] == pattern[star + 1..p];
      StarThenStretch(pattern[star..], n, value[mark + 1..]);
    }
  }

  // ----- the iterative matcher

  /** What the matcher knows between iterations: the shape of its backtrack
      point, and that the answer is decided by the current position or by
      letting the latest star swallow more. */
  ghost predicate OnTrack(pattern: string, value: string, p: nat, v: nat, star: int, mark: nat) {
    && p <= |pattern| && mark <= v <= |value| && -1 <= star < p
    && (star < 0 ==> mark == 0)
    && (star >= 0 ==> pattern[star] == '*' && '*' !in pattern[star + 1..p] && p - star - 1 == v - mark)
    && (Matches(pattern, value) <==> Matches(pattern[p..], value[v..]) || Retry(pattern, value, star, mark))
  }

  ghost predicate Retry(pattern: string, value: string, star: int, mark: nat)
    requires star < |pattern|
  {
    star >= 0 && mark < |value| && Matches(pattern[star..], value[mark + 1..])
  }

  lemma TakeStar(pattern: string, value: string, p: nat, v: nat, star: int, mark: nat)
    requires OnTrack(pattern, value, p, v, star, mark)
    requires v < |value| && p < |pattern| && pattern[p] == '*'
    ensures OnTrack(pattern, value, p + 1, v, p, v)
  {
    if Retry(pattern, value, star, mark) {
      OldStarIsSubsumed(pattern, value, star, mark, p, v);
    }
    assert pattern[p..][1..] == pattern[p + 1..] && value[v..][1..] == value[v + 1..];
  }

  lemma TakeByte(pattern: string, value: string, p: nat, v: nat, star: int, mark: nat)
    requires OnTrack(pattern, value, p, v, star, mark)
    requires v < |value| && p < |pattern| && pattern[p] != '*' && (pattern[p] == '?' || pattern[p] == value[v])
    ensures OnTrack(pattern, value, p + 1, v + 1, star, mark)
  {
    assert pattern[p..][1..] == pattern[p + 1..] && value[v..][1..] == value[v + 1..];
    if star >= 0 {
      assert pattern[star + 1..p + 1] == pattern[star + 1..p] + [pattern[p]];
    }
  }

  lemma DeadEnd(pattern: string, value: string, p: nat, v: nat)
    requires p <= |pattern| && v < |value|
    requires p < |pattern| ==> pattern[p] != '*' && pattern[p] != '?' && pattern[p] != value[v]
    ensures !Matches(pattern[p..], value[v..])
  {
  }

  lemma SwallowOne(pattern: string, value: string, p: nat, v: nat, star: int, mark: nat)
    requires OnTrack(pattern, value, p, v, star, mark) && star >= 0 && v < |value|
    requires p < |pattern| ==> pattern[p] != '*' && pattern[p] != '?' && pattern[p] != value[v]
    ensures OnTrack(pattern, value, star + 1, mark + 1, star, mark + 1)
  {
    DeadEnd(pattern, value, p, v);
    assert pattern[star..][1..] == pattern[star + 1..];
    assert mark + 1 < |value| ==> value[mark + 1..][1..] == value[mark + 2..];
  }

  lemma AtEnd(pattern: string, value: string, p: nat, star: int, mark: nat)
    requires OnTrack(pattern, value, p, |value|, star, mark)
    ensures Matches(pattern, value) <==> Matches(pattern[p..], "")
  {
    if Retry(pattern, value, star, mark) {
      RetryIsHopelessAtEnd(pattern, value, star, mark, p);
    }
    assert value[|value|..] == "";
  }

  /** Iterations paid for by `swallowed` bytes of a value of length n. */
  function Allowance(swallowed: nat, n: nat): nat {
    if swallowed == 0 then 0 else Allowance(swallowed - 1, n) + n + 2
  }

  lemma {:induction false} AllowanceGrows(a: nat, b: nat, n: nat)
    requires a <= b
    ensures Allowance(a, n) + (b - a) <= Allowance(b, n)
  {
    if a < b {
      AllowanceGrows(a, b - 1, n);
    }
  }

  lemma {:induction false} AllowanceIsProduct(a: nat, n: nat)
    ensures Allowance(a, n) == a * (n + 2)
  {
    if a > 0 {
      AllowanceIsProduct(a - 1, n);
    }
  }

  lemma AllowanceWithinLimit(mark: nat, v: nat, n: nat)
    requires mark <= v <= n
    ensures Allowance(mark, n) + (v - mark) <= Allowance(n, n)
  {
    AllowanceGrows(mark, v, n);
    AllowanceGrows(v, n, n);
  }

  /** The iterative matcher. It keeps one backtrack point, the latest star and
      how much of the value it has swallowed, yet decides the full relation.
      `steps` counts the iterations of its main loop. */
  method WildcardMatch(pattern: string, value: string) returns (matched: bool, steps: nat)
    ensures matched <==> Matches(pattern, value)
    ensures steps <= |pattern| + Allowance(|value|, |value|)
  {
    steps := 0;
    var p: nat, v: nat := 0, 0;
    var star: int, mark: nat := -1, 0;
    ghost var n := |value|;
    assert pattern[0..] == pattern && value[0..] == value;
    while v < |value|
      invariant OnTrack(pattern, value, p, v, star, mark) == true  // compared, so that it stays folded
      invariant steps <= star + 1 + Allowance(mark, n) + (v - mark)
      decreases |pattern| - star, |value| - mark, |value| - v
    {
      steps := steps + 1;
      if p < |pattern| && pattern[p] == '*' {
        TakeStar(pattern, value, p, v, star, mark);
        AllowanceGrows(mark, v, n);
        star := p;
        p := p + 1;
        mark := v;
      } else if p < |pattern| && (pattern[p] == '?' || pattern[p] == value[v]) {
        TakeByte(pattern, value, p, v, star, mark);
        p := p + 1;
        v := v + 1;
      } else if star >= 0 {
        SwallowOne(pattern, value, p, v, star, mark);
        p := star + 1;
        mark := mark + 1;
        v := mark;
      } else {
        DeadEnd(pattern, value, p, v);
        AllowanceWithinLimit(mark, v, n);
        return false, steps;
      }
    }
    AtEnd(pattern, value, p, star, mark);
    AllowanceWithinLimit(mark, v, n);
    while p < |pattern| && pattern[p] == '*'
      invariant p <= |pattern|
      invariant Matches(pattern, value) <==> Matches(pattern[p..], "")
    {
      assert pattern[p..][1..] == pattern[p + 1..];
      p := p + 1;
    }
    matched := p == |pattern|;
  }

  // ----- pattern-lists

  /** An element of a pattern-list without its negation mark. */
  function Positive(pattern: string): string {
    if Negated(pattern) then pattern[1..] else pattern
  }

  predicate Negated(pattern: string) {
    pattern != "" && pattern[0] == '!'
  }

  /** A list permits a value when some positive element matches it and no
      negated one does, wherever in the list they stand. */
  ghost predicate Permits(patterns: seq<string>, value: string) {
    && (exists i :: 0 <= i < |patterns| && !Negated(patterns[i]) && Matches(patterns[i], value))
    && (forall i | 0 <= i < |patterns| && Negated(patterns[i]) :: !Matches(Positive(patterns[i]), value))
  }

  method PatternsMatch(patterns: seq<string>, value: string) returns (matched: bool)
    ensures matched <==> Permits(patterns, value)
  {
    matched := false;
    for n := 0 to |patterns|
      invariant matched <==> exists i :: 0 <= i < n && !Negated(patterns[i]) && Matches(patterns[i], value)
      invariant forall i | 0 <= i < n && Negated(patterns[i]) :: !Matches(Positive(patterns[i]), value)
    {
      var negated := Negated(patterns[n]);
      var hit, _ := WildcardMatch(Positive(patterns[n]), value);
      if !hit {
        continue;
      }
      if negated {
        return false;
      }
      matched := true;
    }
  }

  method PatternListMatch(list: string, value: string) returns (matched: bool)
    ensures matched <==> Permits(Split(list, ','), value)
  {
    matched := PatternsMatch(Split(list, ','), value);
  }

  /** What a list permits, with the negation mark written out: some element
      without it matches, and what follows it in another never does. */
  lemma PermitsMeans(patterns: seq<string>, value: string)
    ensures Permits(patterns, value)
            <==> && (exists p :: p in patterns && (p == "" || p[0] != '!') && Matches(p, value))
                 && (forall q | "!" + q in patterns :: !Matches(q, value))
  {
    forall i | 0 <= i < |patterns| && Negated(patterns[i]) ensures "!" + patterns[i][1..] in patterns {
      assert patterns[i] == "!" + patterns[i][1..];
    }
    forall q | "!" + q in patterns
      ensures exists i :: 0 <= i < |patterns| && Negated(patterns[i]) && Positive(patterns[i]) == q
    {
      var i :| 0 <= i < |patterns| && patterns[i] == "!" + q;
      assert ("!" + q)[1..] == q;
    }
  }

  lemma OthersStay(left: seq<string>, e: string, right: seq<string>)
    ensures forall x :: x in left + [e] + right <==> x == e || x in left + right
  {
  }

  /** Adding a negated element excludes what its pattern matches. */
  lemma NegationExcludes(left: seq<string>, p: string, right: seq<string>, value: string)
    ensures Permits(left + ["!" + p] + right, value) <==> Permits(left + right, value) && !Matches(p, value)
  {
    OthersStay(left, "!" + p, right);
    PermitsMeans(left + ["!" + p] + right, value);
    PermitsMeans(left + right, value);
    forall q | "!" + q == "!" + p ensures q == p {
      assert ("!" + q)[1..] == q && ("!" + p)[1..] == p;
    }
  }

  /** A positive element admits what it matches, unless that is excluded. */
  lemma PositiveAdmits(left: seq<string>, p: string, right: seq<string>, value: string)
    requires p == "" || p[0] != '!'
    ensures Permits([p], value) <==> Matches(p, value)
    ensures Permits(left + [p] + right, value)
            <==> Permits(left + right, value)
                 || (Matches(p, value) && forall q | "!" + q in left + right :: !Matches(q, value))
  {
    OthersStay(left, p, right);
    PermitsMeans(left + [p] + right, value);
    PermitsMeans(left + right, value);
    PermitsMeans([p], value);
  }

  /** Empty elements match no non-empty value, so they are inert in a list. */
  lemma EmptyPatternsAreInert(left: seq<string>, right: seq<string>, value: string)
    requires value != ""
    ensures Permits(left + [""] + right, value) <==> Permits(left + right, value)
    ensures Permits(left + ["!"] + right, value) <==> Permits(left + right, value)
  {
    forall e | e == "" || e == "!"
      ensures Permits(left + [e] + right, value) <==> Permits(left + right, value)
    {
      var all, rest := left + [e] + right, left + right;
      forall i | 0 <= i < |rest|
        ensures rest[i] == all[if i < |left| then i else i + 1]
      {
      }
      forall i | 0 <= i < |all| && i != |left|
        ensures all[i] == rest[if i < |left| then i else i - 1]
      {
      }
    }
  }

  /** Order and repetition of elements do not matter: only which elements occur. */
  lemma PermitsIsSetBased(a: seq<string>, b: seq<string>, value: string)
    requires forall e :: e in a <==> e in b
    ensures Permits(a, value) <==> Permits(b, value)
  {
    forall i | 0 <= i < |a| ensures a[i] in b && exists j :: 0 <= j < |b| && b[j] == a[i] {}
    forall i | 0 <= i < |b| ensures b[i] in a && exists j :: 0 <= j < |a| && a[j] == b[i] {}
  }
}
