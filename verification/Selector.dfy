/** Selecting an allowed signers entry, declaratively
    (pkg/allowedsigners/types.go, pkg/allowedsigners/verify.go). */
module Selector {
  import opened Wrappers
  import opened Text
  import opened Keys
  import Glob

  /** No namespaces means no restriction; a parsed restriction is never empty. */
  datatype Options = Options(namespaces: seq<string>, validAfter: Option<Instant>, validBefore: Option<Instant>)

  datatype Entry = Entry(
    source: string, line: nat, principal: string, options: Options,
    keyType: string, keyBase64: string, comment: string, publicKey: PublicKey)

  datatype Mode =
    | Ignored   // namespace restrictions are not applied
    | Checked   // unrestricted entries are accepted
    | Required  // restricted entries go before unrestricted ones

  /** What is asked of the file: the signing key, the principal if any, the
      signature's namespace and the verification time. */
  datatype Query = Query(key: PublicKey, principal: string, namespace: string, at: Instant)

  datatype Reason = NamespaceMismatch | NotYetValid | Expired
  datatype Message = Message(source: string, line: nat, reason: Reason)

  /** The outcome of a search. `Rejected` is the constraint error: the key was
      found but every entry holding it was refused. */
  datatype Match =
    | Found(index: nat, restricted: bool)
    | Rejected(census: Census)
    | NotFound

  // ----- when an entry may be used

  predicate Restricted(e: Entry) {
    e.options.namespaces != []
  }

  ghost predicate Candidate(e: Entry, q: Query) {
    && (q.principal != "" ==> Glob.Permits(Split(e.principal, ','), q.principal))
    && SameKey(e.publicKey, q.key)
  }

  ghost predicate NamespacePermitted(e: Entry, q: Query, mode: Mode) {
    mode != Ignored && Restricted(e) ==> Glob.Permits(e.options.namespaces, q.namespace)
  }

  /** The validity window is inclusive at both ends. */
  predicate InWindow(e: Entry, at: Instant) {
    && (e.options.validAfter.Some? ==> e.options.validAfter.value <= at)
    && (e.options.validBefore.Some? ==> at <= e.options.validBefore.value)
  }

  ghost predicate Usable(e: Entry, q: Query, mode: Mode) {
    Candidate(e, q) && NamespacePermitted(e, q, mode) && InWindow(e, q.at)
  }

  ghost predicate UsableRestricted(e: Entry, q: Query, mode: Mode) {
    Usable(e, q, mode) && Restricted(e)
  }

  // ----- what a failed search reports

  /** Why a candidate was refused: the namespace is judged first, then the
      window's start, then its end. */
  ghost function Refusal(e: Entry, q: Query, mode: Mode): Reason
    requires Candidate(e, q) && !Usable(e, q, mode)
  {
    if !NamespacePermitted(e, q, mode) then NamespaceMismatch
    else if e.options.validAfter.Some? && q.at < e.options.validAfter.value then NotYetValid
    else Expired
  }

  datatype Census = Census(messages: seq<Message>, candidates: nat, namespaceMatches: nat, namespaceMismatches: nat)
  {
    function Plus(more: Census): Census {
      Census(messages + more.messages, candidates + more.candidates,
             namespaceMatches + more.namespaceMatches, namespaceMismatches + more.namespaceMismatches)
    }
  }

  const NOBODY := Census([], 0, 0, 0)

  ghost function CensusOfOne(e: Entry, q: Query, mode: Mode): Census {
    if !Candidate(e, q) then NOBODY else
      Census(
        if Usable(e, q, mode) then [] else [Message(e.source, e.line, Refusal(e, q, mode))],
        1,
        if mode != Ignored && Restricted(e) && NamespacePermitted(e, q, mode) then 1 else 0,
        if NamespacePermitted(e, q, mode) then 0 else 1)
  }

  function Sum(parts: seq<Census>): Census {
    if parts == [] then NOBODY else parts[0].Plus(Sum(parts[1..]))
  }

  ghost function Notes(entries: seq<Entry>, q: Query, mode: Mode): seq<Census> {
    seq(|entries|, i requires 0 <= i < |entries| => CensusOfOne(entries[i], q, mode))
  }

  ghost function CensusOf(entries: seq<Entry>, q: Query, mode: Mode): Census {
    Sum(Notes(entries, q, mode))
  }

  // ----- the declarative selection rule

  ghost predicate FirstUsable(entries: seq<Entry>, q: Query, mode: Mode, i: nat) {
    && i < |entries| && Usable(entries[i], q, mode)
    && forall j | 0 <= j < i :: !Usable(entries[j], q, mode)
  }

  ghost predicate FirstRestricted(entries: seq<Entry>, q: Query, mode: Mode, i: nat) {
    && i < |entries| && UsableRestricted(entries[i], q, mode)
    && forall j | 0 <= j < i :: !UsableRestricted(entries[j], q, mode)
  }

  ghost predicate NoneUsable(entries: seq<Entry>, q: Query, mode: Mode) {
    forall j | 0 <= j < |entries| :: !Usable(entries[j], q, mode)
  }

  ghost predicate NoneRestricted(entries: seq<Entry>, q: Query, mode: Mode) {
    forall j | 0 <= j < |entries| :: !UsableRestricted(entries[j], q, mode)
  }

  ghost predicate NoCandidate(entries: seq<Entry>, q: Query) {
    forall j | 0 <= j < |entries| :: !Candidate(entries[j], q)
  }

  /** Required mode takes the first usable restricted entry, or failing that
      the first usable one; the other modes take the first usable entry. */
  ghost predicate Selects(entries: seq<Entry>, q: Query, mode: Mode, m: Match) {
    match m
    case Found(i, restricted) =>
      if mode == Required && restricted then FirstRestricted(entries, q, mode, i)
      else
        && FirstUsable(entries, q, mode, i)
        && restricted == (mode != Ignored && Restricted(entries[i]))
        && (mode == Required ==> NoneRestricted(entries, q, mode))
    case Rejected(census) =>
      !NoCandidate(entries, q) && NoneUsable(entries, q, mode) && census == CensusOf(entries, q, mode)
    case NotFound => NoCandidate(entries, q)
  }

  /** The rule leaves no choice. */
  lemma SelectionIsUnique(entries: seq<Entry>, q: Query, mode: Mode, m: Match, n: Match)
    requires Selects(entries, q, mode, m) && Selects(entries, q, mode, n)
    ensures m == n
  {
    if m.Found? && n.Found? {
      assert m.restricted ==> UsableRestricted(entries[m.index], q, mode) || mode != Required;
      assert n.restricted ==> UsableRestricted(entries[n.index], q, mode) || mode != Required;
    }
  }

  /** A search succeeds exactly when some entry is usable, and a constraint
      error arises exactly when there is a candidate and none is usable. */
  lemma OutcomeIsExact(entries: seq<Entry>, q: Query, mode: Mode, m: Match)
    requires Selects(entries, q, mode, m)
    ensures m.Found? <==> !NoneUsable(entries, q, mode)
    ensures m.Rejected? <==> !NoCandidate(entries, q) && NoneUsable(entries, q, mode)
  {
    if m.Found? {
      assert Usable(entries[m.index], q, mode);
    }
  }

  /** Checked and required modes succeed together, ignoring namespaces only
      helps, and stricter modes never choose an earlier entry. */
  lemma ModesAgree(entries: seq<Entry>, q: Query, ignored: Match, checked: Match, required: Match)
    requires Selects(entries, q, Ignored, ignored)
    requires Selects(entries, q, Checked, checked)
    requires Selects(entries, q, Required, required)
    ensures checked.Found? <==> required.Found?
    ensures checked.Found? ==> ignored.Found? && ignored.index <= checked.index <= required.index
    ensures checked.Found? && required.index != checked.index ==> required.restricted && !checked.restricted
  {
    OutcomeIsExact(entries, q, Ignored, ignored);
    OutcomeIsExact(entries, q, Checked, checked);
    OutcomeIsExact(entries, q, Required, required);
    forall i | 0 <= i < |entries|
      ensures Usable(entries[i], q, Checked) <==> Usable(entries[i], q, Required)
      ensures Usable(entries[i], q, Checked) ==> Usable(entries[i], q, Ignored)
    {
    }
    if checked.Found? {
      assert Usable(entries[checked.index], q, Checked);
      assert Usable(entries[required.index], q, Required);
    }
  }

  // ----- diagnostics

  lemma PlusIsAssociative(a: Census, b: Census, c: Census)
    ensures a.Plus(b).Plus(c) == a.Plus(b.Plus(c))
    ensures NOBODY.Plus(a) == a.Plus(NOBODY) == a
  {
    assert a.messages + b.messages + c.messages == a.messages + (b.messages + c.messages);
  }

  lemma {:induction false} SumConcat(a: seq<Census>, b: seq<Census>)
    ensures Sum(a + b) == Sum(a).Plus(Sum(b))
  {
    if a == [] {
      assert a + b == b;
      PlusIsAssociative(Sum(b), NOBODY, NOBODY);
    } else {
      assert (a + b)[1..] == a[1..] + b;
      SumConcat(a[1..], b);
      PlusIsAssociative(a[0], Sum(a[1..]), Sum(b));
    }
  }

  lemma CensusConcat(a: seq<Entry>, b: seq<Entry>, q: Query, mode: Mode)
    ensures CensusOf(a + b, q, mode) == CensusOf(a, q, mode).Plus(CensusOf(b, q, mode))
  {
    assert Notes(a + b, q, mode) == Notes(a, q, mode) + Notes(b, q, mode);
    SumConcat(Notes(a, q, mode), Notes(b, q, mode));
  }

  predicate Consistent(c: Census) {
    c.namespaceMatches + c.namespaceMismatches <= c.candidates
  }

  lemma {:induction false} SumCounts(parts: seq<Census>)
    requires forall c | c in parts :: Consistent(c)
    ensures Consistent(Sum(parts))
    ensures Sum(parts).candidates > 0 <==> exists c :: c in parts && c.candidates > 0
    ensures Sum(parts).namespaceMatches > 0 <==> exists c :: c in parts && c.namespaceMatches > 0
    ensures Sum(parts).namespaceMismatches == Sum(parts).candidates <==>
            forall c | c in parts :: c.namespaceMismatches == c.candidates
    ensures (forall c | c in parts :: |c.messages| == c.candidates) ==> |Sum(parts).messages| == Sum(parts).candidates
  {
    if parts != [] {
      assert forall c :: c in parts <==> c == parts[0] || c in parts[1..];
      assert Consistent(parts[0]);
      SumCounts(parts[1..]);
    }
  }

  ghost predicate PermittedByRestriction(e: Entry, q: Query, mode: Mode) {
    Candidate(e, q) && mode != Ignored && Restricted(e) && NamespacePermitted(e, q, mode)
  }

  /** What a failed search says about the namespace, if anything. */
  function NamespaceConstraintResult(m: Match): (bool, bool) {
    if !m.Rejected? then (false, false)
    else if m.census.namespaceMatches > 0 then (true, true)
    else if m.census.candidates > 0 && m.census.namespaceMismatches == m.census.candidates then (true, false)
    else (false, false)
  }

  /** With nobody usable, the messages are one per candidate. */
  lemma EveryCandidateComplains(entries: seq<Entry>, q: Query, mode: Mode)
    requires NoneUsable(entries, q, mode)
    ensures |CensusOf(entries, q, mode).messages| == CensusOf(entries, q, mode).candidates
    ensures CensusOf(entries, q, mode).candidates == 0 <==> NoCandidate(entries, q)
  {
    var notes := Notes(entries, q, mode);
    forall c | c in notes
      ensures Consistent(c) && |c.messages| == c.candidates
    {
      var i :| 0 <= i < |notes| && notes[i] == c;
      assert !Usable(entries[i], q, mode);
    }
    SumCounts(notes);
    forall i | 0 <= i < |entries|
      ensures notes[i] in notes && (notes[i].candidates > 0 <==> Candidate(entries[i], q))
    {
    }
  }

  /** After a constraint error, "matched" means some candidate's restriction
      permitted the namespace, and "mismatched" that every candidate was
      refused by its own; there is one message per candidate. */
  lemma NamespaceVerdictIsExact(entries: seq<Entry>, q: Query, mode: Mode, m: Match)
    requires Selects(entries, q, mode, m) && m.Rejected?
    ensures NamespaceConstraintResult(m) == (true, true) <==>
            exists i :: 0 <= i < |entries| && PermittedByRestriction(entries[i], q, mode)
    ensures NamespaceConstraintResult(m) == (true, false) <==>
            forall i | 0 <= i < |entries| && Candidate(entries[i], q) ::
              mode != Ignored && Restricted(entries[i]) && !Glob.Permits(entries[i].options.namespaces, q.namespace)
    ensures |m.census.messages| == m.census.candidates > 0
  {
    var notes := Notes(entries, q, mode);
    forall c | c in notes
      ensures Consistent(c) && |c.messages| == c.candidates
    {
      var i :| 0 <= i < |notes| && notes[i] == c;
      assert !Usable(entries[i], q, mode);
    }
    SumCounts(notes);
    forall i | 0 <= i < |entries|
      ensures notes[i] in notes
      ensures notes[i].candidates > 0 <==> Candidate(entries[i], q)
      ensures notes[i].namespaceMatches > 0 <==> PermittedByRestriction(entries[i], q, mode)
      ensures notes[i].namespaceMismatches == notes[i].candidates <==>
              (Candidate(entries[i], q) ==> !NamespacePermitted(entries[i], q, mode))
    {
    }
    forall c | c in notes
      ensures exists i :: 0 <= i < |entries| && notes[i] == c
    {
    }
  }

  // ----- searching a concatenation

  /** The outcome over two files read as one, from the outcomes over each. */
  function Combine(first: Match, second: Match, shift: nat, mode: Mode): Match {
    if second.Found? && (!first.Found? || (mode == Required && !first.restricted && second.restricted)) then
      Found(shift + second.index, second.restricted)
    else if first.Found? || second.NotFound? then first
    else if first.NotFound? then second
    else Rejected(first.census.Plus(second.census))
  }

  lemma {:induction false} SumOfNobodies(parts: seq<Census>)
    requires forall i | 0 <= i < |parts| :: parts[i] == NOBODY
    ensures Sum(parts) == NOBODY
  {
    if parts != [] {
      SumOfNobodies(parts[1..]);
      PlusIsAssociative(NOBODY, NOBODY, NOBODY);
    }
  }

  lemma NoCandidateNoCensus(entries: seq<Entry>, q: Query, mode: Mode)
    requires NoCandidate(entries, q)
    ensures CensusOf(entries, q, mode) == NOBODY
  {
    SumOfNobodies(Notes(entries, q, mode));
  }

  lemma AppendUsable(a: seq<Entry>, b: seq<Entry>, q: Query, mode: Mode)
    ensures NoneUsable(a + b, q, mode) <==> NoneUsable(a, q, mode) && NoneUsable(b, q, mode)
    ensures forall i: nat | FirstUsable(a, q, mode, i) :: FirstUsable(a + b, q, mode, i)
    ensures NoneUsable(a, q, mode) ==>
              forall i: nat | FirstUsable(b, q, mode, i) :: FirstUsable(a + b, q, mode, |a| + i)
  {
    forall i | 0 <= i < |b| ensures (a + b)[|a| + i] == b[i] {}
    forall i | 0 <= i < |a| ensures (a + b)[i] == a[i] {}
  }

  lemma AppendRestricted(a: seq<Entry>, b: seq<Entry>, q: Query, mode: Mode)
    ensures NoneRestricted(a + b, q, mode) <==> NoneRestricted(a, q, mode) && NoneRestricted(b, q, mode)
    ensures forall i: nat | FirstRestricted(a, q, mode, i) :: FirstRestricted(a + b, q, mode, i)
    ensures NoneRestricted(a, q, mode) ==>
              forall i: nat | FirstRestricted(b, q, mode, i) :: FirstRestricted(a + b, q, mode, |a| + i)
  {
    forall i | 0 <= i < |b| ensures (a + b)[|a| + i] == b[i] {}
    forall i | 0 <= i < |a| ensures (a + b)[i] == a[i] {}
  }

  lemma AppendCandidate(a: seq<Entry>, b: seq<Entry>, q: Query)
    ensures NoCandidate(a + b, q) <==> NoCandidate(a, q) && NoCandidate(b, q)
  {
    forall i | 0 <= i < |b| ensures (a + b)[|a| + i] == b[i] {}
    forall i | 0 <= i < |a| ensures (a + b)[i] == a[i] {}
  }

  lemma NoneUsableNoneRestricted(entries: seq<Entry>, q: Query, mode: Mode)
    requires NoneUsable(entries, q, mode)
    ensures NoneRestricted(entries, q, mode)
  {
  }

  lemma AppendFails(a: seq<Entry>, b: seq<Entry>, q: Query, mode: Mode, ma: Match, mb: Match)
    requires Selects(a, q, mode, ma) && Selects(b, q, mode, mb) && !ma.Found? && !mb.Found?
    ensures Selects(a + b, q, mode, Combine(ma, mb, |a|, mode))
  {
    OutcomeIsExact(a, q, mode, ma);
    OutcomeIsExact(b, q, mode, mb);
    AppendUsable(a, b, q, mode);
    AppendCandidate(a, b, q);
    CensusConcat(a, b, q, mode);
    if ma.NotFound? {
      NoCandidateNoCensus(a, q, mode);
      PlusIsAssociative(CensusOf(b, q, mode), NOBODY, NOBODY);
    }
    if mb.NotFound? {
      NoCandidateNoCensus(b, q, mode);
      PlusIsAssociative(CensusOf(a, q, mode), NOBODY, NOBODY);
    }
  }

  /** What decides a successful search, without looking into entries. */
  lemma FoundMeans(entries: seq<Entry>, q: Query, mode: Mode, m: Match)
    requires Selects(entries, q, mode, m)
    ensures m.Found? && mode == Required && m.restricted ==> FirstRestricted(entries, q, mode, m.index)
    ensures m.Found? && (mode != Required || !m.restricted) ==> FirstUsable(entries, q, mode, m.index)
    ensures m.Found? && mode == Required && !m.restricted ==> NoneRestricted(entries, q, mode)
    ensures !m.Found? ==> NoneUsable(entries, q, mode) && NoneRestricted(entries, q, mode)
    ensures m.Found? ==> m.index < |entries| && m.restricted == (mode != Ignored && Restricted(entries[m.index]))
  {
    OutcomeIsExact(entries, q, mode, m);
    if !m.Found? {
      NoneUsableNoneRestricted(entries, q, mode);
    }
  }

  lemma AppendFinds(a: seq<Entry>, b: seq<Entry>, q: Query, mode: Mode, ma: Match, mb: Match)
    requires Selects(a, q, mode, ma) && Selects(b, q, mode, mb) && (ma.Found? || mb.Found?)
    ensures Selects(a + b, q, mode, Combine(ma, mb, |a|, mode))
  {
    FoundMeans(a, q, mode, ma);
    FoundMeans(b, q, mode, mb);
    AppendUsable(a, b, q, mode);
    AppendRestricted(a, b, q, mode);
    var m := Combine(ma, mb, |a|, mode);
    if mode == Required && m.restricted {
      assert FirstRestricted(a + b, q, mode, m.index);
    } else {
      assert FirstUsable(a + b, q, mode, m.index);
      assert (a + b)[m.index] == if m.index < |a| then a[m.index] else b[m.index - |a|];
      assert mode == Required ==> NoneRestricted(a + b, q, mode);
    }
  }

  /** Searching two files read as one is combining the searches of each: in
      required mode a restricted entry of the second file displaces an
      unrestricted one of the first. */
  lemma SelectsOverAppend(a: seq<Entry>, b: seq<Entry>, q: Query, mode: Mode, ma: Match, mb: Match)
    requires Selects(a, q, mode, ma) && Selects(b, q, mode, mb)
    ensures Selects(a + b, q, mode, Combine(ma, mb, |a|, mode))
  {
    if ma.Found? || mb.Found? {
      AppendFinds(a, b, q, mode, ma, mb);
    } else {
      AppendFails(a, b, q, mode, ma, mb);
    }
  }
}
