/** Command-line options (internal/args/args.go). */
module Args {
  import opened Wrappers
  import opened Text

  datatype Kind = Str | Bool | Count

  /** How a flag is spelled; fixed once it is registered. */
  datatype Spec = Spec(long: string, short: string, kind: Kind)

  /** A flag and the target it writes, of which its kind selects one field. */
  datatype Flag = Flag(spec: Spec, str: string, boolean: bool, count: nat, changed: bool)

  predicate Starts(s: string, prefix: string) {
    |prefix| <= |s| && s[..|prefix|] == prefix
  }

  /** What add accepts: a long name without a leading dash or an equals sign,
      and a short name of one character, if any. */
  predicate WellFormed(spec: Spec) {
    && spec.long != "" && spec.long[0] != '-' && '=' !in spec.long
    && (spec.short != "" ==> |spec.short| == 1 && spec.short != "-")
  }

  predicate Clash(a: Spec, b: Spec) {
    a.long == b.long || (a.short != "" && a.short == b.short)
  }

  predicate Registered(specs: seq<Spec>) {
    && (forall i | 0 <= i < |specs| :: WellFormed(specs[i]))
    && (forall i, j | 0 <= i < j < |specs| :: !Clash(specs[j], specs[i]))
  }

  function SpecsOf(flags: seq<Flag>): (specs: seq<Spec>)
    ensures |specs| == |flags|
  {
    seq(|flags|, i requires 0 <= i < |flags| => flags[i].spec)
  }

  // ----- what an argument list says, before it changes anything

  /** One use of a flag; the value matters to string flags only. */
  datatype Use = Use(flag: nat, value: string)

  datatype Error = BadSyntax | UnknownFlag | TakesNoValue | NeedsValue

  /** The uses in an argument list in order, and the arguments left over, or
      the error that ended the list after some uses. */
  datatype Scan = Scanned(uses: seq<Use>, rest: seq<string>) | Broken(uses: seq<Use>, error: Error)

  /** The same for one argument, which may take the next one with it. */
  datatype Piece = Piece(uses: seq<Use>, consumed: nat) | Wrong(uses: seq<Use>, error: Error)

  /** The flag of that long name, or the number of flags. */
  function Lookup(specs: seq<Spec>, name: string): (i: nat)
    ensures i <= |specs| && (i < |specs| ==> specs[i].long == name)
  {
    if specs == [] then 0 else if specs[0].long == name then 0 else 1 + Lookup(specs[1..], name)
  }

  function LookupShort(specs: seq<Spec>, short: string): (i: nat)
    ensures i <= |specs| && (i < |specs| ==> specs[i].short == short)
  {
    if specs == [] then 0 else if specs[0].short == short then 0 else 1 + LookupShort(specs[1..], short)
  }

  function ScanLong(specs: seq<Spec>, arg: string, next: seq<string>): (p: Piece)
    requires Starts(arg, "--")
    ensures p.Piece? ==> p.consumed <= |next|
  {
    var body := arg[2..];
    var n := Find(body, '=');
    var name := body[..n];
    if name == "" || name[0] == '-' then Wrong([], BadSyntax)
    else
      var i := Lookup(specs, name);
      if i == |specs| then Wrong([], UnknownFlag)
      else if specs[i].kind != Str then
        if n < |body| then Wrong([], TakesNoValue) else Piece([Use(i, "")], 0)
      else if n < |body| then Piece([Use(i, body[n + 1..])], 0)
      else if next == [] then Wrong([], NeedsValue)
      else Piece([Use(i, next[0])], 1)
  }

  /** A cluster of short flags, ended by a string flag and its value if any. */
  function ScanShorts(specs: seq<Spec>, shorts: string, next: seq<string>): (p: Piece)
    ensures p.Piece? ==> p.consumed <= |next|
  {
    if shorts == "" then Piece([], 0)
    else
      var i := LookupShort(specs, shorts[..1]);
      if i == |specs| then Wrong([], UnknownFlag)
      else if specs[i].kind != Str then AfterUse(Use(i, ""), ScanShorts(specs, shorts[1..], next))
      else if |shorts| > 1 then Piece([Use(i, shorts[1..])], 0)
      else if next == [] then Wrong([], NeedsValue)
      else Piece([Use(i, next[0])], 1)
  }

  function AfterUse(use: Use, p: Piece): Piece {
    match p
    case Piece(uses, consumed) => Piece([use] + uses, consumed)
    case Wrong(uses, error) => Wrong([use] + uses, error)
  }

  predicate IsPositional(arg: string) {
    arg == "-" || !Starts(arg, "-")
  }

  function ScanOne(specs: seq<Spec>, arg: string, next: seq<string>): (p: Piece)
    requires !IsPositional(arg)
    ensures p.Piece? ==> p.consumed <= |next|
  {
    if Starts(arg, "--") then ScanLong(specs, arg, next) else ScanShorts(specs, arg[1..], next)
  }

  function ScanArgs(specs: seq<Spec>, argv: seq<string>): Scan
    decreases |argv|
  {
    if argv == [] then Scanned([], [])
    else if argv[0] == "--" then Scanned([], argv[1..])
    else if IsPositional(argv[0]) then Scanned([], argv)
    else
      match ScanOne(specs, argv[0], argv[1..])
      case Wrong(uses, error) => Broken(uses, error)
      case Piece(uses, consumed) => Then(uses, ScanArgs(specs, argv[1 + consumed..]))
  }

  function Then(uses: seq<Use>, s: Scan): Scan {
    match s
    case Scanned(more, rest) => Scanned(uses + more, rest)
    case Broken(more, error) => Broken(uses + more, error)
  }

  // ----- what uses do to flags

  function Given(f: Flag, value: string): Flag {
    match f.spec.kind
    case Str => f.(str := value, changed := true)
    case Bool => f.(boolean := true, changed := true)
    case Count => f.(count := f.count + 1, changed := true)
  }

  function Apply(flags: seq<Flag>, uses: seq<Use>): (after: seq<Flag>)
    ensures |after| == |flags|
    decreases |uses|
  {
    if uses == [] then flags
    else
      var u := uses[0];
      Apply(if u.flag < |flags| then flags[u.flag := Given(flags[u.flag], u.value)] else flags, uses[1..])
  }

  /** The values given to one flag, in order. */
  function ValuesFor(uses: seq<Use>, i: nat): seq<string> {
    if uses == [] then []
    else (if uses[0].flag == i then [uses[0].value] else []) + ValuesFor(uses[1..], i)
  }

  /** A string flag holds the last value it was given, a boolean whether it was
      given, a count how often, and a flag counts as changed if given at all;
      every other field keeps its value. */
  lemma {:induction false} ApplyMeans(flags: seq<Flag>, uses: seq<Use>, i: nat)
    requires i < |flags|
    ensures var before, after, values := flags[i], Apply(flags, uses)[i], ValuesFor(uses, i);
            && after.spec == before.spec
            && after.changed == (before.changed || values != [])
            && after.str == (if before.spec.kind == Str && values != [] then values[|values| - 1] else before.str)
            && after.boolean == (before.boolean || (before.spec.kind == Bool && values != []))
            && after.count == before.count + if before.spec.kind == Count then |values| else 0
    decreases |uses|
  {
    if uses != [] {
      var u := uses[0];
      var flags' := if u.flag < |flags| then flags[u.flag := Given(flags[u.flag], u.value)] else flags;
      ApplyMeans(flags', uses[1..], i);
    }
  }

  lemma {:induction false} ApplyConcat(flags: seq<Flag>, a: seq<Use>, b: seq<Use>)
    ensures Apply(flags, a + b) == Apply(Apply(flags, a), b)
    decreases |a|
  {
    if a == [] {
      assert a + b == b;
    } else {
      assert (a + b)[0] == a[0] && (a + b)[1..] == a[1..] + b;
      var u := a[0];
      ApplyConcat(if u.flag < |flags| then flags[u.flag := Given(flags[u.flag], u.value)] else flags, a[1..], b);
    }
  }

  lemma {:induction false} LookupFinds(specs: seq<Spec>, i: nat)
    requires i < |specs| && forall j, k | 0 <= j < k < |specs| :: specs[k].long != specs[j].long
    ensures Lookup(specs, specs[i].long) == i
  {
    if i > 0 {
      LookupFinds(specs[1..], i - 1);
      assert specs[1..][i - 1] == specs[i];
    }
  }

  // ----- constraints on the flags given

  predicate Known(flags: seq<Flag>, name: string) {
    Lookup(SpecsOf(flags), name) < |flags|
  }

  function FlagNamed(flags: seq<Flag>, name: string): Flag
    requires Known(flags, name)
  {
    flags[Lookup(SpecsOf(flags), name)]
  }

  predicate AllKnown(flags: seq<Flag>, names: seq<string>) {
    forall i | 0 <= i < |names| :: Known(flags, names[i])
  }

  /** The flag of a registered name. */
  lemma NamedFlag(flags: seq<Flag>, i: nat)
    requires Registered(SpecsOf(flags)) && i < |flags|
    ensures Known(flags, flags[i].spec.long) && FlagNamed(flags, flags[i].spec.long) == flags[i]
  {
    var specs := SpecsOf(flags);
    forall j, k | 0 <= j < k < |specs| ensures specs[k].long != specs[j].long {
      assert !Clash(specs[k], specs[j]);
    }
    LookupFinds(specs, i);
  }

  datatype Refusal = Missing(names: seq<string>) | Exclusive(first: string, second: string) | Empty(names: seq<string>)

  function Unchanged(flags: seq<Flag>, names: seq<string>): seq<string>
    requires AllKnown(flags, names)
  {
    if names == [] then []
    else
      Unchanged(flags, names[..|names| - 1])
      + if FlagNamed(flags, names[|names| - 1]).changed then [] else [names[|names| - 1]]
  }

  predicate GivenEmpty(flags: seq<Flag>, name: string)
    requires Known(flags, name)
  {
    FlagNamed(flags, name).changed && FlagNamed(flags, name).str == ""
  }

  function EmptyOnes(flags: seq<Flag>, names: seq<string>): seq<string>
    requires AllKnown(flags, names)
  {
    if names == [] then []
    else
      EmptyOnes(flags, names[..|names| - 1])
      + if GivenEmpty(flags, names[|names| - 1]) then [names[|names| - 1]] else []
  }

  /** Which names are listed: those asked for whose flag was not given, or was
      given an empty value, in the order and as often as they are asked for. */
  lemma {:induction false} ListedNames(flags: seq<Flag>, names: seq<string>, name: string)
    requires Registered(SpecsOf(flags)) && AllKnown(flags, names)
    ensures name in Unchanged(flags, names)
            <==> name in names && exists i :: 0 <= i < |flags| && flags[i].spec.long == name && !flags[i].changed
    ensures name in EmptyOnes(flags, names)
            <==> && name in names
                 && exists i :: 0 <= i < |flags| && flags[i].spec.long == name && flags[i].changed && flags[i].str == ""
    ensures Unchanged(flags, []) == [] == EmptyOnes(flags, [])
  {
    if names != [] {
      var init, last := names[..|names| - 1], names[|names| - 1];
      ListedNames(flags, init, name);
      assert names == init + [last];
      LastNamed(flags, last);
    }
  }

  lemma LastNamed(flags: seq<Flag>, name: string)
    requires Registered(SpecsOf(flags)) && Known(flags, name)
    ensures forall i | 0 <= i < |flags| && flags[i].spec.long == name :: flags[i] == FlagNamed(flags, name)
    ensures FlagNamed(flags, name) in flags && FlagNamed(flags, name).spec.long == name
  {
    forall i | 0 <= i < |flags| && flags[i].spec.long == name ensures flags[i] == FlagNamed(flags, name) {
      NamedFlag(flags, i);
    }
  }

  lemma {:induction false} MissingInOrder(flags: seq<Flag>, a: seq<string>, b: seq<string>)
    requires AllKnown(flags, a) && AllKnown(flags, b)
    ensures AllKnown(flags, a + b) && Unchanged(flags, a + b) == Unchanged(flags, a) + Unchanged(flags, b)
  {
    if b == [] {
      assert a + b == a;
    } else {
      MissingInOrder(flags, a, b[..|b| - 1]);
      assert (a + b)[..|a + b| - 1] == a + b[..|b| - 1];
    }
  }

  lemma {:induction false} EmptyInOrder(flags: seq<Flag>, a: seq<string>, b: seq<string>)
    requires AllKnown(flags, a) && AllKnown(flags, b)
    ensures AllKnown(flags, a + b) && EmptyOnes(flags, a + b) == EmptyOnes(flags, a) + EmptyOnes(flags, b)
  {
    if b == [] {
      assert a + b == a;
    } else {
      EmptyInOrder(flags, a, b[..|b| - 1]);
      assert (a + b)[..|a + b| - 1] == a + b[..|b| - 1];
    }
  }

  /** Two members of a group were both given. */
  ghost predicate Conflict(flags: seq<Flag>, group: seq<string>, i: int, j: int)
    requires AllKnown(flags, group)
  {
    0 <= i < j < |group| && FlagNamed(flags, group[i]).changed && FlagNamed(flags, group[j]).changed
  }

  ghost predicate AtMostOneGiven(flags: seq<Flag>, group: seq<string>)
    requires AllKnown(flags, group)
  {
    forall i, j :: !Conflict(flags, group, i, j)
  }

  /** The refusal names the first two members of the group that were given. */
  ghost predicate Blames(flags: seq<Flag>, group: seq<string>, r: Refusal)
    requires AllKnown(flags, group)
  {
    exists i, j ::
      Conflict(flags, group, i, j) && r == Exclusive(group[i], group[j])
      && forall k | 0 <= k < j && k != i :: !FlagNamed(flags, group[k]).changed
  }

  // ----- the option set

  const HELP := Spec("help", "h", Bool)

  datatype Outcome =
    | Fine | Help | Usage | Syntax(error: Error) | Positional | MissingCommand | InvalidCommand
    | Refused(refusal: Refusal)

  class Set {
    var flags: seq<Flag>
    var required: seq<string>
    var denyEmpty: seq<string>
    var exclusive: seq<seq<string>>
    var commands: seq<string>

    ghost predicate Valid()
      reads this
    {
      && Registered(SpecsOf(flags)) && flags != [] && flags[0].spec == HELP
      && AllKnown(flags, required) && AllKnown(flags, denyEmpty)
      && forall g | 0 <= g < |exclusive| :: AllKnown(flags, exclusive[g])
    }

    /** What Validate requires of the flags given. */
    ghost predicate Satisfied()
      requires Valid()
      reads this
    {
      && Unchanged(flags, required) == []
      && (forall g | 0 <= g < |exclusive| :: AtMostOneGiven(flags, exclusive[g]))
      && EmptyOnes(flags, denyEmpty) == []
    }

    /** The first group of which more than one member was given. */
    ghost predicate FirstConflict(g: nat, r: Refusal)
      requires Valid()
      reads this
    {
      && g < |exclusive| && Blames(flags, exclusive[g], r)
      && forall h | 0 <= h < g :: AtMostOneGiven(flags, exclusive[h])
    }

    /** The refusal that flags which are not satisfied get: all missing flags
        before any conflict, the first conflict before any empty value, and
        otherwise all empty values. */
    ghost predicate Refuses(r: Refusal)
      requires Valid()
      reads this
    {
      match r
      case Missing(names) => names == Unchanged(flags, required) != []
      case Exclusive(_, _) => Unchanged(flags, required) == [] && exists g: nat :: FirstConflict(g, r)
      case Empty(names) =>
        && Unchanged(flags, required) == []
        && (forall g | 0 <= g < |exclusive| :: AtMostOneGiven(flags, exclusive[g]))
        && names == EmptyOnes(flags, denyEmpty) != []
    }

    constructor ()
      ensures Valid() && flags == [Flag(HELP, "", false, 0, false)]
      ensures required == [] && denyEmpty == [] && exclusive == [] && commands == []
    {
      flags := [Flag(HELP, "", false, 0, false)];
      required, denyEmpty, exclusive, commands := [], [], [], [];
    }

    /** Registers a flag; a clash with a registered one is a programming error. */
    method Add(spec: Spec, def: string)
      requires Valid() && WellFormed(spec)
      requires forall i | 0 <= i < |flags| :: !Clash(flags[i].spec, spec)
      modifies this`flags
      ensures Valid() && flags == old(flags) + [Flag(spec, def, false, 0, false)]
    {
      ghost var was := SpecsOf(flags);
      flags := flags + [Flag(spec, def, false, 0, false)];
      assert SpecsOf(flags) == was + [spec];
      KnownGrows(old(flags), Flag(spec, def, false, 0, false));
      ClashIsSymmetric(was, spec);
    }

    method Required(name: string)
      requires Valid() && Known(flags, name)
      modifies this`required
      ensures Valid() && required == old(required) + [name]
    {
      required := required + [name];
    }

    method DenyEmpty(name: string)
      requires Valid() && Known(flags, name) && FlagNamed(flags, name).spec.kind == Str
      modifies this`denyEmpty
      ensures Valid() && denyEmpty == old(denyEmpty) + [name]
    {
      denyEmpty := denyEmpty + [name];
    }

    method MutuallyExclusive(names: seq<string>)
      requires Valid() && |names| >= 2 && AllKnown(flags, names)
      modifies this`exclusive
      ensures Valid() && exclusive == old(exclusive) + [names]
    {
      exclusive := exclusive + [names];
    }

    method SetFlag(i: nat, value: string)
      requires i < |flags|
      modifies this`flags
      ensures flags == Apply(old(flags), [Use(i, value)]) && SpecsOf(flags) == SpecsOf(old(flags))
    {
      flags := flags[i := Given(flags[i], value)];
      OneUse(old(flags), i, value);
    }

    method ParseLong(arg: string, next: seq<string>) returns (consumed: nat, error: Option<Error>)
      requires Starts(arg, "--")
      modifies this`flags
      ensures SpecsOf(flags) == SpecsOf(old(flags))
      ensures flags == Apply(old(flags), ScanLong(SpecsOf(old(flags)), arg, next).uses)
      ensures match ScanLong(SpecsOf(old(flags)), arg, next)
              case Piece(_, n) => error == None && consumed == n
              case Wrong(_, e) => error == Some(e)
    {
      var body := arg[2..];
      var n := Find(body, '=');
      var name := body[..n];
      if name == "" || name[0] == '-' {
        return 0, Some(BadSyntax);
      }
      var i := Lookup(SpecsOf(flags), name);
      if i == |flags| {
        return 0, Some(UnknownFlag);
      }
      if flags[i].spec.kind != Str {
        if n < |body| {
          return 0, Some(TakesNoValue);
        }
        SetFlag(i, "");
        return 0, None;
      }
      if n < |body| {
        SetFlag(i, body[n + 1..]);
        return 0, None;
      }
      if next == [] {
        return 0, Some(NeedsValue);
      }
      SetFlag(i, next[0]);
      return 1, None;
    }

    method ParseShort(arg: string, next: seq<string>) returns (consumed: nat, error: Option<Error>)
      requires arg != ""
      modifies this`flags
      ensures SpecsOf(flags) == SpecsOf(old(flags))
      ensures flags == Apply(old(flags), ScanShorts(SpecsOf(old(flags)), arg[1..], next).uses)
      ensures match ScanShorts(SpecsOf(old(flags)), arg[1..], next)
              case Piece(_, n) => error == None && consumed == n
              case Wrong(_, e) => error == Some(e)
    {
      var shorts := arg[1..];
      ghost var specs := SpecsOf(flags);
      ghost var done: seq<Use> := [];
      ghost var whole := ScanShorts(specs, shorts, next);
      assert shorts[0..] == shorts;
      AfterNothing(whole);
      for j := 0 to |shorts|
        invariant SpecsOf(flags) == specs && flags == Apply(old(flags), done)
        invariant whole == AfterUses(done, ScanShorts(specs, shorts[j..], next))
      {
        ghost var left := shorts[j..];
        assert left[..1] == [shorts[j]] && left[1..] == shorts[j + 1..];
        var i := LookupShort(SpecsOf(flags), [shorts[j]]);
        if i == |flags| {
          assert done + [] == done;
          return 0, Some(UnknownFlag);
        }
        assert flags[i].spec == specs[i];
        if flags[i].spec.kind != Str {
          SetFlag(i, "");
          AfterOneMore(done, Use(i, ""), ScanShorts(specs, shorts[j + 1..], next));
          ApplyConcat(old(flags), done, [Use(i, "")]);
          done := done + [Use(i, "")];
          continue;
        }
        if j + 1 < |shorts| {
          SetFlag(i, shorts[j + 1..]);
          ApplyConcat(old(flags), done, [Use(i, shorts[j + 1..])]);
          return 0, None;
        }
        if next == [] {
          assert done + [] == done;
          return 0, Some(NeedsValue);
        }
        SetFlag(i, next[0]);
        ApplyConcat(old(flags), done, [Use(i, next[0])]);
        return 1, None;
      }
      assert done + [] == done;
      return 0, None;
    }

    /** One round of the argument loop, after the uses in `done`. */
    method ParseOne(argv: seq<string>, i: nat, ghost before: seq<Flag>, ghost whole: Scan, ghost done: seq<Use>)
      returns (consumed: nat, error: Option<Error>, ghost uses: seq<Use>)
      requires Underway(before, flags, whole, argv, done, i) == true
      requires i < |argv| && argv[i] != "--" && !IsPositional(argv[i])
      modifies this`flags
      ensures error.Some? ==> Reached(before, flags, done + uses) && whole == Broken(done + uses, error.value)
      ensures error.None? ==> Underway(before, flags, whole, argv, done + uses, i + 1 + consumed) == true
    {
      var arg, next := argv[i], argv[i + 1..];
      ghost var was, specs := flags, SpecsOf(flags);
      uses := ScanOne(specs, arg, next).uses;
      if Starts(arg, "--") {
        consumed, error := ParseLong(arg, next);
      } else {
        consumed, error := ParseShort(arg, next);
      }
      ReachedMore(before, was, flags, done, uses);
      if error.Some? {
        BrokenArg(specs, argv, i, done, error.value);
      } else {
        PieceArg(specs, argv, i, done, consumed);
      }
    }

    /** Sets flags up to the first positional argument; after an error the
        flags before it stay set. */
    method ParseFlags(argv: seq<string>) returns (rest: seq<string>, error: Option<Error>)
      modifies this`flags
      ensures SpecsOf(flags) == SpecsOf(old(flags))
      ensures flags == Apply(old(flags), ScanArgs(SpecsOf(old(flags)), argv).uses)
      ensures match ScanArgs(SpecsOf(old(flags)), argv)
              case Scanned(_, left) => error == None && rest == left
              case Broken(_, e) => error == Some(e)
    {
      hide ScanOne;
      ghost var before := flags;
      ghost var done: seq<Use> := [];
      ghost var whole := ScanArgs(SpecsOf(flags), argv);
      NothingDone(flags, argv);
      var i := 0;
      while i < |argv|
        invariant Underway(before, flags, whole, argv, done, i) == true
        decreases |argv| - i
      {
        if argv[i] == "--" {
          LastArg(before, flags, whole, argv, i, done);
          return argv[i + 1..], None;
        }
        if IsPositional(argv[i]) {
          LastArg(before, flags, whole, argv, i, done);
          return argv[i..], None;
        }
        var consumed, failed;
        ghost var uses;
        consumed, failed, uses := ParseOne(argv, i, before, whole, done);
        if failed.Some? {
          return [], failed;
        }
        done := done + uses;
        i := i + 1 + consumed;
      }
      AllDone(before, flags, whole, argv, done, i);
      return [], None;
    }

    /** Reports the one refusal that applies, if any. */
    method Validate() returns (r: Option<Refusal>)
      requires Valid()
      ensures r.None? <==> Satisfied()
      ensures r.Some? ==> Refuses(r.value)
    {
      var missing := MissingFlags();
      if missing != [] {
        return Some(Missing(missing));
      }
      for g := 0 to |exclusive|
        invariant forall h | 0 <= h < g :: AtMostOneGiven(flags, exclusive[h])
      {
        r := CheckGroup(exclusive[g]);
        if r.Some? {
          assert FirstConflict(g, r.value);
          return;
        }
      }
      var empty := EmptyFlags();
      r := if empty != [] then Some(Empty(empty)) else None;
    }

    method MissingFlags() returns (missing: seq<string>)
      requires Valid()
      ensures missing == Unchanged(flags, required)
    {
      missing := [];
      assert required[..0] == [] && required[..|required|] == required;
      for n := 0 to |required|
        invariant missing == Unchanged(flags, required[..n])
      {
        assert required[..n + 1][..n] == required[..n];
        if !FlagNamed(flags, required[n]).changed {
          missing := missing + [required[n]];
        }
      }
    }

    method EmptyFlags() returns (empty: seq<string>)
      requires Valid()
      ensures empty == EmptyOnes(flags, denyEmpty)
    {
      empty := [];
      assert denyEmpty[..0] == [] && denyEmpty[..|denyEmpty|] == denyEmpty;
      for n := 0 to |denyEmpty|
        invariant empty == EmptyOnes(flags, denyEmpty[..n])
      {
        assert denyEmpty[..n + 1][..n] == denyEmpty[..n];
        if GivenEmpty(flags, denyEmpty[n]) {
          empty := empty + [denyEmpty[n]];
        }
      }
    }

    method CheckGroup(group: seq<string>) returns (r: Option<Refusal>)
      requires AllKnown(flags, group)
      ensures r.None? <==> AtMostOneGiven(flags, group)
      ensures r.Some? ==> r.value.Exclusive? && Blames(flags, group, r.value)
    {
      var changed: Option<nat> := None;
      for n := 0 to |group|
        invariant changed.None? ==> forall i | 0 <= i < n :: !FlagNamed(flags, group[i]).changed
        invariant changed.Some? ==> changed.value < n && FlagNamed(flags, group[changed.value]).changed
        invariant changed.Some? ==> forall i | 0 <= i < n && i != changed.value :: !FlagNamed(flags, group[i]).changed
      {
        if !FlagNamed(flags, group[n]).changed {
          continue;
        }
        if changed.Some? {
          assert Conflict(flags, group, changed.value, n);
          return Some(Exclusive(group[changed.value], group[n]));
        }
        changed := Some(n);
      }
      return None;
    }

    /** A request for help is granted unless the arguments are malformed. */
    method Parse(argv: seq<string>) returns (outcome: Outcome)
      requires Valid()
      modifies this`flags
      ensures Valid() && flags == Apply(old(flags), ScanArgs(SpecsOf(old(flags)), argv).uses)
      ensures match ScanArgs(SpecsOf(old(flags)), argv)
              case Broken(_, e) => outcome == Syntax(e)
              case Scanned(_, rest) =>
                if flags[0].boolean then outcome == Help
                else if rest != [] then outcome == Positional
                else if Satisfied() then outcome == Fine
                else outcome.Refused? && Refuses(outcome.refusal)
    {
      var rest, error := ParseFlags(argv);
      KnownBySpecs(old(flags), flags);
      if error.Some? {
        return Syntax(error.value);
      }
      if flags[0].boolean {
        return Help;
      }
      if |rest| > 0 {
        return Positional;
      }
      var refusal := Validate();
      outcome := if refusal.Some? then Refused(refusal.value) else Fine;
    }

    /** The flags before a command's name are parsed; the rest is the command's.
        An accepted command still comes with the outcome of validation. */
    method ParseCommand(argv: seq<string>) returns (name: string, args: seq<string>, outcome: Outcome)
      requires Valid()
      modifies this`flags
      ensures Valid()
      ensures argv == [] ==> outcome == Usage && flags == old(flags)
      ensures argv != [] ==> flags == Apply(old(flags), ScanArgs(SpecsOf(old(flags)), argv).uses)
      ensures argv != [] ==> match ScanArgs(SpecsOf(old(flags)), argv)
                             case Broken(_, e) => outcome == Syntax(e)
                             case Scanned(_, rest) =>
                               if flags[0].boolean then outcome == Help
                               else if rest == [] then outcome == MissingCommand
                               else if rest[0] in commands then
                                 && name == rest[0] && args == rest[1..]
                                 && if Satisfied() then outcome == Fine
                                    else outcome.Refused? && Refuses(outcome.refusal)
                               else outcome == InvalidCommand
    {
      name, args := "", [];
      if argv == [] {
        return "", [], Usage;
      }
      var rest, error := ParseFlags(argv);
      KnownBySpecs(old(flags), flags);
      if error.Some? {
        return "", [], Syntax(error.value);
      }
      if flags[0].boolean {
        return "", [], Help;
      }
      if |rest| == 0 {
        return "", [], MissingCommand;
      }
      for i := 0 to |commands|
        invariant forall j | 0 <= j < i :: commands[j] != rest[0]
      {
        if commands[i] == rest[0] {
          var refusal := Validate();
          return commands[i], rest[1..], if refusal.Some? then Refused(refusal.value) else Fine;
        }
      }
      return "", [], InvalidCommand;
    }
  }

  lemma KnownGrows(flags: seq<Flag>, f: Flag)
    ensures forall name | Known(flags, name) :: Known(flags + [f], name)
  {
    forall name | Known(flags, name) ensures Known(flags + [f], name) {
      assert SpecsOf(flags + [f]) == SpecsOf(flags) + [f.spec];
      LookupPrefix(SpecsOf(flags), f.spec, name);
    }
  }

  lemma {:induction false} LookupPrefix(specs: seq<Spec>, more: Spec, name: string)
    requires Lookup(specs, name) < |specs|
    ensures Lookup(specs + [more], name) == Lookup(specs, name)
  {
    if specs[0].long != name {
      assert (specs + [more])[1..] == specs[1..] + [more];
      LookupPrefix(specs[1..], more, name);
    }
  }

  lemma ClashIsSymmetric(specs: seq<Spec>, spec: Spec)
    requires Registered(specs) && WellFormed(spec) && forall i | 0 <= i < |specs| :: !Clash(specs[i], spec)
    ensures Registered(specs + [spec])
  {
    forall i, j | 0 <= i < j < |specs + [spec]| ensures !Clash((specs + [spec])[j], (specs + [spec])[i]) {
      if j == |specs| {
        assert !Clash(specs[i], spec);
      }
    }
  }

  lemma KnownBySpecs(a: seq<Flag>, b: seq<Flag>)
    requires SpecsOf(a) == SpecsOf(b)
    ensures forall name :: Known(a, name) <==> Known(b, name)
    ensures |a| == |b| && forall i | 0 <= i < |a| :: a[i].spec == b[i].spec
  {
    assert |SpecsOf(a)| == |a| && |SpecsOf(b)| == |b|;
    forall i | 0 <= i < |a| ensures a[i].spec == b[i].spec {
      assert SpecsOf(a)[i] == SpecsOf(b)[i];
    }
  }

  lemma OneUse(flags: seq<Flag>, i: nat, value: string)
    requires i < |flags|
    ensures var after := flags[i := Given(flags[i], value)];
            Apply(flags, [Use(i, value)]) == after && SpecsOf(after) == SpecsOf(flags)
  {
    assert [Use(i, value)][1..] == [];
  }

  function AfterUses(uses: seq<Use>, p: Piece): Piece {
    match p
    case Piece(more, consumed) => Piece(uses + more, consumed)
    case Wrong(more, error) => Wrong(uses + more, error)
  }

  lemma AfterNothing(p: Piece)
    ensures AfterUses([], p) == p
  {
    assert [] + p.uses == p.uses;
  }

  lemma AfterOneMore(uses: seq<Use>, u: Use, p: Piece)
    ensures AfterUses(uses, AfterUse(u, p)) == AfterUses(uses + [u], p)
  {
    assert uses + ([u] + p.uses) == uses + [u] + p.uses;
  }

  lemma ThenNothing(s: Scan)
    ensures Then([], s) == s
  {
    assert [] + s.uses == s.uses;
  }

  /** Flags as some uses leave them. */
  predicate Reached(before: seq<Flag>, after: seq<Flag>, uses: seq<Use>) {
    SpecsOf(after) == SpecsOf(before) && after == Apply(before, uses)
  }

  lemma ReachedMore(before: seq<Flag>, mid: seq<Flag>, after: seq<Flag>, done: seq<Use>, uses: seq<Use>)
    requires Reached(before, mid, done) && Reached(mid, after, uses)
    ensures Reached(before, after, done + uses)
  {
    ApplyConcat(before, done, uses);
  }

  /** The whole scan, of which `done` is behind and the arguments from i on are
      ahead, with the flags as `done` leaves them. The argument loop compares it
      with true to carry it along. */
  predicate Underway(
    before: seq<Flag>, flags: seq<Flag>, whole: Scan, argv: seq<string>, done: seq<Use>, i: nat)
  {
    && i <= |argv| && Reached(before, flags, done)
    && whole == Then(done, ScanArgs(SpecsOf(flags), argv[i..]))
  }

  lemma NothingDone(flags: seq<Flag>, argv: seq<string>)
    ensures Underway(flags, flags, ScanArgs(SpecsOf(flags), argv), argv, [], 0)
  {
    assert argv[0..] == argv;
    ThenNothing(ScanArgs(SpecsOf(flags), argv));
  }

  lemma AllDone(before: seq<Flag>, flags: seq<Flag>, whole: Scan, argv: seq<string>, done: seq<Use>, i: nat)
    requires Underway(before, flags, whole, argv, done, i) && i >= |argv|
    ensures Reached(before, flags, done) && whole == Scanned(done, [])
  {
    assert argv[i..] == [] && done + [] == done;
  }

  /** The argument loop stops after an end mark or at a positional argument. */
  lemma LastArg(before: seq<Flag>, flags: seq<Flag>, whole: Scan, argv: seq<string>, i: nat, done: seq<Use>)
    requires Underway(before, flags, whole, argv, done, i)
    requires i < |argv| && (argv[i] == "--" || IsPositional(argv[i]))
    ensures Reached(before, flags, done)
    ensures whole == Scanned(done, if argv[i] == "--" then argv[i + 1..] else argv[i..])
  {
    assert argv[i..][1..] == argv[i + 1..] && done + [] == done;
  }

  /** A round of the argument loop that fails. */
  lemma BrokenArg(specs: seq<Spec>, argv: seq<string>, i: nat, done: seq<Use>, error: Error)
    requires i < |argv| && argv[i] != "--" && !IsPositional(argv[i])
    requires ScanOne(specs, argv[i], argv[i + 1..]).Wrong? && ScanOne(specs, argv[i], argv[i + 1..]).error == error
    ensures Then(done, ScanArgs(specs, argv[i..]))
         == Broken(done + ScanOne(specs, argv[i], argv[i + 1..]).uses, error)
  {
    assert argv[i..][1..] == argv[i + 1..];
  }

  /** A round of the argument loop that goes on. */
  lemma PieceArg(specs: seq<Spec>, argv: seq<string>, i: nat, done: seq<Use>, consumed: nat)
    requires i < |argv| && argv[i] != "--" && !IsPositional(argv[i])
    requires ScanOne(specs, argv[i], argv[i + 1..]).Piece?
    requires ScanOne(specs, argv[i], argv[i + 1..]).consumed == consumed
    ensures i + 1 + consumed <= |argv|
    ensures Then(done, ScanArgs(specs, argv[i..]))
         == Then(done + ScanOne(specs, argv[i], argv[i + 1..]).uses, ScanArgs(specs, argv[i + 1 + consumed..]))
  {
    assert argv[i..][1..] == argv[i + 1..];
    assert argv[i..][1 + consumed..] == argv[i + 1 + consumed..];
    ThenTwice(done, ScanOne(specs, argv[i], argv[i + 1..]).uses, ScanArgs(specs, argv[i + 1 + consumed..]));
  }

  lemma ThenTwice(a: seq<Use>, b: seq<Use>, s: Scan)
    ensures Then(a, Then(b, s)) == Then(a + b, s)
  {
    assert a + (b + s.uses) == a + b + s.uses;
  }
}
