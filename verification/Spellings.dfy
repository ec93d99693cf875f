/** Every way to write options, and that parsing accepts nothing else
    (parseFlags, parseLong and parseShort in internal/args/args.go). */
module Spellings {
  import opened Wrappers
  import opened Text
  import opened Args

  /** How a cluster of short flags may end: with a switch, or with a flag that
      has its value in the same argument or in the next. */
  datatype Ending = NoValue | Attached(last: Use) | Separate(last: Use)

  /** --name, --name=value, --name value, or a cluster of short flags. */
  datatype Written =
    | Switch(use: Use)
    | Joined(use: Use)
    | Apart(use: Use)
    | Cluster(switches: seq<Use>, ending: Ending)

  predicate TakesValue(specs: seq<Spec>, u: Use) {
    u.flag < |specs| && specs[u.flag].kind == Str
  }

  predicate IsSwitch(specs: seq<Spec>, u: Use) {
    u.flag < |specs| && specs[u.flag].kind != Str && u.value == ""
  }

  predicate HasShort(specs: seq<Spec>, u: Use) {
    u.flag < |specs| && specs[u.flag].short != ""
  }

  predicate ShortSwitches(specs: seq<Spec>, switches: seq<Use>) {
    forall i | 0 <= i < |switches| :: IsSwitch(specs, switches[i]) && HasShort(specs, switches[i])
  }

  predicate CanEnd(specs: seq<Spec>, ending: Ending) {
    match ending
    case NoValue => true
    case Attached(u) => TakesValue(specs, u) && HasShort(specs, u) && u.value != ""
    case Separate(u) => TakesValue(specs, u) && HasShort(specs, u)
  }

  predicate CanWrite(specs: seq<Spec>, w: Written) {
    match w
    case Switch(u) => IsSwitch(specs, u)
    case Joined(u) => TakesValue(specs, u)
    case Apart(u) => TakesValue(specs, u)
    case Cluster(switches, ending) =>
      ShortSwitches(specs, switches) && CanEnd(specs, ending) && (ending.NoValue? ==> switches != [])
  }

  function Shorts(specs: seq<Spec>, switches: seq<Use>): string
    requires ShortSwitches(specs, switches)
  {
    if switches == [] then "" else specs[switches[0].flag].short + Shorts(specs, switches[1..])
  }

  /** The end of a cluster, and the argument that may follow it. */
  function EndText(specs: seq<Spec>, ending: Ending): string
    requires CanEnd(specs, ending)
  {
    match ending
    case NoValue => ""
    case Attached(u) => specs[u.flag].short + u.value
    case Separate(u) => specs[u.flag].short
  }

  function EndArgs(ending: Ending): seq<string> {
    if ending.Separate? then [ending.last.value] else []
  }

  function EndUses(ending: Ending): seq<Use> {
    if ending.NoValue? then [] else [ending.last]
  }

  function Tokens(specs: seq<Spec>, w: Written): seq<string>
    requires CanWrite(specs, w)
  {
    match w
    case Switch(u) => ["--" + specs[u.flag].long]
    case Joined(u) => ["--" + specs[u.flag].long + "=" + u.value]
    case Apart(u) => ["--" + specs[u.flag].long, u.value]
    case Cluster(switches, ending) =>
      ["-" + (Shorts(specs, switches) + EndText(specs, ending))] + EndArgs(ending)
  }

  function Uses(w: Written): seq<Use> {
    match w
    case Cluster(switches, ending) => switches + EndUses(ending)
    case _ => [w.use]
  }

  predicate AllWritable(specs: seq<Spec>, ws: seq<Written>) {
    forall i | 0 <= i < |ws| :: CanWrite(specs, ws[i])
  }

  function AllTokens(specs: seq<Spec>, ws: seq<Written>): seq<string>
    requires AllWritable(specs, ws)
  {
    if ws == [] then [] else Tokens(specs, ws[0]) + AllTokens(specs, ws[1..])
  }

  function AllUses(ws: seq<Written>): seq<Use> {
    if ws == [] then [] else Uses(ws[0]) + AllUses(ws[1..])
  }

  // ----- what is written is parsed

  lemma LongsDiffer(specs: seq<Spec>, i: nat)
    requires Registered(specs) && i < |specs|
    ensures Lookup(specs, specs[i].long) == i
  {
    forall j, k | 0 <= j < k < |specs| ensures specs[k].long != specs[j].long {
      assert !Clash(specs[k], specs[j]);
    }
    LookupFinds(specs, i);
  }

  lemma {:induction false} ShortFinds(specs: seq<Spec>, i: nat)
    requires i < |specs| && forall j | 0 <= j < i :: specs[j].short != specs[i].short
    ensures LookupShort(specs, specs[i].short) == i
  {
    if i > 0 {
      forall j | 0 <= j < i - 1 ensures specs[1..][j].short != specs[1..][i - 1].short {
        assert specs[1..][j] == specs[j + 1];
      }
      ShortFinds(specs[1..], i - 1);
    }
  }

  lemma ShortsDiffer(specs: seq<Spec>, i: nat)
    requires Registered(specs) && i < |specs| && specs[i].short != ""
    ensures LookupShort(specs, specs[i].short) == i
  {
    forall j | 0 <= j < i ensures specs[j].short != specs[i].short {
      assert !Clash(specs[i], specs[j]);
    }
    ShortFinds(specs, i);
  }

  /** How a long argument is taken apart. */
  lemma LongParts(name: string, tail: string)
    requires name != "" && name[0] != '-' && '=' !in name && (tail != "" ==> tail[0] == '=')
    ensures var arg := "--" + name + tail;
            && Starts(arg, "--") && arg != "--" && !IsPositional(arg)
            && Find(arg[2..], '=') == |name| && arg[2..][..|name|] == name
            && |arg[2..]| == |name| + |tail| && (tail != "" ==> arg[2..][|name| + 1..] == tail[1..])
  {
    var arg := "--" + name + tail;
    assert arg[2..] == name + tail && arg[..2] == "--" && arg[..1] == "-";
    if tail == "" {
      FindNone(name, '=');
      assert name + tail == name;
    } else {
      FindHere(name, tail, '=');
    }
  }

  lemma SwitchScans(specs: seq<Spec>, u: Use, next: seq<string>)
    requires Registered(specs) && IsSwitch(specs, u)
    ensures var arg := "--" + specs[u.flag].long;
            Starts(arg, "--") && arg != "--" && !IsPositional(arg) && ScanLong(specs, arg, next) == Piece([u], 0)
  {
    var name := specs[u.flag].long;
    LongsDiffer(specs, u.flag);
    assert WellFormed(specs[u.flag]);
    LongParts(name, "");
    assert "--" + name + "" == "--" + name;
  }

  lemma JoinedScans(specs: seq<Spec>, u: Use, next: seq<string>)
    requires Registered(specs) && TakesValue(specs, u)
    ensures var arg := "--" + specs[u.flag].long + "=" + u.value;
            Starts(arg, "--") && arg != "--" && !IsPositional(arg) && ScanLong(specs, arg, next) == Piece([u], 0)
  {
    var name := specs[u.flag].long;
    LongsDiffer(specs, u.flag);
    assert WellFormed(specs[u.flag]);
    LongParts(name, "=" + u.value);
    assert "--" + name + ("=" + u.value) == "--" + name + "=" + u.value;
    assert ("=" + u.value)[1..] == u.value;
  }

  lemma ApartScans(specs: seq<Spec>, u: Use, more: seq<string>)
    requires Registered(specs) && TakesValue(specs, u)
    ensures var arg := "--" + specs[u.flag].long;
            && Starts(arg, "--") && arg != "--" && !IsPositional(arg)
            && ScanLong(specs, arg, [u.value] + more) == Piece([u], 1)
  {
    var name := specs[u.flag].long;
    LongsDiffer(specs, u.flag);
    assert WellFormed(specs[u.flag]);
    LongParts(name, "");
    assert "--" + name + "" == "--" + name;
  }

  /** A short flag heads the rest of its cluster. */
  lemma ShortHead(specs: seq<Spec>, i: nat, rest: string)
    requires Registered(specs) && i < |specs| && specs[i].short != ""
    ensures var s := specs[i].short + rest;
            s != "" && s[0] != '-' && s[..1] == specs[i].short && s[1..] == rest && LookupShort(specs, s[..1]) == i
  {
    assert WellFormed(specs[i]);
    ShortsDiffer(specs, i);
    assert specs[i].short[0] != '-' by {
      assert specs[i].short == [specs[i].short[0]];
    }
  }

  lemma EndScans(specs: seq<Spec>, ending: Ending, more: seq<string>)
    requires Registered(specs) && CanEnd(specs, ending)
    ensures ScanShorts(specs, EndText(specs, ending), EndArgs(ending) + more)
         == Piece(EndUses(ending), |EndArgs(ending)|)
    ensures EndText(specs, ending) != "" ==> EndText(specs, ending)[0] != '-'
  {
    match ending
    case NoValue =>
    case Attached(u) =>
      ShortHead(specs, u.flag, u.value);
    case Separate(u) =>
      ShortHead(specs, u.flag, "");
      assert specs[u.flag].short + "" == specs[u.flag].short;
  }

  lemma SwitchHeads(specs: seq<Spec>, u: Use, rest: string, next: seq<string>)
    requires Registered(specs) && IsSwitch(specs, u) && HasShort(specs, u)
    ensures var text := specs[u.flag].short + rest;
            text != "" && text[0] != '-' && ScanShorts(specs, text, next) == AfterUse(u, ScanShorts(specs, rest, next))
  {
    ShortHead(specs, u.flag, rest);
    assert u == Use(u.flag, "");
  }

  predicate Scans(specs: seq<Spec>, text: string, next: seq<string>, uses: seq<Use>, consumed: nat) {
    ScanShorts(specs, text, next) == Piece(uses, consumed) && (text != "" ==> text[0] != '-')
  }

  lemma OneMoreSwitch(
    specs: seq<Spec>, u: Use, text: string, rest: string, next: seq<string>, all: seq<Use>, uses: seq<Use>,
    consumed: nat)
    requires Registered(specs) && IsSwitch(specs, u) && HasShort(specs, u)
    requires Scans(specs, rest, next, uses, consumed) == true
    requires text == specs[u.flag].short + rest && all == [u] + uses
    ensures Scans(specs, text, next, all, consumed)
  {
    SwitchHeads(specs, u, rest, next);
  }

  lemma EndCluster(specs: seq<Spec>, ending: Ending, more: seq<string>, text: string, uses: seq<Use>)
    requires Registered(specs) && CanEnd(specs, ending)
    requires text == EndText(specs, ending) && uses == EndUses(ending)
    ensures Scans(specs, text, EndArgs(ending) + more, uses, |EndArgs(ending)|)
  {
    EndScans(specs, ending, more);
  }

  lemma HeadAndTail(specs: seq<Spec>, switches: seq<Use>, end: string, ends: seq<Use>)
    requires ShortSwitches(specs, switches) && switches != []
    ensures Shorts(specs, switches) + end == specs[switches[0].flag].short + (Shorts(specs, switches[1..]) + end)
    ensures switches + ends == [switches[0]] + (switches[1..] + ends)
  {
    Associates(specs[switches[0].flag].short, Shorts(specs, switches[1..]), end);
    Associates([switches[0]], switches[1..], ends);
    assert switches == [switches[0]] + switches[1..];
  }

  lemma {:induction false} ClusterScans(specs: seq<Spec>, switches: seq<Use>, ending: Ending, more: seq<string>)
    requires Registered(specs) && ShortSwitches(specs, switches) && CanEnd(specs, ending)
    ensures Scans(specs, Shorts(specs, switches) + EndText(specs, ending), EndArgs(ending) + more,
                  switches + EndUses(ending), |EndArgs(ending)|) == true
    decreases |switches|
  {
    var end, ends := EndText(specs, ending), EndUses(ending);
    var text, next, consumed := Shorts(specs, switches) + end, EndArgs(ending) + more, |EndArgs(ending)|;
    if switches == [] {
      EndCluster(specs, ending, more, text, switches + ends);
    } else {
      var tail := switches[1..];
      ClusterScans(specs, tail, ending, more);
      HeadAndTail(specs, switches, end, ends);
      OneMoreSwitch(specs, switches[0], text, Shorts(specs, tail) + end, next, switches + ends, tail + ends, consumed);
    }
  }

  lemma ClusterIsText(specs: seq<Spec>, switches: seq<Use>, ending: Ending)
    requires Registered(specs) && ShortSwitches(specs, switches) && CanEnd(specs, ending)
    ensures switches != [] || !ending.NoValue? ==> Shorts(specs, switches) + EndText(specs, ending) != ""
  {
    EndIsText(specs, ending);
    if switches != [] {
      assert Shorts(specs, switches) != "";
    }
  }

  lemma EndIsText(specs: seq<Spec>, ending: Ending)
    requires Registered(specs) && CanEnd(specs, ending)
    ensures !ending.NoValue? ==> EndText(specs, ending) != ""
  {
  }

  lemma DashThenText(text: string)
    requires text != "" && text[0] != '-'
    ensures var arg := "-" + text;
            arg != "-" && arg != "--" && !Starts(arg, "--") && !IsPositional(arg) && arg[1..] == text
  {
    var arg := "-" + text;
    assert arg[..1] == "-" && arg[1] == text[0];
    assert |arg| >= 2 ==> arg[..2][1] == arg[1];
  }

  /** What a spelling is parsed as, if its first token is scanned alone. */
  lemma OneScans(specs: seq<Spec>, w: Written, tail: seq<string>)
    requires Registered(specs) && CanWrite(specs, w)
    ensures var ts := Tokens(specs, w);
            && ts != [] && ts[0] != "--" && !IsPositional(ts[0])
            && ScanOne(specs, ts[0], ts[1..] + tail) == Piece(Uses(w), |ts| - 1)
  {
    var ts := Tokens(specs, w);
    match w
    case Switch(u) => SwitchScans(specs, u, ts[1..] + tail);
    case Joined(u) => JoinedScans(specs, u, ts[1..] + tail);
    case Apart(u) => ApartScans(specs, u, tail);
    case Cluster(switches, ending) =>
      ClusterScans(specs, switches, ending, tail);
      ClusterIsText(specs, switches, ending);
      DashThenText(Shorts(specs, switches) + EndText(specs, ending));
      assert ts[1..] == EndArgs(ending);
  }

  /** One spelling is parsed as its uses, whatever follows it. */
  lemma WrittenScans(specs: seq<Spec>, w: Written, tail: seq<string>)
    requires Registered(specs) && CanWrite(specs, w)
    ensures ScanArgs(specs, Tokens(specs, w) + tail) == Then(Uses(w), ScanArgs(specs, tail))
  {
    var ts := Tokens(specs, w);
    var argv := ts + tail;
    OneScans(specs, w, tail);
    assert argv[0] == ts[0] && argv[1..] == ts[1..] + tail && argv[|ts|..] == tail;
  }

  /** Options written in any of these ways, in any order, are parsed as their
      uses in this order, and parsing goes on with what follows. */
  lemma {:induction false} AllWrittenScan(specs: seq<Spec>, ws: seq<Written>, tail: seq<string>)
    requires Registered(specs) && AllWritable(specs, ws)
    ensures ScanArgs(specs, AllTokens(specs, ws) + tail) == Then(AllUses(ws), ScanArgs(specs, tail))
    decreases |ws|
  {
    if ws == [] {
      assert [] + tail == tail;
      ThenNothing(ScanArgs(specs, tail));
    } else {
      var rest := AllTokens(specs, ws[1..]) + tail;
      assert AllTokens(specs, ws) + tail == Tokens(specs, ws[0]) + rest;
      WrittenScans(specs, ws[0], rest);
      AllWrittenScan(specs, ws[1..], tail);
      ThenTwice(Uses(ws[0]), AllUses(ws[1..]), ScanArgs(specs, tail));
    }
  }

  /** Where the options end: at the end of the list, after an end mark, or at
      the first argument that does not start with a dash or is one. */
  predicate Ends(tail: seq<string>, rest: seq<string>) {
    if tail == [] then rest == []
    else if tail[0] == "--" then rest == tail[1..]
    else (tail[0] == "" || tail[0][0] != '-' || tail[0] == "-") && rest == tail
  }

  lemma PositionalMeans(arg: string)
    ensures IsPositional(arg) <==> arg == "" || arg[0] != '-' || arg == "-"
  {
    assert |arg| >= 1 ==> arg[..1] == [arg[0]];
  }

  lemma EndsScan(specs: seq<Spec>, tail: seq<string>, rest: seq<string>)
    requires Ends(tail, rest)
    ensures ScanArgs(specs, tail) == Scanned([], rest)
  {
    if tail != [] {
      PositionalMeans(tail[0]);
    }
  }

  // ----- nothing else is parsed

  lemma {:induction false} EqualsSplits(arg: string, n: nat)
    requires Starts(arg, "--") && n == Find(arg[2..], '=')
    ensures var body := arg[2..];
            if n < |body| then arg == "--" + body[..n] + "=" + body[n + 1..] else arg == "--" + body[..n]
  {
    hide Find;
    var body := arg[2..];
    assert arg == "--" + body;
    assert n < |body| ==> body == body[..n] + "=" + body[n + 1..];
  }

  lemma LongIsWritten(specs: seq<Spec>, arg: string, next: seq<string>) returns (w: Written)
    requires Starts(arg, "--") && ScanLong(specs, arg, next).Piece?
    ensures CanWrite(specs, w) && Uses(w) == ScanLong(specs, arg, next).uses
    ensures Tokens(specs, w) == [arg] + next[..ScanLong(specs, arg, next).consumed]
  {
    var n := Find(arg[2..], '=');
    var u := ScanLong(specs, arg, next).uses[0];
    EqualsSplits(arg, n);
    assert next[..0] == [] && [arg] + [] == [arg];
    if n < |arg[2..]| {
      w := Joined(u);
    } else if specs[u.flag].kind == Str {
      w := Apart(u);
      assert next[..1] == [next[0]];
    } else {
      w := Switch(u);
    }
  }

  /** A text of short flags, and what comes after, as a cluster. */
  predicate Reads(
    specs: seq<Spec>, shorts: string, next: seq<string>, switches: seq<Use>, ending: Ending, p: Piece)
  {
    && ShortSwitches(specs, switches) && CanEnd(specs, ending)
    && Shorts(specs, switches) + EndText(specs, ending) == shorts
    && p.Piece? && switches + EndUses(ending) == p.uses
    && p.consumed <= |next| && EndArgs(ending) == next[..p.consumed]
  }

  lemma MoreReads(
    specs: seq<Spec>, shorts: string, next: seq<string>, switches: seq<Use>, ending: Ending, p: Piece, u: Use)
    requires Reads(specs, shorts, next, switches, ending, p) && IsSwitch(specs, u) && HasShort(specs, u)
    ensures Reads(specs, specs[u.flag].short + shorts, next, [u] + switches, ending, AfterUse(u, p))
  {
    var all := [u] + switches;
    assert all[1..] == switches;
    Associates(specs[u.flag].short, Shorts(specs, switches), EndText(specs, ending));
    Associates([u], switches, EndUses(ending));
  }

  lemma Associates<T>(a: seq<T>, b: seq<T>, c: seq<T>)
    ensures a + (b + c) == a + b + c
  {
  }

  lemma EndReads(specs: seq<Spec>, shorts: string, next: seq<string>) returns (ending: Ending)
    requires shorts != "" && ScanShorts(specs, shorts, next).Piece?
    requires specs[LookupShort(specs, shorts[..1])].kind == Str
    ensures Reads(specs, shorts, next, [], ending, ScanShorts(specs, shorts, next))
  {
    var i := LookupShort(specs, shorts[..1]);
    if |shorts| > 1 {
      ending := Attached(Use(i, shorts[1..]));
      assert "" + (shorts[..1] + shorts[1..]) == shorts && next[..0] == [];
    } else {
      ending := Separate(Use(i, next[0]));
      assert "" + shorts[..1] == shorts && next[..1] == [next[0]];
    }
  }

  lemma {:induction false} ShortsAreWritten(specs: seq<Spec>, shorts: string, next: seq<string>)
    returns (switches: seq<Use>, ending: Ending)
    requires Registered(specs) && ScanShorts(specs, shorts, next).Piece?
    ensures Reads(specs, shorts, next, switches, ending, ScanShorts(specs, shorts, next)) == true
  {
    switches, ending := [], NoValue;
    if shorts != "" {
      var i := LookupShort(specs, shorts[..1]);
      if specs[i].kind != Str {
        var more;
        more, ending := ShortsAreWritten(specs, shorts[1..], next);
        switches := [Use(i, "")] + more;
        MoreReads(specs, shorts[1..], next, more, ending, ScanShorts(specs, shorts[1..], next), Use(i, ""));
        assert shorts == shorts[..1] + shorts[1..];
      } else {
        ending := EndReads(specs, shorts, next);
      }
    }
  }

  lemma OneIsWritten(specs: seq<Spec>, arg: string, next: seq<string>) returns (w: Written)
    requires Registered(specs) && !IsPositional(arg) && ScanOne(specs, arg, next).Piece?
    ensures CanWrite(specs, w) && Uses(w) == ScanOne(specs, arg, next).uses
    ensures Tokens(specs, w) == [arg] + next[..ScanOne(specs, arg, next).consumed]
  {
    if Starts(arg, "--") {
      w := LongIsWritten(specs, arg, next);
    } else {
      PositionalMeans(arg);
      var switches, ending := ShortsAreWritten(specs, arg[1..], next);
      w := Cluster(switches, ending);
      assert arg == "-" + arg[1..] && arg[1..] != "";
    }
  }

  /** An argument list as a list of spellings and what ends them. */
  predicate Spelled(specs: seq<Spec>, argv: seq<string>, ws: seq<Written>, tail: seq<string>, scan: Scan) {
    && AllWritable(specs, ws) && argv == AllTokens(specs, ws) + tail
    && scan.Scanned? && scan.uses == AllUses(ws) && Ends(tail, scan.rest)
  }

  lemma NothingSpelled(specs: seq<Spec>, argv: seq<string>)
    requires argv == [] || argv[0] == "--" || IsPositional(argv[0])
    ensures Spelled(specs, argv, [], argv, ScanArgs(specs, argv))
  {
    if argv != [] {
      PositionalMeans(argv[0]);
    }
  }

  lemma OneMoreSpelled(
    specs: seq<Spec>, argv: seq<string>, k: nat, w: Written, ws: seq<Written>, tail: seq<string>, scan: Scan,
    whole: Scan)
    requires CanWrite(specs, w) && k <= |argv| && Tokens(specs, w) == argv[..k]
    requires Spelled(specs, argv[k..], ws, tail, scan) && whole == Then(Uses(w), scan)
    ensures Spelled(specs, argv, [w] + ws, tail, whole)
  {
    var all := [w] + ws;
    assert all[1..] == ws;
    assert argv == argv[..k] + argv[k..];
    Associates(Tokens(specs, w), AllTokens(specs, ws), tail);
  }

  lemma {:induction false} ScanStep(specs: seq<Spec>, argv: seq<string>)
    requires ScanArgs(specs, argv).Scanned?
    requires argv != [] && argv[0] != "--" && !IsPositional(argv[0])
    ensures var p := ScanOne(specs, argv[0], argv[1..]);
            && p.Piece? && ScanArgs(specs, argv) == Then(p.uses, ScanArgs(specs, argv[1 + p.consumed..]))
            && ScanArgs(specs, argv[1 + p.consumed..]).Scanned?
  {
  }

  lemma {:induction false} FirstIsWritten(specs: seq<Spec>, argv: seq<string>) returns (k: nat, w: Written)
    requires Registered(specs) && ScanArgs(specs, argv).Scanned?
    requires argv != [] && argv[0] != "--" && !IsPositional(argv[0])
    ensures 0 < k <= |argv| && CanWrite(specs, w) && Tokens(specs, w) == argv[..k]
    ensures ScanArgs(specs, argv) == Then(Uses(w), ScanArgs(specs, argv[k..])) && ScanArgs(specs, argv[k..]).Scanned?
  {
    ScanStep(specs, argv);
    k := 1 + ScanOne(specs, argv[0], argv[1..]).consumed;
    w := OneIsWritten(specs, argv[0], argv[1..]);
    FirstTokens(argv, k);
  }

  lemma FirstTokens(argv: seq<string>, k: nat)
    requires 0 < k <= |argv|
    ensures [argv[0]] + argv[1..][..k - 1] == argv[..k]
  {
  }

  /** Every list that is parsed without error is written in these ways. */
  lemma {:induction false} ScannedIsWritten(specs: seq<Spec>, argv: seq<string>)
    returns (ws: seq<Written>, tail: seq<string>)
    requires Registered(specs) && ScanArgs(specs, argv).Scanned?
    ensures Spelled(specs, argv, ws, tail, ScanArgs(specs, argv)) == true
    decreases |argv|
  {
    if argv == [] || argv[0] == "--" || IsPositional(argv[0]) {
      ws, tail := [], argv;
      NothingSpelled(specs, argv);
    } else {
      var k, w := FirstIsWritten(specs, argv);
      var more;
      more, tail := ScannedIsWritten(specs, argv[k..]);
      ws := [w] + more;
      OneMoreSpelled(specs, argv, k, w, more, tail, ScanArgs(specs, argv[k..]), ScanArgs(specs, argv));
    }
  }

  /** Parsing succeeds exactly on the lists written in these ways, with their
      uses and the arguments left over. */
  lemma ParsedExactly(specs: seq<Spec>, argv: seq<string>, uses: seq<Use>, rest: seq<string>)
    requires Registered(specs)
    ensures ScanArgs(specs, argv) == Scanned(uses, rest)
            <==> exists ws, tail :: Spelled(specs, argv, ws, tail, Scanned(uses, rest))
  {
    if ScanArgs(specs, argv) == Scanned(uses, rest) {
      var ws, tail := ScannedIsWritten(specs, argv);
    }
    if ws, tail :| Spelled(specs, argv, ws, tail, Scanned(uses, rest)) {
      AllWrittenScan(specs, ws, tail);
      EndsScan(specs, tail, rest);
      assert AllUses(ws) + [] == uses;
    }
  }

  // ----- a canonical spelling

  predicate Sensible(specs: seq<Spec>, uses: seq<Use>) {
    forall j | 0 <= j < |uses| ::
      uses[j].flag < |specs| && (specs[uses[j].flag].kind != Str ==> uses[j].value == "")
  }

  /** One token for a use: --name, or --name=value for a string flag. */
  function Alone(specs: seq<Spec>, u: Use): Written
    requires u.flag < |specs|
  {
    if specs[u.flag].kind == Str then Joined(u) else Switch(u)
  }

  function EachAlone(specs: seq<Spec>, uses: seq<Use>): (ws: seq<Written>)
    requires Sensible(specs, uses)
    ensures AllWritable(specs, ws)
  {
    if uses == [] then [] else [Alone(specs, uses[0])] + EachAlone(specs, uses[1..])
  }

  lemma {:induction false} EachAloneUses(specs: seq<Spec>, uses: seq<Use>)
    requires Sensible(specs, uses)
    ensures AllUses(EachAlone(specs, uses)) == uses
  {
    if uses != [] {
      EachAloneUses(specs, uses[1..]);
      assert EachAlone(specs, uses)[1..] == EachAlone(specs, uses[1..]);
    }
  }

  /** An argument list with clusters, attached and separated values replaced by
      one token per use, and the end of the flags marked. */
  function Canonical(specs: seq<Spec>, scan: Scan): seq<string>
    requires scan.Scanned? && Sensible(specs, scan.uses)
  {
    AllTokens(specs, EachAlone(specs, scan.uses)) + (["--"] + scan.rest)
  }

  lemma {:induction false} ShortsAreSensible(specs: seq<Spec>, shorts: string, next: seq<string>)
    ensures Sensible(specs, ScanShorts(specs, shorts, next).uses)
  {
    if shorts != "" {
      ShortsAreSensible(specs, shorts[1..], next);
    }
  }

  lemma OneIsSensible(specs: seq<Spec>, arg: string, next: seq<string>)
    requires !IsPositional(arg)
    ensures Sensible(specs, ScanOne(specs, arg, next).uses)
  {
    ShortsAreSensible(specs, arg[1..], next);
  }

  lemma {:induction false} ScansAreSensible(specs: seq<Spec>, argv: seq<string>)
    ensures Sensible(specs, ScanArgs(specs, argv).uses)
    decreases |argv|
  {
    if argv != [] && argv[0] != "--" && !IsPositional(argv[0]) {
      OneIsSensible(specs, argv[0], argv[1..]);
      var p := ScanOne(specs, argv[0], argv[1..]);
      if p.Piece? {
        ScansAreSensible(specs, argv[1 + p.consumed..]);
      }
    }
  }

  /** Rewriting an argument list to its canonical spelling keeps its meaning:
      the same uses, hence the same flags, and the same arguments left. */
  lemma CanonicalKeepsMeaning(specs: seq<Spec>, argv: seq<string>)
    requires Registered(specs) && ScanArgs(specs, argv).Scanned?
    ensures Sensible(specs, ScanArgs(specs, argv).uses)
    ensures ScanArgs(specs, Canonical(specs, ScanArgs(specs, argv))) == ScanArgs(specs, argv)
  {
    ScansAreSensible(specs, argv);
    var scan := ScanArgs(specs, argv);
    var ws, tail := EachAlone(specs, scan.uses), ["--"] + scan.rest;
    AllWrittenScan(specs, ws, tail);
    EachAloneUses(specs, scan.uses);
    EndsScan(specs, tail, scan.rest);
    assert scan.uses + [] == scan.uses;
  }
}
