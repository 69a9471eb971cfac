/** CommandLine on POSIX: parsing an argv into the program, the switches and
    the arguments, with a map from each switch to its last value. */
module CommandLines {
  import opened Basics
  import opened SwitchSyntax
  import opened Whitespace

  // ----- what the tokens mean

  predicate IsSwitchAt(tokens: seq<string>, k: nat)
    requires k < |tokens|
  {
    TERMINATOR !in tokens[..k + 1] && IsSwitch(tokens[k], false)
  }

  function Switches(tokens: seq<string>): seq<string> {
    if tokens == [] then []
    else
      var last := |tokens| - 1;
      Switches(tokens[..last]) + if IsSwitchAt(tokens, last) then [tokens[last]] else []
  }

  function Others(tokens: seq<string>): seq<string> {
    if tokens == [] then []
    else
      var last := |tokens| - 1;
      Others(tokens[..last]) + if IsSwitchAt(tokens, last) then [] else [tokens[last]]
  }

  function Trims(tokens: seq<string>): seq<string> {
    seq(|tokens|, k requires 0 <= k < |tokens| => Trim(tokens[k]))
  }

  /** A switch as it is stored: without an '=' that nothing follows. */
  function Stored(t: string): string {
    if Value(t) == "" then Name(t) else t
  }

  function AllStored(tokens: seq<string>): seq<string> {
    seq(|tokens|, k requires 0 <= k < |tokens| => Stored(tokens[k]))
  }

  function Key(t: string): string {
    Name(t)[PrefixLength(Name(t), false)..]
  }

  function LastWins(switches: seq<string>): map<string, string> {
    if switches == [] then map[]
    else
      var t := switches[|switches| - 1];
      LastWins(switches[..|switches| - 1])[Key(t) := Value(t)]
  }

  datatype Line = Line(argv: seq<string>, switches: map<string, string>, beginArgs: nat)

  /** The trimmed tokens after the program. */
  function Tokens(argv: seq<string>): seq<string> {
    if argv == [] then [] else Trims(argv[1..])
  }

  /** The whole of InitFromArgv: program, switches, everything else. */
  function Parsed(argv: seq<string>): Line {
    var program := if argv == [] then "" else Trim(argv[0]);
    var tokens := Tokens(argv);
    Line([program] + AllStored(Switches(tokens)) + Others(tokens), LastWins(Switches(tokens)), 1 + |Switches(tokens)|)
  }

  function WithSwitch(l: Line, name: string, value: string): Line
    requires l.beginArgs <= |l.argv|
  {
    Line(l.argv[..l.beginArgs] + [Combined(name, value)] + l.argv[l.beginArgs..],
         l.switches[name[PrefixLength(name, false)..] := value],
         l.beginArgs + 1)
  }

  /** The tokens appended: switches before the old arguments, the rest last. */
  function Appended(l: Line, tokens: seq<string>): Line
    requires l.beginArgs <= |l.argv|
  {
    Line(l.argv[..l.beginArgs] + AllStored(Switches(tokens)) + l.argv[l.beginArgs..] + Others(tokens),
         l.switches + LastWins(Switches(tokens)),
         l.beginArgs + |Switches(tokens)|)
  }

  // ----- the object

  class CommandLine {
    var argv: seq<string>
    var switches: map<string, string>
    var beginArgs: nat

    ghost predicate Valid()
      reads this
    {
      1 <= beginArgs <= |argv|
    }

    ghost function View(): Line
      reads this
    {
      Line(argv, switches, beginArgs)
    }

    constructor ()
      ensures Valid() && View() == Line([""], map[], 1)
    {
      argv, switches, beginArgs := [""], map[], 1;
    }

    method SetProgram(program: string)
      requires Valid()
      modifies this`argv
      ensures Valid() && argv == [Trim(program)] + old(argv)[1..]
    {
      var p := TrimWhitespace(program);
      argv := argv[0 := p];
    }

    method AppendSwitchNative(name: string, value: string)
      requires Valid()
      modifies this
      ensures Valid() && View() == WithSwitch(old(View()), name, value)
    {
      var prefix := PrefixLength(name, false);
      switches := switches[name[prefix..] := value];
      var combined := name;
      if prefix == 0 {
        combined := "--" + combined;
      }
      if value != "" {
        combined := combined + ("=" + value);
      }
      assert combined == Combined(name, value) by { assert name + "" == name && "--" + name + "" == "--" + name; }
      argv := argv[..beginArgs] + [combined] + argv[beginArgs..];
      beginArgs := beginArgs + 1;
    }

    method AppendArgNative(value: string)
      requires Valid()
      modifies this`argv
      ensures Valid() && argv == old(argv) + [value]
    {
      argv := argv + [value];
    }

    method InitFromArgv(args: seq<string>)
      modifies this
      ensures Valid() && View() == Parsed(args)
    {
      argv, switches, beginArgs := [""], map[], 1;
      var program := if args == [] then "" else args[0];
      SetProgram(program);
      ghost var bare := Line([Trim(program)], map[], 1);
      assert View() == bare;
      AppendSwitchesAndArguments(args);
      ParsedIsAppended(args, bare);
    }

    /** Appends the tokens after the first, keeping switches before arguments. */
    method AppendSwitchesAndArguments(args: seq<string>)
      requires Valid()
      modifies this
      ensures Valid() && View() == Appended(old(View()), Tokens(args))
    {
      ghost var tokens := Tokens(args);
      AppendedNothing(View());
      var parse := true;
      var i := 1;
      while i < |args|
        invariant 1 <= i && i - 1 <= |tokens| && (args != [] ==> i <= |args|)
        invariant parse <==> TERMINATOR !in tokens[..i - 1]
        invariant Valid() && View() == Appended(old(View()), tokens[..i - 1])
      {
        var arg := TrimWhitespace(args[i]);
        AppendedOne(old(View()), tokens, i - 1);
        parse := parse && arg != TERMINATOR;
        if parse && IsSwitch(arg, false) {
          AppendSwitchNative(Name(arg), Value(arg));
        } else {
          AppendArgNative(arg);
        }
        i := i + 1;
      }
      assert tokens[..i - 1] == tokens;
    }

    /** Everything after the switches, minus the first terminator. */
    method GetArgs() returns (args: seq<string>)
      requires Valid()
      ensures args == DropTerminator(argv[beginArgs..])
    {
      args := argv[beginArgs..];
      var k := 0;
      while k < |args| && args[k] != TERMINATOR
        invariant k <= |args| && DropTerminator(args) == args[..k] + DropTerminator(args[k..])
      {
        DropStep(args, k);
        k := k + 1;
      }
      if k < |args| {
        assert args[k..][1..] == args[k + 1..];
        args := args[..k] + args[k + 1..];
      } else {
        assert args[..k] + [] == args;
      }
    }
  }

  function Combined(name: string, value: string): string {
    (if PrefixLength(name, false) == 0 then "--" + name else name) + if value != "" then "=" + value else ""
  }

  function DropTerminator(args: seq<string>): seq<string> {
    if args == [] then [] else if args[0] == TERMINATOR then args[1..] else [args[0]] + DropTerminator(args[1..])
  }

  /** An argument that is no terminator stays in front. */
  lemma DropStep(args: seq<string>, k: nat)
    requires k < |args| && args[k] != TERMINATOR
    ensures args[..k] + DropTerminator(args[k..]) == args[..k + 1] + DropTerminator(args[k + 1..])
  {
    var rest := DropTerminator(args[k + 1..]);
    assert args[k..][1..] == args[k + 1..];
    assert DropTerminator(args[k..]) == [args[k]] + rest;
    assert args[..k] + ([args[k]] + rest) == args[..k + 1] + rest;
  }

  lemma AppendedNothing(l: Line)
    requires l.beginArgs <= |l.argv|
    ensures Appended(l, []) == l
  {
    assert l.switches + map[] == l.switches;
  }

  lemma ParsedIsAppended(args: seq<string>, bare: Line)
    requires bare == Line([if args == [] then Trim("") else Trim(args[0])], map[], 1)
    ensures Parsed(args) == Appended(bare, Tokens(args))
  {
    var tokens := Tokens(args);
    AppendedToBare(bare.argv[0], AllStored(Switches(tokens)), Others(tokens), LastWins(Switches(tokens)));
    assert Trim("") == "";
  }

  lemma AppendedToBare(program: string, sw: seq<string>, ot: seq<string>, m: map<string, string>)
    ensures var argv := [program]; argv[..1] + sw + argv[1..] + ot == argv + sw + ot
    ensures map[] + m == m
  {
    var argv := [program];
    assert argv[..1] == argv && argv[1..] == [];
    assert argv + sw + [] == argv + sw;
  }

  lemma AppendedOne(l: Line, tokens: seq<string>, k: nat)
    requires l.beginArgs <= |l.argv| && k < |tokens|
    ensures TERMINATOR !in tokens[..k + 1] <==> TERMINATOR !in tokens[..k] && tokens[k] != TERMINATOR
    ensures var t := tokens[k]; var a := Appended(l, tokens[..k]);
      Appended(l, tokens[..k + 1]) ==
        if TERMINATOR !in tokens[..k + 1] && IsSwitch(t, false)
        then WithSwitch(a, Name(t), Value(t))
        else a.(argv := a.argv + [t])
  {
    OneMoreToken(tokens, k);
    if TERMINATOR !in tokens[..k + 1] && IsSwitch(tokens[k], false) {
      AppendedSwitch(l, tokens[..k], tokens[k], tokens[..k + 1]);
    } else {
      AppendedOther(l, tokens[..k], tokens[k], tokens[..k + 1]);
    }
  }

  lemma AppendedSwitch(l: Line, s: seq<string>, t: string, more: seq<string>)
    requires l.beginArgs <= |l.argv| && IsSwitch(t, false)
    requires Switches(more) == Switches(s) + [t] && Others(more) == Others(s)
    requires LastWins(Switches(more)) == LastWins(Switches(s))[Key(t) := Value(t)]
    requires AllStored(Switches(more)) == AllStored(Switches(s)) + [Stored(t)]
    ensures Appended(l, more) == WithSwitch(Appended(l, s), Name(t), Value(t))
  {
    SwitchIsStored(t);
    InsertedBetween(l.argv[..l.beginArgs], AllStored(Switches(s)), l.argv[l.beginArgs..], Others(s), Stored(t));
    MergedOne(l.switches, LastWins(Switches(s)), Key(t), Value(t));
  }

  lemma MergedOne(a: map<string, string>, b: map<string, string>, key: string, value: string)
    ensures a + b[key := value] == (a + b)[key := value]
  {}

  lemma AppendedOther(l: Line, s: seq<string>, t: string, more: seq<string>)
    requires l.beginArgs <= |l.argv|
    requires Switches(more) == Switches(s) && Others(more) == Others(s) + [t]
    ensures var a := Appended(l, s); Appended(l, more) == a.(argv := a.argv + [t])
  {
    var front := l.argv[..l.beginArgs] + AllStored(Switches(s)) + l.argv[l.beginArgs..];
    assert front + (Others(s) + [t]) == front + Others(s) + [t];
  }

  lemma InsertedBetween(head: seq<string>, sw: seq<string>, tail: seq<string>, ot: seq<string>, x: string)
    ensures var a := head + sw + tail + ot; var n := |head| + |sw|;
      a[..n] + [x] + a[n..] == head + (sw + [x]) + tail + ot
  {}

  lemma OneMoreToken(tokens: seq<string>, k: nat)
    requires k < |tokens|
    ensures var s := tokens[..k]; var t := tokens[..k + 1];
      && (TERMINATOR !in t <==> TERMINATOR !in s && tokens[k] != TERMINATOR)
      && (var switch := TERMINATOR !in t && IsSwitch(tokens[k], false);
          && Switches(t) == Switches(s) + (if switch then [tokens[k]] else [])
          && Others(t) == Others(s) + (if switch then [] else [tokens[k]])
          && (switch ==> LastWins(Switches(t)) == LastWins(Switches(s))[Key(tokens[k]) := Value(tokens[k])])
          && (switch ==> AllStored(Switches(t)) == AllStored(Switches(s)) + [Stored(tokens[k])]))
  {
    var s, x := tokens[..k], tokens[k];
    assert tokens[..k + 1] == s + [x];
    TokensSnoc(s, x);
    if TERMINATOR !in s + [x] && IsSwitch(x, false) {
      LastWinsSnoc(Switches(s) + [x], Switches(s), x);
      AllStoredSnoc(Switches(s), x, Switches(s) + [x]);
    }
  }

  /** One token more goes to the switches or to the others. */
  lemma TokensSnoc(s: seq<string>, x: string)
    ensures var switch := TERMINATOR !in s + [x] && IsSwitch(x, false);
      && Switches(s + [x]) == Switches(s) + (if switch then [x] else [])
      && Others(s + [x]) == Others(s) + (if switch then [] else [x])
    ensures TERMINATOR !in s + [x] <==> TERMINATOR !in s && x != TERMINATOR
  {
    var all := s + [x];
    assert all[..|s|] == s && all[..|s| + 1] == all;
  }

  lemma SwitchIsStored(t: string)
    requires IsSwitch(t, false)
    ensures PrefixLength(Name(t), false) > 0
    ensures Combined(Name(t), Value(t)) == Stored(t)
  {
    NameAndValue(t);
    assert Name(t) != "" && Name(t)[0] == t[0];
  }

  // ----- what parsing keeps

  /** No token is lost or invented. */
  lemma {:induction false} NothingLost(tokens: seq<string>)
    ensures multiset(Switches(tokens)) + multiset(Others(tokens)) == multiset(tokens)
    ensures AllAre(Switches(tokens))
    decreases |tokens|
  {
    if tokens != [] {
      var last := |tokens| - 1;
      var a, t := tokens[..last], tokens[last];
      NothingLost(a);
      assert tokens == a + [t];
      TokensSnoc(a, t);
      Gathered(Switches(a), Others(a), a, t);
      AllOf(Switches(a) + [t], Switches(a), t);
    }
  }

  lemma Gathered(s: seq<string>, o: seq<string>, a: seq<string>, t: string)
    requires multiset(s) + multiset(o) == multiset(a)
    ensures multiset(s + [t]) + multiset(o) == multiset(a + [t]) == multiset(s) + multiset(o + [t])
    ensures s + [] == s && o + [] == o
  {}

  /** Switch tokens are stored unchanged iff none ends at its first '='. */
  lemma StoredUnchanged(argv: seq<string>)
    requires argv != []
    ensures var tokens := Tokens(argv); var sw := Switches(tokens);
      Parsed(argv).argv == [Trim(argv[0])] + sw + Others(tokens) <==>
        forall k :: 0 <= k < |sw| ==> Value(sw[k]) != "" || EqualsAt(sw[k]) == |sw[k]|
  {
    var tokens := Tokens(argv);
    var sw := Switches(tokens);
    var head := [Trim(argv[0])];
    forall k | 0 <= k < |sw| ensures Stored(sw[k]) == sw[k] <==> Value(sw[k]) != "" || EqualsAt(sw[k]) == |sw[k]| {
      NameAndValue(sw[k]);
    }
    if Parsed(argv).argv == head + sw + Others(tokens) {
      assert AllStored(sw) == Parsed(argv).argv[1..1 + |sw|] == sw;
    } else {
      assert AllStored(sw) != sw;
    }
  }

  /** The map's keys are those of the switches. */
  lemma {:induction false} LastWinsKeys(switches: seq<string>, key: string)
    ensures key in LastWins(switches) <==> exists k :: 0 <= k < |switches| && Key(switches[k]) == key
    decreases |switches|
  {
    if switches != [] {
      var last := |switches| - 1;
      var before := switches[..last];
      LastWinsKeys(before, key);
      LastWinsSnoc(switches, before, switches[last]);
      if k :| 0 <= k < |before| && Key(before[k]) == key {
        assert Key(switches[k]) == key;
      }
      if k :| 0 <= k < |switches| && Key(switches[k]) == key {
        assert k < last ==> Key(before[k]) == key;
      }
    }
  }

  /** The map holds each switch key with the value of its last occurrence. */
  lemma {:induction false} LastWinsMeans(switches: seq<string>, k: nat)
    requires k < |switches| && forall j :: k < j < |switches| ==> Key(switches[j]) != Key(switches[k])
    ensures Key(switches[k]) in LastWins(switches)
    ensures LastWins(switches)[Key(switches[k])] == Value(switches[k])
    decreases |switches|
  {
    var last := |switches| - 1;
    if k < last {
      LastWinsMeans(switches[..last], k);
    }
  }

  // ----- how switches are spelled

  predicate Dashed(n: string) {
    n != "" && n[0] == '-'
  }

  /** The token sets switch `n` to `v`, said by its characters alone: one or two
      dashes, the name, and '=' and the value unless there is none. */
  predicate Spells(t: string, n: string, v: string) {
    && '=' !in n
    && (|| t == "--" + n + "=" + v
        || (t == "-" + n + "=" + v && !Dashed(n))
        || (t == "--" + n && n != "" && v == "")
        || (t == "-" + n && n != "" && v == "" && !Dashed(n)))
  }

  lemma EqualsFound(s: string, k: nat)
    requires k <= |s| && (k < |s| ==> s[k] == '=') && forall j :: 0 <= j < k ==> s[j] != '='
    ensures EqualsAt(s) == k
  {}

  /** A prefix `p`, a name and a value are taken apart as they were put together. */
  lemma SpelledParts(p: string, n: string, v: string)
    requires (p == "--" || (p == "-" && !Dashed(n))) && '=' !in n
    ensures var t := p + n + "=" + v; IsSwitch(t, false) && Key(t) == n && Value(t) == v
  {
    var t, k := p + n + "=" + v, |p| + |n|;
    assert forall j :: 0 <= j < k ==> t[j] == (p + n)[j] && t[j] != '=';
    assert t[k] == '=';
    EqualsFound(t, k);
    assert t[..k] == p + n && t[k + 1..] == v;
    PrefixOf(p, n, p + n);
    PrefixOf(p, n + "=" + v, t);
    assert (p + n)[|p|..] == n;
  }

  lemma SpelledAlone(p: string, n: string)
    requires (p == "--" || (p == "-" && !Dashed(n))) && '=' !in n && n != ""
    ensures var t := p + n; IsSwitch(t, false) && Key(t) == n && Value(t) == ""
  {
    var t := p + n;
    EqualsFound(t, |t|);
    assert t[..|t|] == t;
    PrefixOf(p, n, t);
    assert t[|p|..] == n;
  }

  lemma PrefixOf(p: string, rest: string, t: string)
    requires (p == "--" || (p == "-" && !Dashed(rest))) && t == p + rest
    ensures PrefixLength(t, false) == |p|
  {
    if p == "-" && rest != "" { assert t[1] == rest[0]; }
  }

  /** The prefix and the key of a switch's name. */
  lemma NameParts(t: string) returns (p: string)
    requires IsSwitch(t, false)
    ensures p == "--" || (p == "-" && !Dashed(Key(t)))
    ensures Name(t) == p + Key(t) && '=' !in Key(t)
    ensures EqualsAt(t) == |t| ==> Key(t) != ""
  {
    var name := Name(t);
    if |t| > 1 && t[1] == '-' {
      p := "--";
      assert name[0] == '-' && name[1] == '-';
    } else {
      p := "-";
      assert name[0] == '-' && (|name| > 1 ==> name[1] == t[1]);
    }
    assert name == name[..|p|] + name[|p|..];
  }

  /** The parser's view of a token agrees with its spelling, for every token. */
  lemma SpellsIff(t: string, n: string, v: string)
    ensures IsSwitch(t, false) && Key(t) == n && Value(t) == v <==> Spells(t, n, v)
  {
    if IsSwitch(t, false) && Key(t) == n && Value(t) == v {
      var p := NameParts(t);
      NameAndValue(t);
    }
    if '=' !in n {
      if t == "--" + n + "=" + v { SpelledParts("--", n, v); }
      if t == "-" + n + "=" + v && !Dashed(n) { SpelledParts("-", n, v); }
      if t == "--" + n && n != "" { SpelledAlone("--", n); }
      if t == "-" + n && n != "" && !Dashed(n) { SpelledAlone("-", n); }
    }
  }

  /** Token `k` comes before the terminator and sets switch `n` to `v`. */
  predicate Sets(tokens: seq<string>, k: nat, n: string, v: string) {
    k < |tokens| && "--" !in tokens[..k] && Spells(tokens[k], n, v)
  }

  lemma SetsSnoc(a: seq<string>, x: string, k: nat, n: string, v: string)
    ensures Sets(a + [x], k, n, v) <==> Sets(a, k, n, v) || (k == |a| && "--" !in a && Spells(x, n, v))
  {
    var all := a + [x];
    assert all[..|a|] == a;
    if k < |a| { assert all[..k] == a[..k]; }
  }

  lemma SwitchIffSpelled(a: seq<string>, x: string, n: string, v: string)
    ensures TERMINATOR !in a + [x] && IsSwitch(x, false) && Key(x) == n && Value(x) == v <==> "--" !in a && Spells(x, n, v)
  {
    SpellsIff(x, n, v);
    assert !IsSwitch("--", false);
    assert TERMINATOR !in a + [x] <==> "--" !in a && x != "--";
  }

  /** The map after one token more. */
  lemma MapSnoc(a: seq<string>, x: string, n: string)
    ensures var m, after := LastWins(Switches(a)), LastWins(Switches(a + [x]));
      if TERMINATOR !in a + [x] && IsSwitch(x, false) && Key(x) == n then n in after && after[n] == Value(x)
      else (n in after <==> n in m) && (n in m ==> after[n] == m[n])
  {
    TokensSnoc(a, x);
    if TERMINATOR !in a + [x] && IsSwitch(x, false) {
      LastWinsSnoc(Switches(a) + [x], Switches(a), x);
    } else {
      assert Switches(a) + [] == Switches(a);
    }
  }

  /** The map has `n` iff some token before the terminator sets it. */
  lemma {:induction false} KeyIffSet(tokens: seq<string>, n: string)
    ensures n in LastWins(Switches(tokens)) <==> exists k, v :: Sets(tokens, k, n, v)
    decreases |tokens|
  {
    if tokens != [] {
      var a, x := tokens[..|tokens| - 1], tokens[|tokens| - 1];
      assert tokens == a + [x];
      KeyIffSet(a, n);
      MapSnoc(a, x, n);
      SwitchIffSpelled(a, x, n, Value(x));
      SetsSnoc(a, x, |a|, n, Value(x));
      if k, v :| Sets(a, k, n, v) {
        SetsSnoc(a, x, k, n, v);
        assert Sets(tokens, k, n, v);
      }
      if k, v :| Sets(tokens, k, n, v) {
        SetsSnoc(a, x, k, n, v);
        SwitchIffSpelled(a, x, n, v);
      }
    }
  }

  /** And then its value is the one the last such token gives. */
  lemma {:induction false} LastSetWins(tokens: seq<string>, n: string, k: nat, v: string)
    requires Sets(tokens, k, n, v) && forall j, w :: k < j ==> !Sets(tokens, j, n, w)
    ensures n in LastWins(Switches(tokens)) && LastWins(Switches(tokens))[n] == v
    decreases |tokens|
  {
    var a, x := tokens[..|tokens| - 1], tokens[|tokens| - 1];
    assert tokens == a + [x];
    MapSnoc(a, x, n);
    SetsSnoc(a, x, k, n, v);
    if k == |a| {
      SwitchIffSpelled(a, x, n, v);
    } else {
      SetsSnoc(a, x, |a|, n, Value(x));
      SwitchIffSpelled(a, x, n, Value(x));
      forall j, w | k < j ensures !Sets(a, j, n, w) {
        SetsSnoc(a, x, j, n, w);
      }
      LastSetWins(a, n, k, v);
    }
  }

  /** For every argv and every name, by spelling alone: the switch map has the
      name iff some token before the terminator sets it, with the value that
      the last such token gives. */
  lemma SwitchMapMeans(argv: seq<string>, n: string)
    ensures var tokens, m := Tokens(argv), Parsed(argv).switches;
      && (n in m <==> exists k, v :: Sets(tokens, k, n, v))
      && forall k, v :: Sets(tokens, k, n, v) && (forall j, w :: k < j ==> !Sets(tokens, j, n, w)) ==> m[n] == v
  {
    var tokens := Tokens(argv);
    KeyIffSet(tokens, n);
    forall k, v | Sets(tokens, k, n, v) && (forall j, w :: k < j ==> !Sets(tokens, j, n, w))
      ensures n in Parsed(argv).switches && Parsed(argv).switches[n] == v
    {
      LastSetWins(tokens, n, k, v);
    }
  }

  /** A switch appended by its bare name, or with either prefix, is found under
      that name, and put before the arguments with its prefix, two dashes if it
      had none. */
  lemma AppendedSwitchMeans(l: Line, n: string, v: string)
    requires l.beginArgs <= |l.argv|
    ensures !Dashed(n) ==> AppendedAs(l, n, v, n, "--" + n)
    ensures AppendedAs(l, "--" + n, v, n, "--" + n)
    ensures !Dashed(n) ==> AppendedAs(l, "-" + n, v, n, "-" + n)
  {
    CombinedText("--" + n, v);
    PrefixOf("--", n, "--" + n);
    assert ("--" + n)[2..] == n;
    if !Dashed(n) {
      CombinedText("-" + n, v);
      PrefixOf("-", n, "-" + n);
      assert ("-" + n)[1..] == n && n[0..] == n;
    }
  }

  lemma CombinedText(text: string, v: string)
    ensures text + (if v != "" then "=" + v else "") == if v == "" then text else text + "=" + v
  {
    Regroup(text, "=", v);
    assert text + "" == text;
  }

  /** The switch is stored under `key`, as the last switch, as `text` or, with a
      value, as `text`, '=' and the value. */
  predicate AppendedAs(l: Line, name: string, v: string, key: string, text: string)
    requires l.beginArgs <= |l.argv|
  {
    var token := if v == "" then text else text + "=" + v;
    WithSwitch(l, name, v) ==
      Line(l.argv[..l.beginArgs] + [token] + l.argv[l.beginArgs..], l.switches[key := v], l.beginArgs + 1)
  }

  // ----- which token goes where

  /** Token `k` is a switch, by its spelling and its place. */
  ghost predicate SwitchToken(tokens: seq<string>, k: nat) {
    exists n, v :: Sets(tokens, k, n, v)
  }

  lemma SwitchTokenIff(tokens: seq<string>, k: nat)
    requires k < |tokens|
    ensures SwitchToken(tokens, k) <==> IsSwitchAt(tokens, k)
  {
    var a, x := tokens[..k], tokens[k];
    assert tokens[..k + 1] == a + [x];
    SwitchIffSpelled(a, x, Key(x), Value(x));
    if IsSwitchAt(tokens, k) {
      assert Sets(tokens, k, Key(x), Value(x));
    }
    if n, v :| Sets(tokens, k, n, v) {
      SwitchIffSpelled(a, x, n, v);
    }
  }

  /** `part` is what the tokens hold at `places`: in order, and all that are
      switches, or all that are not. */
  ghost predicate InPlace(tokens: seq<string>, part: seq<string>, places: seq<nat>, switch: bool) {
    && |places| == |part| && Increasing(places)
    && (forall j :: 0 <= j < |places| ==> places[j] < |tokens| && tokens[places[j]] == part[j])
    && (forall k :: 0 <= k < |tokens| ==> (k in places <==> (SwitchToken(tokens, k) <==> switch)))
  }

  lemma {:induction false} PartsKeepOrder(tokens: seq<string>) returns (switches: seq<nat>, others: seq<nat>)
    ensures InPlace(tokens, Switches(tokens), switches, true)
    ensures InPlace(tokens, Others(tokens), others, false)
    decreases |tokens|
  {
    switches, others := [], [];
    if tokens != [] {
      var a, x := tokens[..|tokens| - 1], tokens[|tokens| - 1];
      switches, others := PartsKeepOrder(a);
      assert tokens == a + [x];
      TokensSnoc(a, x);
      SwitchTokenIff(tokens, |a|);
      assert tokens[..|a| + 1] == tokens;
      var last := IsSwitchAt(tokens, |a|);
      InPlaceSnoc(a, x, Switches(a), switches, true, last);
      InPlaceSnoc(a, x, Others(a), others, false, last);
      if last { switches := switches + [|a|]; } else { others := others + [|a|]; }
      assert Switches(a) + [] == Switches(a) && Others(a) + [] == Others(a);
    }
  }

  lemma InPlaceSnoc(a: seq<string>, x: string, part: seq<string>, places: seq<nat>, switch: bool, last: bool)
    requires InPlace(a, part, places, switch) && (SwitchToken(a + [x], |a|) <==> last)
    ensures if last == switch then InPlace(a + [x], part + [x], places + [|a|], switch) else InPlace(a + [x], part, places, switch)
  {
    var all := a + [x];
    forall k | 0 <= k < |a| ensures SwitchToken(all, k) <==> SwitchToken(a, k) {
      SwitchTokenIff(all, k);
      SwitchTokenIff(a, k);
      assert all[..k + 1] == a[..k + 1];
    }
    assert forall k :: k in places ==> k < |a|;
  }

  /** The string without its outer whitespace. */
  ghost predicate TrimsTo(s: string, t: string) {
    Trimmed(t) && exists left, right :: Spaces(left) && Spaces(right) && s == left + t + right
  }

  lemma TrimMeans(s: string)
    ensures TrimsTo(s, Trim(s))
  {
    var left, right := TrimCutsSpaces(s);
  }

  /** The tokens are the arguments after the program, each trimmed; so is the
      program, which is empty if there is none. */
  lemma TokensAreTrimmed(argv: seq<string>)
    ensures |Tokens(argv)| == if argv == [] then 0 else |argv| - 1
    ensures forall k :: 0 <= k < |Tokens(argv)| ==> TrimsTo(argv[k + 1], Tokens(argv)[k])
    ensures |Parsed(argv).argv| > 0 && TrimsTo(if argv == [] then "" else argv[0], Parsed(argv).argv[0])
  {
    TrimMeans(if argv == [] then "" else argv[0]);
    assert Trim("") == "";
    forall k | 0 <= k < |Tokens(argv)| ensures TrimsTo(argv[k + 1], Tokens(argv)[k]) {
      TrimMeans(argv[k + 1]);
    }
  }

  /** A switch is stored as it is, but for an '=' that is its first and its last. */
  lemma StoredMeans(t: string)
    ensures if |t| > 0 && t[|t| - 1] == '=' && '=' !in t[..|t| - 1] then t == Stored(t) + "=" else Stored(t) == t
  {
    NameAndValue(t);
    if |t| > 0 && t[|t| - 1] == '=' && '=' !in t[..|t| - 1] {
      assert forall j :: 0 <= j < |t| - 1 ==> t[j] == t[..|t| - 1][j];
      EqualsFound(t, |t| - 1);
    }
  }

  /** The line holds its program, the switches, each stored, up to the boundary,
      and then the others. */
  ghost predicate LaidOut(l: Line, sw: seq<string>, ot: seq<string>) {
    && |l.argv| == 1 + |sw| + |ot| && l.beginArgs == 1 + |sw|
    && l.argv[1..l.beginArgs] == AllStored(sw) && l.argv[l.beginArgs..] == ot
  }

  lemma ThreeParts(program: string, stored: seq<string>, ot: seq<string>, all: seq<string>)
    requires all == [program] + stored + ot
    ensures |all| == 1 + |stored| + |ot| && all[1..1 + |stored|] == stored && all[1 + |stored|..] == ot
  {}

  lemma ParsedLayout(argv: seq<string>)
    ensures LaidOut(Parsed(argv), Switches(Tokens(argv)), Others(Tokens(argv)))
  {
    var program := if argv == [] then "" else Trim(argv[0]);
    var stored, ot := AllStored(Switches(Tokens(argv))), Others(Tokens(argv));
    ThreeParts(program, stored, ot, Parsed(argv).argv);
  }

  // ----- parsing the result again

  /** What parsing a switch token again would leave alone. */
  predicate Settled(t: string) {
    IsSwitch(Stored(t), false) && Trimmed(Stored(t))
  }

  lemma StoredTwice(t: string)
    requires IsSwitch(t, false)
    ensures Name(Stored(t)) == Name(t) && Value(Stored(t)) == Value(t)
    ensures Stored(Stored(t)) == Stored(t) && Key(Stored(t)) == Key(t)
    ensures |Stored(t)| <= |t|
  {
    NameAndValue(t);
    NameAndValue(Stored(t));
  }

  lemma {:induction false} LastWinsStored(sw: seq<string>)
    requires forall k :: 0 <= k < |sw| ==> IsSwitch(sw[k], false)
    ensures LastWins(AllStored(sw)) == LastWins(sw)
    decreases |sw|
  {
    if sw != [] {
      var last := |sw| - 1;
      var before, t := sw[..last], sw[last];
      LastWinsStored(before);
      assert Key(Stored(t)) == Key(t) && Value(Stored(t)) == Value(t) by { StoredTwice(t); }
      AllStoredSnoc(before, t, sw);
      LastWinsSnoc(AllStored(sw), AllStored(before), Stored(t));
      LastWinsSnoc(sw, before, t);
    }
  }

  lemma AllStoredSnoc(before: seq<string>, t: string, all: seq<string>)
    requires all == before + [t]
    ensures AllStored(all) == AllStored(before) + [Stored(t)]
  {}

  lemma LastWinsSnoc(all: seq<string>, before: seq<string>, t: string)
    requires all == before + [t]
    ensures LastWins(all) == LastWins(before)[Key(t) := Value(t)]
  {
    assert all[..|all| - 1] == before;
  }

  lemma StoredAgain(sw: seq<string>)
    requires forall k :: 0 <= k < |sw| ==> IsSwitch(sw[k], false)
    ensures AllStored(AllStored(sw)) == AllStored(sw)
  {
    forall k | 0 <= k < |sw| ensures Stored(Stored(sw[k])) == Stored(sw[k]) {
      StoredTwice(sw[k]);
    }
  }

  /** Tokens that hold no switch: what looks like one follows a terminator. */
  predicate Inert(o: seq<string>) {
    o != [] ==> Inert(o[..|o| - 1]) && (IsSwitch(o[|o| - 1], false) ==> TERMINATOR in o[..|o| - 1])
  }

  /** The arguments never turn back into switches. */
  lemma {:induction false} OthersAreInert(tokens: seq<string>)
    ensures TERMINATOR in tokens ==> TERMINATOR in Others(tokens)
    ensures Inert(Others(tokens))
    decreases |tokens|
  {
    if tokens != [] {
      var last := |tokens| - 1;
      var a, t := tokens[..last], tokens[last];
      OthersAreInert(a);
      assert tokens == a + [t];
      TokensSnoc(a, t);
      assert !IsSwitch(TERMINATOR, false);
      if TERMINATOR !in tokens && IsSwitch(t, false) {
        assert Others(a) + [] == Others(a);
      } else {
        InertSnoc(Others(a), t);
      }
    }
  }

  lemma InertSnoc(o: seq<string>, t: string)
    requires Inert(o) && (IsSwitch(t, false) ==> TERMINATOR in o)
    ensures Inert(o + [t])
  {
    assert (o + [t])[..|o|] == o;
  }

  /** Inert tokens after any others add nothing to the switches. */
  lemma {:induction false} SwitchesThenInert(a: seq<string>, o: seq<string>)
    requires Inert(o)
    ensures Switches(a + o) == Switches(a) && Others(a + o) == Others(a) + o
    decreases |o|
  {
    if o == [] {
      assert a + o == a;
    } else {
      var last := |o| - 1;
      var front, t := o[..last], o[last];
      SwitchesThenInert(a, front);
      SnocLast(a, front, t, o);
      OneMoreOther(a + front, t);
      SnocLast(Others(a), front, t, o);
    }
  }

  lemma SnocLast(a: seq<string>, front: seq<string>, t: string, o: seq<string>)
    requires o != [] && front == o[..|o| - 1] && t == o[|o| - 1]
    ensures a + o == a + front + [t]
  {}

  lemma OneMoreOther(tokens: seq<string>, t: string)
    requires IsSwitch(t, false) ==> TERMINATOR in tokens
    ensures Switches(tokens + [t]) == Switches(tokens) && Others(tokens + [t]) == Others(tokens) + [t]
  {
    TokensSnoc(tokens, t);
    assert TERMINATOR in tokens ==> TERMINATOR in tokens + [t];
    assert Switches(tokens) + [] == Switches(tokens);
  }

  lemma {:induction false} AllSwitches(a: seq<string>)
    ensures |Switches(a)| <= |a|
    ensures |Switches(a)| == |a| <==> AllAre(a)
    ensures |Switches(a)| == |a| ==> Switches(a) == a && Others(a) == []
    decreases |a|
  {
    if a != [] {
      var last := |a| - 1;
      var b, t := a[..last], a[last];
      AllSwitches(b);
      assert a == b + [t];
      TokensSnoc(b, t);
      AllOf(a, b, t);
      if AllAre(a) { NoTerminator(a); }
    }
  }

  predicate AllAre(a: seq<string>) {
    forall k :: 0 <= k < |a| ==> IsSwitch(a[k], false)
  }

  lemma AllOf(a: seq<string>, b: seq<string>, t: string)
    requires a == b + [t]
    ensures AllAre(a) <==> AllAre(b) && IsSwitch(t, false)
  {
    assert a[|b|] == t && forall k :: 0 <= k < |b| ==> a[k] == b[k];
  }

  lemma NoTerminator(a: seq<string>)
    requires forall k :: 0 <= k < |a| ==> IsSwitch(a[k], false)
    ensures TERMINATOR !in a
  {
    assert !IsSwitch(TERMINATOR, false);
  }

  lemma TrimsOfTrimmed(a: seq<string>)
    ensures Trims(a) == a <==> forall k :: 0 <= k < |a| ==> Trimmed(a[k])
  {
    if forall k :: 0 <= k < |a| ==> Trimmed(a[k]) {
    } else {
      var k :| 0 <= k < |a| && !Trimmed(a[k]);
      assert Trims(a)[k] != a[k];
    }
  }

  lemma {:induction false} OthersAreTokens(tokens: seq<string>)
    requires forall k :: 0 <= k < |tokens| ==> Trimmed(tokens[k])
    ensures forall k :: 0 <= k < |Others(tokens)| ==> Trimmed(Others(tokens)[k])
    decreases |tokens|
  {
    if tokens != [] { OthersAreTokens(tokens[..|tokens| - 1]); }
  }

  /** The second parse sees the stored switches, trimmed, then the arguments. */
  lemma SecondParse(argv: seq<string>)
    requires argv != []
    ensures var tokens := Tokens(argv); var n := AllStored(Switches(tokens)); var again := Trims(Parsed(argv).argv[1..]);
      && again == Trims(n) + Others(tokens)
      && Switches(again) == Switches(Trims(n))
      && Others(again) == Others(Trims(n)) + Others(tokens)
  {
    var tokens := Tokens(argv);
    var n, o := AllStored(Switches(tokens)), Others(tokens);
    ParsedTail(Trim(argv[0]), n, o);
    OthersAreTokens(tokens);
    TrimsAppend(n, o);
    OthersAreInert(tokens);
    SwitchesThenInert(Trims(n), o);
  }

  lemma ParsedTail(program: string, n: seq<string>, o: seq<string>)
    ensures ([program] + n + o)[1..] == n + o
  {}

  lemma TrimsAppend(n: seq<string>, o: seq<string>)
    requires forall k :: 0 <= k < |o| ==> Trimmed(o[k])
    ensures Trims(n + o) == Trims(n) + o
  {}

  /** Parsing the parsed argv again changes nothing exactly when every switch
      token stays a switch, and trimmed, once a useless '=' is dropped. */
  lemma FixedPoint(argv: seq<string>)
    ensures var sw := Switches(Tokens(argv));
      Parsed(Parsed(argv).argv) == Parsed(argv) <==> forall k :: 0 <= k < |sw| ==> Settled(sw[k])
  {
    var sw := Switches(Tokens(argv));
    if argv == [] {
      assert Tokens(Parsed(argv).argv) == [];
    } else if forall k :: 0 <= k < |sw| ==> Settled(sw[k]) {
      SettledIsFixed(argv, sw);
    } else if Parsed(Parsed(argv).argv) == Parsed(argv) {
      FixedIsSettled(argv, sw);
      assert false;
    }
  }

  /** Not every argv is a fixed point: the switch "--=" is stored as "--", which
      is an argument when parsed again. */
  lemma ParsingAgainDiffers()
    ensures Parsed(Parsed(["p", "--="]).argv) != Parsed(["p", "--="])
  {
    var argv, t := ["p", "--="], "--=";
    assert argv[1..] == [t];
    assert Tokens(argv) == [t];
    assert [t][..0] == [] && [t][..1] == [t];
    assert IsSwitchAt([t], 0);
    assert Switches([t]) == [t];
    DashesSettle(t);
    FixedPoint(argv);
    assert !Settled(Switches(Tokens(argv))[0]);
  }

  lemma DashesSettle(t: string)
    requires t == "--="
    ensures !Settled(t)
  {
    assert t[0] == '-' && t[1] == '-' && t[2] == '=';
    assert EqualsAt(t) == 2;
    assert Name(t) == "--" && Value(t) == "";
  }

  lemma SettledIsFixed(argv: seq<string>, sw: seq<string>)
    requires argv != [] && sw == Switches(Tokens(argv)) && forall k :: 0 <= k < |sw| ==> Settled(sw[k])
    ensures Parsed(Parsed(argv).argv) == Parsed(argv)
  {
    var tokens, n := Tokens(argv), AllStored(sw);
    NothingLost(tokens);
    SecondParse(argv);
    SettledAgain(sw, n);
    assert [] + Others(tokens) == Others(tokens);
    ParsedFrom(Parsed(argv).argv, sw, Others(tokens));
  }

  /** Settled switches, stored, are parsed as they are. */
  lemma SettledAgain(sw: seq<string>, n: seq<string>)
    requires n == AllStored(sw) && forall k :: 0 <= k < |sw| ==> IsSwitch(sw[k], false) && Settled(sw[k])
    ensures Trims(n) == n && Switches(n) == n && Others(n) == []
    ensures AllStored(n) == n && LastWins(n) == LastWins(sw)
  {
    TrimsOfTrimmed(n);
    AllSwitches(n);
    LastWinsStored(sw);
    StoredAgain(sw);
  }

  /** A parse in terms of the switches and arguments it found. */
  lemma ParsedFrom(argv: seq<string>, sw: seq<string>, o: seq<string>)
    requires argv != [] && Trimmed(argv[0])
    requires var t := Trims(argv[1..]); AllStored(Switches(t)) == AllStored(sw) && Others(t) == o && LastWins(Switches(t)) == LastWins(sw)
    ensures Parsed(argv) == Line([argv[0]] + AllStored(sw) + o, LastWins(sw), 1 + |sw|)
  {
    assert |Switches(Trims(argv[1..]))| == |AllStored(sw)|;
  }

  lemma FixedIsSettled(argv: seq<string>, sw: seq<string>)
    requires argv != [] && sw == Switches(Tokens(argv))
    requires Parsed(Parsed(argv).argv) == Parsed(argv)
    ensures forall k :: 0 <= k < |sw| ==> Settled(sw[k])
  {
    var tokens, n := Tokens(argv), AllStored(sw);
    var t := Trims(n);
    SameSwitches(argv, n, t);
    AllSwitches(t);
    forall k | 0 <= k < |sw| ensures Settled(sw[k]) {
      assert AllStored(t)[k] == n[k];
      SettledAt(sw[k], t[k]);
    }
  }

  lemma SameSwitches(argv: seq<string>, n: seq<string>, t: seq<string>)
    requires argv != [] && n == AllStored(Switches(Tokens(argv))) && t == Trims(n)
    requires Parsed(Parsed(argv).argv) == Parsed(argv)
    ensures |Switches(t)| == |n| && AllStored(Switches(t)) == n
  {
    SecondParse(argv);
    var once, twice := Parsed(argv), Parsed(Parsed(argv).argv);
    assert twice.beginArgs == once.beginArgs;
    MiddleOf(Trim(argv[0]), n, Others(Tokens(argv)));
    MiddleOf(Trim(once.argv[0]), AllStored(Switches(t)), Others(t) + Others(Tokens(argv)));
  }

  lemma MiddleOf(program: string, n: seq<string>, o: seq<string>)
    ensures ([program] + n + o)[1..1 + |n|] == n
  {}

  lemma SettledAt(x: string, t: string)
    requires t == Trim(Stored(x)) && IsSwitch(t, false) && Stored(t) == Stored(x)
    ensures Settled(x)
  {
    StoredTwice(t);
    TrimKeepsLength(Stored(x));
  }

  lemma {:induction false} TrimKeepsLength(s: string)
    ensures |Trim(s)| == |s| ==> Trim(s) == s
  {
    if s != "" && Space(s[0]) {
    } else if s != "" && Space(s[|s| - 1]) {
    }
  }

  // ----- the arguments

  /** The arguments are the non-switches before the terminator and everything
      after it; the terminator itself is dropped. */
  lemma {:induction false} ArgsMeaning(tokens: seq<string>, m: nat)
    requires m < |tokens| && tokens[m] == TERMINATOR && TERMINATOR !in tokens[..m]
    ensures DropTerminator(Others(tokens)) == Others(tokens[..m]) + tokens[m + 1..]
  {
    OthersAfterTerminator(tokens, m, |tokens|);
    assert tokens[..|tokens|] == tokens && tokens[m..] == [TERMINATOR] + tokens[m + 1..];
    OthersAvoid(tokens[..m]);
    DropAfter(Others(tokens[..m]), tokens[m + 1..]);
    assert Others(tokens) == Others(tokens[..m]) + ([TERMINATOR] + tokens[m + 1..]);
  }

  /** Without a terminator they are all that is after the boundary. */
  lemma {:induction false} NoTerminatorToDrop(args: seq<string>)
    requires "--" !in args
    ensures DropTerminator(args) == args
    decreases |args|
  {
    if args != [] { NoTerminatorToDrop(args[1..]); }
  }

  lemma ArgsWithoutTerminator(tokens: seq<string>)
    requires "--" !in tokens
    ensures DropTerminator(Others(tokens)) == Others(tokens)
  {
    OthersAvoid(tokens);
    NoTerminatorToDrop(Others(tokens));
  }

  lemma {:induction false} OthersAfterTerminator(tokens: seq<string>, m: nat, n: nat)
    requires m < |tokens| && tokens[m] == TERMINATOR && m <= n <= |tokens|
    ensures Others(tokens[..n]) == Others(tokens[..m]) + tokens[m..n]
    decreases n
  {
    if n > m {
      OthersAfterTerminator(tokens, m, n - 1);
      var t := tokens[..n];
      assert t[..n - 1] == tokens[..n - 1] && t[..n] == t && t[m] == TERMINATOR;
      assert tokens[m..n] == tokens[m..n - 1] + [tokens[n - 1]];
    }
  }

  lemma {:induction false} OthersAvoid(tokens: seq<string>)
    requires TERMINATOR !in tokens
    ensures TERMINATOR !in Others(tokens)
    decreases |tokens|
  {
    if tokens != [] { OthersAvoid(tokens[..|tokens| - 1]); }
  }

  lemma {:induction false} DropAfter(a: seq<string>, rest: seq<string>)
    requires TERMINATOR !in a
    ensures DropTerminator(a + ([TERMINATOR] + rest)) == a + rest
    decreases |a|
  {
    var all := a + ([TERMINATOR] + rest);
    if a == [] {
      assert all[1..] == rest;
    } else {
      assert all[1..] == a[1..] + ([TERMINATOR] + rest);
      DropAfter(a[1..], rest);
    }
  }
}
