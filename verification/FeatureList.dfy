/** Feature overrides: the comma separated command-line lists, the rule that
    the first registration of a name wins, and the printer that undoes the
    parser. */
module FeatureLists {
  import opened Basics
  import opened Whitespace

  datatype OverrideState = UseDefault | Disable | Enable

  datatype Trial = Trial(name: string, id: nat)

  datatype Entry = Entry(state: OverrideState, trial: Option<Trial>, byTrial: bool)

  /** FieldTrialList: the registered trials by name. */
  type Trials = map<string, Trial>

  function FindTrial(trials: Trials, name: string): Option<Trial> {
    if name in trials then Some(trials[name]) else None
  }

  // ----- splitting a list

  function IndexOf(s: string, c: char): (k: nat)
    ensures k <= |s|
    ensures forall j :: 0 <= j < k ==> s[j] != c
    ensures k < |s| ==> s[k] == c
  {
    if s == "" || s[0] == c then 0 else 1 + IndexOf(s[1..], c)
  }

  function NonEmpty(s: string): seq<string> {
    if s == "" then [] else [s]
  }

  /** SplitFeatureListString: at commas, trimmed, without empty pieces. */
  function Split(s: string): seq<string>
    decreases |s|, 1
  {
    SplitAt(s, IndexOf(s, ','))
  }

  function SplitAt(s: string, k: nat): seq<string>
    requires k <= |s|
    decreases |s|, 0
  {
    NonEmpty(Trim(s[..k])) + if k < |s| then Split(s[k + 1..]) else []
  }

  method SplitFeatureListString(input: string) returns (result: seq<string>)
    ensures result == Split(input)
  {
    result := [];
    var start := 0;
    var more := true;
    assert input[0..] == input;
    while more
      invariant start <= |input|
      invariant result + Unread(input, start, more) == Split(input)
      decreases more, |input| - start
    {
      var piece, end := NextPiece(input, start);
      Regroup(result, piece, Unread(input, if end < |input| then end + 1 else end, end < |input|));
      result := result + piece;
      more := end < |input|;
      start := if more then end + 1 else end;
    }
    assert result + [] == result;
  }

  /** What is still to be split off. */
  ghost function Unread(s: string, start: nat, more: bool): seq<string>
    requires start <= |s|
  {
    if more then Split(s[start..]) else []
  }

  /** The piece up to the next comma: none if only whitespace. */
  method NextPiece(s: string, start: nat) returns (piece: seq<string>, end: nat)
    requires start <= |s|
    ensures start <= end <= |s|
    ensures Split(s[start..]) == piece + Unread(s, if end < |s| then end + 1 else end, end < |s|)
  {
    end := FindFrom(s, ',', start);
    SplitStep(s, start, end);
    var text := TrimWhitespace(s[start..end]);
    piece := if text == "" then [] else [text];
  }

  method FindFrom(s: string, c: char, start: nat) returns (end: nat)
    requires start <= |s|
    ensures start <= end <= |s| && end - start == IndexOf(s[start..], c)
  {
    end := start;
    while end < |s| && s[end] != c
      invariant start <= end <= |s|
      invariant forall j :: start <= j < end ==> s[j] != c
    {
      end := end + 1;
    }
    IndexOfIs(s[start..], c, end - start);
  }

  lemma SplitStep(s: string, start: nat, end: nat)
    requires start <= end <= |s| && end - start == IndexOf(s[start..], ',')
    ensures Split(s[start..]) == NonEmpty(Trim(s[start..end])) + if end < |s| then Split(s[end + 1..]) else []
  {
    assert s[start..][..end - start] == s[start..end];
    assert end < |s| ==> s[start..][end - start + 1..] == s[end + 1..];
  }

  lemma {:induction false} IndexOfIs(s: string, c: char, k: nat)
    requires k <= |s| && (k < |s| ==> s[k] == c) && forall j :: 0 <= j < k ==> s[j] != c
    ensures IndexOf(s, c) == k
  {}

  // ----- registering

  datatype Registration = Registration(name: string, state: OverrideState, trial: Option<Trial>)

  /** RegisterOverride's reading of a leading '*'. */
  function Starred(name: string, state: OverrideState, trial: Option<Trial>): Registration {
    if "*" <= name then Registration(name[1..], UseDefault, trial) else Registration(name, state, trial)
  }

  /** One list entry: Name or Name<Trial. */
  function Read(value: string, state: OverrideState, trials: Trials): Registration {
    var k := IndexOf(value, '<');
    if k < |value| then Starred(value[..k], state, FindTrial(trials, value[k + 1..])) else Starred(value, state, None)
  }

  function ReadAll(values: seq<string>, state: OverrideState, trials: Trials): seq<Registration> {
    seq(|values|, k requires 0 <= k < |values| => Read(values[k], state, trials))
  }

  type Overrides = map<string, Entry>

  /** std::map::insert: an existing entry stays. */
  function Insert(m: Overrides, r: Registration): Overrides {
    if r.name in m then m else m[r.name := Entry(r.state, r.trial, r.trial.Some?)]
  }

  function InsertAll(m: Overrides, rs: seq<Registration>): Overrides {
    if rs == [] then m else Insert(InsertAll(m, rs[..|rs| - 1]), rs[|rs| - 1])
  }

  lemma InsertAllStep(m: Overrides, rs: seq<Registration>, k: nat)
    requires k < |rs|
    ensures InsertAll(m, rs[..k + 1]) == Insert(InsertAll(m, rs[..k]), rs[k])
  {
    assert rs[..k + 1][..k] == rs[..k];
  }

  /** The command line: all of the disable list, then all of the enable list. */
  function CommandLineRegistrations(enable: string, disable: string, trials: Trials): seq<Registration> {
    ReadAll(Split(disable), Disable, trials) + ReadAll(Split(enable), Enable, trials)
  }

  // ----- printing

  function Show(name: string, e: Entry): string {
    (if e.state == UseDefault then "*" else "") + name + if e.trial.Some? then "<" + e.trial.value.name else ""
  }

  function Join(list: string, text: string): string {
    if list == "" then text else list + "," + text
  }

  function JoinAll(texts: seq<string>): string {
    if texts == [] then "" else Join(JoinAll(texts[..|texts| - 1]), texts[|texts| - 1])
  }

  predicate Skipped(e: Entry, commandLineOnly: bool) {
    commandLineOnly && (e.trial.Some? || e.state == UseDefault)
  }

  /** The texts printed to one of the two lists, in iteration order. */
  function TextsFor(m: Overrides, order: seq<string>, disabled: bool, commandLineOnly: bool): seq<string>
    requires forall n :: n in order ==> n in m
  {
    if order == [] then []
    else
      var n := order[|order| - 1];
      TextsFor(m, order[..|order| - 1], disabled, commandLineOnly)
      + if (m[n].state == Disable) == disabled && !Skipped(m[n], commandLineOnly) then [Show(n, m[n])] else []
  }

  class FeatureList {
    var overrides: Overrides
    var initialized: bool

    constructor ()
      ensures overrides == map[] && !initialized
    {
      overrides, initialized := map[], false;
    }

    method RegisterOverride(name: string, state: OverrideState, trial: Option<Trial>)
      requires !initialized
      modifies this`overrides
      ensures overrides == Insert(old(overrides), Starred(name, state, trial))
    {
      var n, s := name, state;
      if "*" <= n {
        n, s := n[1..], UseDefault;
      }
      if n !in overrides {
        overrides := overrides[n := Entry(s, trial, trial.Some?)];
      }
    }

    method RegisterOverridesFromCommandLine(list: string, state: OverrideState, trials: Trials)
      requires !initialized
      modifies this`overrides
      ensures overrides == InsertAll(old(overrides), ReadAll(Split(list), state, trials))
    {
      var values := SplitFeatureListString(list);
      ghost var rs := ReadAll(values, state, trials);
      var k := 0;
      while k < |values|
        invariant k <= |values| && overrides == InsertAll(old(overrides), rs[..k])
      {
        InsertAllStep(old(overrides), rs, k);
        RegisterValue(values[k], state, trials);
        k := k + 1;
      }
      assert rs[..k] == rs;
    }

    /** One entry of a list. */
    method RegisterValue(value: string, state: OverrideState, trials: Trials)
      requires !initialized
      modifies this`overrides
      ensures overrides == Insert(old(overrides), Read(value, state, trials))
    {
      var pos := FindFrom(value, '<', 0);
      assert value[0..] == value;
      if pos < |value| {
        RegisterOverride(value[..pos], state, FindTrial(trials, value[pos + 1..]));
      } else {
        RegisterOverride(value, state, None);
      }
    }

    method InitializeFromCommandLine(enable: string, disable: string, trials: Trials)
      requires !initialized
      modifies this`overrides
      ensures overrides == InsertAll(old(overrides), CommandLineRegistrations(enable, disable, trials))
    {
      RegisterOverridesFromCommandLine(disable, Disable, trials);
      RegisterOverridesFromCommandLine(enable, Enable, trials);
      InsertAllAppend(old(overrides), ReadAll(Split(disable), Disable, trials), ReadAll(Split(enable), Enable, trials));
    }

    /** Adds a trial for reporting; one that is already there stays. */
    method AssociateReportingFieldTrial(name: string, trial: Trial)
      requires name in overrides
      modifies this`overrides
      ensures overrides == Reported(old(overrides), name, trial)
      ensures overrides.Keys == old(overrides).Keys && forall n :: n in overrides && n != name ==> overrides[n] == old(overrides)[n]
      ensures var was := old(overrides)[name];
        overrides[name] == if was.trial == None then was.(trial := Some(trial)) else was
    {
      if overrides[name].trial == None {
        overrides := overrides[name := overrides[name].(trial := Some(trial))];
      }
    }

    method IsFeatureEnabled(name: string, enabledByDefault: bool) returns (r: bool)
      requires initialized
      ensures r == Enabled(overrides, name, enabledByDefault)
    {
      if name in overrides && overrides[name].state != UseDefault {
        return overrides[name].state == Enable;
      }
      return enabledByDefault;
    }

    /** GetFeatureOverridesImpl; `order` is the map's iteration order. */
    method GetFeatureOverrides(order: seq<string>, commandLineOnly: bool) returns (enable: string, disable: string)
      requires initialized && forall n :: n in order ==> n in overrides
      ensures enable == JoinAll(TextsFor(overrides, order, false, commandLineOnly))
      ensures disable == JoinAll(TextsFor(overrides, order, true, commandLineOnly))
    {
      enable, disable := "", "";
      var k := 0;
      while k < |order|
        invariant k <= |order|
        invariant enable == JoinAll(TextsFor(overrides, order[..k], false, commandLineOnly))
        invariant disable == JoinAll(TextsFor(overrides, order[..k], true, commandLineOnly))
      {
        var e := overrides[order[k]];
        TextsForStep(overrides, order, k, false, commandLineOnly);
        TextsForStep(overrides, order, k, true, commandLineOnly);
        if !Skipped(e, commandLineOnly) {
          var text := PrintEntry(order[k], e);
          if e.state == Disable {
            disable := Join(disable, text);
          } else {
            enable := Join(enable, text);
          }
        }
        k := k + 1;
      }
      assert order[..k] == order;
    }
  }

  /** One entry's text, built piece by piece. */
  method PrintEntry(name: string, e: Entry) returns (text: string)
    ensures text == Show(name, e)
  {
    text := if e.state == UseDefault then "*" else "";
    text := text + name;
    if e.trial.Some? {
      text := text + ("<" + e.trial.value.name);
    } else {
      assert text + "" == text;
    }
  }

  lemma TextsForStep(m: Overrides, order: seq<string>, k: nat, disabled: bool, commandLineOnly: bool)
    requires k < |order| && forall n :: n in order ==> n in m
    ensures
      var before, e := JoinAll(TextsFor(m, order[..k], disabled, commandLineOnly)), m[order[k]];
      JoinAll(TextsFor(m, order[..k + 1], disabled, commandLineOnly)) ==
        if (e.state == Disable) == disabled && !Skipped(e, commandLineOnly) then Join(before, Show(order[k], e)) else before
  {
    assert order[..k + 1][..k] == order[..k];
    JoinAllSnoc(TextsFor(m, order[..k], disabled, commandLineOnly), Show(order[k], m[order[k]]));
  }

  lemma JoinAllSnoc(texts: seq<string>, t: string)
    ensures JoinAll(texts + [t]) == Join(JoinAll(texts), t)
    ensures texts + [] == texts
  {
    assert (texts + [t])[..|texts|] == texts;
  }

  lemma {:induction false} InsertAllAppend(m: Overrides, a: seq<Registration>, b: seq<Registration>)
    ensures InsertAll(m, a + b) == InsertAll(InsertAll(m, a), b)
    decreases |b|
  {
    if b == [] {
      assert a + b == a;
    } else {
      assert (a + b)[..|a + b| - 1] == a + b[..|b| - 1];
      InsertAllAppend(m, a, b[..|b| - 1]);
    }
  }

  function Reported(m: Overrides, name: string, trial: Trial): Overrides {
    if name in m && m[name].trial == None then m[name := m[name].(trial := Some(trial))] else m
  }

  predicate Enabled(m: Overrides, name: string, enabledByDefault: bool) {
    if name in m && m[name].state != UseDefault then m[name].state == Enable else enabledByDefault
  }

  // ----- the first registration wins

  /** The state of the first registration of `name`, if there is one. */
  function FirstState(rs: seq<Registration>, name: string): Option<OverrideState> {
    if rs == [] then None else if rs[0].name == name then Some(rs[0].state) else FirstState(rs[1..], name)
  }

  function StateOf(m: Overrides, name: string): Option<OverrideState> {
    if name in m then Some(m[name].state) else None
  }

  lemma {:induction false} FirstStateSnoc(rs: seq<Registration>, r: Registration, name: string)
    ensures FirstState(rs + [r], name) ==
      if FirstState(rs, name).Some? then FirstState(rs, name) else if r.name == name then Some(r.state) else None
    decreases |rs|
  {
    if rs == [] {
      assert (rs + [r])[1..] == [];
    } else {
      assert (rs + [r])[1..] == rs[1..] + [r];
      FirstStateSnoc(rs[1..], r, name);
    }
  }

  /** What may follow the command line before the list is finalised. */
  datatype Op = RegisterTrial(name: string, state: OverrideState, trial: Trial) | Report(name: string, trial: Trial)

  function After(m: Overrides, ops: seq<Op>): Overrides {
    if ops == [] then m
    else
      var before := After(m, ops[..|ops| - 1]);
      match ops[|ops| - 1]
      case RegisterTrial(n, s, t) => Insert(before, Starred(n, s, Some(t)))
      case Report(n, t) => Reported(before, n, t)
  }

  function TrialRegistrations(ops: seq<Op>): seq<Registration> {
    if ops == [] then []
    else
      var last := ops[|ops| - 1];
      TrialRegistrations(ops[..|ops| - 1])
      + if last.RegisterTrial? then [Starred(last.name, last.state, Some(last.trial))] else []
  }

  lemma {:induction false} InsertAllState(rs: seq<Registration>, name: string)
    ensures StateOf(InsertAll(map[], rs), name) == FirstState(rs, name)
    decreases |rs|
  {
    if rs != [] {
      var last := |rs| - 1;
      InsertAllState(rs[..last], name);
      FirstStateSnoc(rs[..last], rs[last], name);
      assert rs == rs[..last] + [rs[last]];
    }
  }

  lemma {:induction false} AfterState(m: Overrides, rs: seq<Registration>, ops: seq<Op>, name: string)
    requires StateOf(m, name) == FirstState(rs, name)
    ensures StateOf(After(m, ops), name) == FirstState(rs + TrialRegistrations(ops), name)
    decreases |ops|
  {
    if ops == [] {
      assert rs + [] == rs;
    } else {
      var last := ops[|ops| - 1];
      var before := TrialRegistrations(ops[..|ops| - 1]);
      AfterState(m, rs, ops[..|ops| - 1], name);
      if last.RegisterTrial? {
        var r := Starred(last.name, last.state, Some(last.trial));
        FirstStateSnoc(rs + before, r, name);
        Regroup(rs, before, [r]);
      } else {
        assert before + [] == before;
      }
    }
  }

  lemma FirstStateDecides(enable: string, disable: string, trials: Trials, ops: seq<Op>, name: string, enabledByDefault: bool)
    ensures
      var m := After(InsertAll(map[], CommandLineRegistrations(enable, disable, trials)), ops);
      var first := FirstState(CommandLineRegistrations(enable, disable, trials) + TrialRegistrations(ops), name);
      Enabled(m, name, enabledByDefault) <==> first == Some(Enable) || (first != Some(Disable) && enabledByDefault)
  {
    var rs := CommandLineRegistrations(enable, disable, trials);
    InsertAllState(rs, name);
    AfterState(InsertAll(map[], rs), rs, ops, name);
  }

  // ----- the same, list by list and by characters

  /** The piece of a list is about `name`: the name, after a '*' if it is starred,
      and then nothing or '<' and anything. */
  predicate Names(piece: string, name: string, starred: bool) {
    var head := if starred then "*" + name else name;
    && '<' !in name && (!starred ==> name == "" || name[0] != '*')
    && head <= piece && (|piece| == |head| || piece[|head|] == '<')
  }

  ghost predicate NamedFirst(pieces: seq<string>, k: nat, name: string, starred: bool) {
    k < |pieces| && Names(pieces[k], name, starred) && forall j, b :: 0 <= j < k ==> !Names(pieces[j], name, b)
  }

  ghost predicate Unnamed(pieces: seq<string>, name: string) {
    forall j, b :: 0 <= j < |pieces| ==> !Names(pieces[j], name, b)
  }

  lemma StarredIff(head: string, state: OverrideState, trial: Option<Trial>, name: string, starred: bool)
    requires state != UseDefault
    ensures var r := Starred(head, state, trial);
      r.name == name && r.state == (if starred then UseDefault else state) <==>
        head == (if starred then "*" + name else name) && (!starred ==> name == "" || name[0] != '*')
  {
    if "*" <= head { assert head == "*" + head[1..]; }
    if starred && head == "*" + name { assert head[1..] == name; }
  }

  /** What a piece is read as, for either list. */
  lemma NamesIff(piece: string, state: OverrideState, trials: Trials, name: string, starred: bool)
    requires state != UseDefault
    ensures var r := Read(piece, state, trials);
      r.name == name && r.state == (if starred then UseDefault else state) <==> Names(piece, name, starred)
  {
    var k := IndexOf(piece, '<');
    var head := piece[..k];
    assert k == |piece| ==> head == piece;
    StarredIff(head, state, Read(piece, state, trials).trial, name, starred);
    var wanted := if starred then "*" + name else name;
    assert '<' !in head;
    if head == wanted {
      assert '<' !in name by { if starred { assert wanted[1..] == name; } }
    }
    if Names(piece, name, starred) {
      assert forall j :: 0 <= j < |wanted| ==> piece[j] == wanted[j] && wanted[j] != '<';
      IndexOfIs(piece, '<', |wanted|);
      assert head == wanted;
    }
  }

  lemma {:induction false} FirstStateConcat(a: seq<Registration>, b: seq<Registration>, name: string)
    ensures FirstState(a + b, name) == if FirstState(a, name).Some? then FirstState(a, name) else FirstState(b, name)
    decreases |a|
  {
    if a == [] {
      assert a + b == b;
    } else {
      assert (a + b)[1..] == a[1..] + b;
      FirstStateConcat(a[1..], b, name);
    }
  }

  lemma {:induction false} UnnamedState(pieces: seq<string>, state: OverrideState, trials: Trials, name: string)
    requires state != UseDefault && Unnamed(pieces, name)
    ensures FirstState(ReadAll(pieces, state, trials), name) == None
    decreases |pieces|
  {
    if pieces != [] {
      var r := Read(pieces[0], state, trials);
      NamesIff(pieces[0], state, trials, name, r.state == UseDefault);
      assert !Names(pieces[0], name, r.state == UseDefault);
      assert r.state == UseDefault || r.state == state;
      assert ReadAll(pieces, state, trials)[1..] == ReadAll(pieces[1..], state, trials);
      UnnamedState(pieces[1..], state, trials, name);
    }
  }

  lemma {:induction false} NamedState(pieces: seq<string>, state: OverrideState, trials: Trials, name: string, k: nat, starred: bool)
    requires state != UseDefault && NamedFirst(pieces, k, name, starred)
    ensures FirstState(ReadAll(pieces, state, trials), name) == Some(if starred then UseDefault else state)
    decreases k
  {
    var r := Read(pieces[0], state, trials);
    if k == 0 {
      NamesIff(pieces[0], state, trials, name, starred);
    } else {
      NamesIff(pieces[0], state, trials, name, r.state == UseDefault);
      assert !Names(pieces[0], name, r.state == UseDefault);
      assert r.state == UseDefault || r.state == state;
      assert ReadAll(pieces, state, trials)[1..] == ReadAll(pieces[1..], state, trials);
      forall j, b | 0 <= j < k - 1 ensures !Names(pieces[1..][j], name, b) {
        assert pieces[1..][j] == pieces[j + 1];
      }
      NamedState(pieces[1..], state, trials, name, k - 1, starred);
    }
  }

  /** A trial's registration is about `name`. */
  predicate TrialNames(op: Op, name: string, starred: bool) {
    op.RegisterTrial? && if starred then op.name == "*" + name else op.name == name && (name == "" || name[0] != '*')
  }

  ghost predicate TrialFirst(ops: seq<Op>, k: nat, name: string, starred: bool) {
    k < |ops| && TrialNames(ops[k], name, starred) && forall j, b :: 0 <= j < k ==> !TrialNames(ops[j], name, b)
  }

  ghost predicate NoTrial(ops: seq<Op>, name: string) {
    forall j, b :: 0 <= j < |ops| ==> !TrialNames(ops[j], name, b)
  }

  lemma TrialNamesIff(op: Op, name: string)
    requires op.RegisterTrial?
    ensures var r := Starred(op.name, op.state, Some(op.trial));
      && (r.name == name <==> TrialNames(op, name, true) || TrialNames(op, name, false))
      && (TrialNames(op, name, true) ==> r.state == UseDefault)
      && (TrialNames(op, name, false) ==> r.state == op.state)
  {
    if "*" <= op.name { assert op.name == "*" + op.name[1..]; }
    if op.name == "*" + name { assert op.name[1..] == name; }
  }

  lemma {:induction false} NoTrialState(ops: seq<Op>, name: string)
    requires NoTrial(ops, name)
    ensures FirstState(TrialRegistrations(ops), name) == None
    decreases |ops|
  {
    if ops != [] {
      var before, last := ops[..|ops| - 1], ops[|ops| - 1];
      forall j, b | 0 <= j < |before| ensures !TrialNames(before[j], name, b) {
        assert before[j] == ops[j];
      }
      NoTrialState(before, name);
      if last.RegisterTrial? {
        TrialNamesIff(last, name);
        FirstStateSnoc(TrialRegistrations(before), Starred(last.name, last.state, Some(last.trial)), name);
      } else {
        assert TrialRegistrations(before) + [] == TrialRegistrations(before);
      }
    }
  }

  lemma {:induction false} TrialState(ops: seq<Op>, name: string, k: nat, starred: bool)
    requires TrialFirst(ops, k, name, starred)
    ensures FirstState(TrialRegistrations(ops), name) == Some(if starred then UseDefault else ops[k].state)
    decreases |ops|
  {
    var before, last := ops[..|ops| - 1], ops[|ops| - 1];
    if k == |ops| - 1 {
      forall j, b | 0 <= j < |before| ensures !TrialNames(before[j], name, b) {
        assert before[j] == ops[j];
      }
      NoTrialState(before, name);
      TrialNamesIff(last, name);
    } else {
      assert before[k] == ops[k];
      forall j, b | 0 <= j < k ensures !TrialNames(before[j], name, b) {
        assert before[j] == ops[j];
      }
      TrialState(before, name, k, starred);
    }
    if last.RegisterTrial? {
      FirstStateSnoc(TrialRegistrations(before), Starred(last.name, last.state, Some(last.trial)), name);
    } else {
      assert TrialRegistrations(before) + [] == TrialRegistrations(before);
    }
  }

  /** Which registration decides, list by list. */
  lemma FirstStateByList(enable: string, disable: string, trials: Trials, ops: seq<Op>, name: string)
    ensures
      var first := FirstState(CommandLineRegistrations(enable, disable, trials) + TrialRegistrations(ops), name);
      var off, on := FirstState(ReadAll(Split(disable), Disable, trials), name), FirstState(ReadAll(Split(enable), Enable, trials), name);
      first == if off.Some? then off else if on.Some? then on else FirstState(TrialRegistrations(ops), name)
  {
    var off, on := ReadAll(Split(disable), Disable, trials), ReadAll(Split(enable), Enable, trials);
    FirstStateConcat(off, on, name);
    FirstStateConcat(off + on, TrialRegistrations(ops), name);
  }

  /** For any command-line lists and any later trial registrations and reporting
      associations: if a piece of the disable list names the feature, the first
      such piece turns it off, or leaves it at its default if starred; if none
      does, the first such piece of the enable list turns it on, or leaves it at
      its default; if neither list does, the first such trial decides; and with
      none at all it has its default. */
  lemma FirstRegistrationDecides(enable: string, disable: string, trials: Trials, ops: seq<Op>, name: string, enabledByDefault: bool)
    ensures
      var m := After(InsertAll(map[], CommandLineRegistrations(enable, disable, trials)), ops);
      var on := Enabled(m, name, enabledByDefault);
      && (forall k, starred :: NamedFirst(Split(disable), k, name, starred) ==> (on <==> starred && enabledByDefault))
      && (Unnamed(Split(disable), name) ==>
            && (forall k, starred :: NamedFirst(Split(enable), k, name, starred) ==> (on <==> !starred || enabledByDefault))
            && (Unnamed(Split(enable), name) ==>
                  && (forall k: nat, starred :: TrialFirst(ops, k, name, starred) ==>
                        (on <==> if starred || ops[k].state == UseDefault then enabledByDefault else ops[k].state == Enable))
                  && (NoTrial(ops, name) ==> (on <==> enabledByDefault))))
  {
    FirstStateDecides(enable, disable, trials, ops, name, enabledByDefault);
    FirstStateByList(enable, disable, trials, ops, name);
    ListStates(Split(disable), Disable, trials, name);
    ListStates(Split(enable), Enable, trials, name);
    TrialStates(ops, name);
  }

  lemma ListStates(pieces: seq<string>, state: OverrideState, trials: Trials, name: string)
    requires state != UseDefault
    ensures var first := FirstState(ReadAll(pieces, state, trials), name);
      && (forall k, starred :: NamedFirst(pieces, k, name, starred) ==> first == Some(if starred then UseDefault else state))
      && (Unnamed(pieces, name) ==> first == None)
  {
    forall k, starred | NamedFirst(pieces, k, name, starred)
      ensures FirstState(ReadAll(pieces, state, trials), name) == Some(if starred then UseDefault else state)
    {
      NamedState(pieces, state, trials, name, k, starred);
    }
    if Unnamed(pieces, name) { UnnamedState(pieces, state, trials, name); }
  }

  lemma TrialStates(ops: seq<Op>, name: string)
    ensures var first := FirstState(TrialRegistrations(ops), name);
      && (forall k: nat, starred :: TrialFirst(ops, k, name, starred) ==> first == Some(if starred then UseDefault else ops[k].state))
      && (NoTrial(ops, name) ==> first == None)
  {
    forall k: nat, starred | TrialFirst(ops, k, name, starred)
      ensures FirstState(TrialRegistrations(ops), name) == Some(if starred then UseDefault else ops[k].state)
    {
      TrialState(ops, name, k, starred);
    }
    if NoTrial(ops, name) { NoTrialState(ops, name); }
  }

  // ----- printing and reading back

  /** The map from names to state and trial, without the byTrial marks. */
  function Plain(m: Overrides): map<string, (OverrideState, Option<Trial>)> {
    map n | n in m :: (m[n].state, m[n].trial)
  }

  ghost predicate Enumerates(order: seq<string>, m: Overrides) {
    forall n :: n in order <==> n in m
  }

  /** Trials are found under their own names. */
  predicate WellNamed(trials: Trials) {
    forall n :: n in trials ==> trials[n].name == n
  }

  /** What a new list makes of the two printed lists. */
  function Reread(m: Overrides, order: seq<string>, trials: Trials): seq<Registration>
    requires forall n :: n in order ==> n in m
  {
    CommandLineRegistrations(JoinAll(TextsFor(m, order, false, false)), JoinAll(TextsFor(m, order, true, false)), trials)
  }

  /** The entry is printed so that it reads back: its text is not empty, has no
      comma and no outer whitespace; the name has no '<' and, unless the state
      is the default, no leading '*'; the trial is found under its name. */
  predicate Printable(n: string, e: Entry, trials: Trials) {
    && Show(n, e) != "" && ',' !in Show(n, e) && Trimmed(Show(n, e))
    && '<' !in n && (e.state != UseDefault ==> !("*" <= n))
    && (e.trial.Some? ==> FindTrial(trials, e.trial.value.name) == e.trial)
  }

  lemma SplitFirst(s: string, k: nat)
    requires k == IndexOf(s, ',')
    ensures Split(s) == SplitAt(s, k)
  {}

  lemma FirstComma(a: string, b: string, s: string, k: nat)
    requires s == a + "," + b && k == IndexOf(a, ',')
    ensures IndexOf(s, ',') == k && s[..k] == a[..k] && k < |s|
    ensures s[k + 1..] == if k == |a| then b else a[k + 1..] + "," + b
  {
    assert forall j :: 0 <= j < |a| ==> s[j] == a[j];
    assert s[|a|] == ',';
    IndexOfIs(s, ',', k);
    CutPrefix(a, b, s, k);
  }

  lemma CutPrefix(a: string, b: string, s: string, k: nat)
    requires s == a + "," + b && k <= |a|
    ensures s[..k] == a[..k]
    ensures s[k + 1..] == if k == |a| then b else a[k + 1..] + "," + b
  {}

  lemma {:induction false} SplitAtComma(a: string, b: string, s: string)
    requires s == a + "," + b
    ensures Split(s) == Split(a) + Split(b)
    decreases |a|
  {
    var k := IndexOf(a, ',');
    var piece := NonEmpty(Trim(a[..k]));
    FirstComma(a, b, s, k);
    SplitFirst(s, k);
    SplitFirst(a, k);
    if k == |a| {
      assert Split(a) == piece;
    } else {
      SplitAtComma(a[k + 1..], b, s[k + 1..]);
      Regroup(piece, Split(a[k + 1..]), Split(b));
    }
  }

  function Values(texts: seq<string>): seq<string> {
    if texts == [] then [] else Values(texts[..|texts| - 1]) + NonEmpty(Trim(texts[|texts| - 1]))
  }

  lemma SplitOne(text: string)
    requires ',' !in text
    ensures Split(text) == NonEmpty(Trim(text))
  {
    IndexOfIs(text, ',', |text|);
    assert text[..|text|] == text;
  }

  /** Joined texts without commas split into their trimmed, non-empty selves. */
  lemma {:induction false} SplitJoined(texts: seq<string>)
    requires forall k :: 0 <= k < |texts| ==> ',' !in texts[k]
    ensures Split(JoinAll(texts)) == Values(texts)
    decreases |texts|
  {
    if texts != [] {
      var last := |texts| - 1;
      SplitJoined(texts[..last]);
      SplitOne(texts[last]);
      SplitJoin(JoinAll(texts[..last]), texts[last]);
    }
  }

  lemma SplitJoin(list: string, text: string)
    ensures Split(Join(list, text)) == Split(list) + Split(text)
  {
    if list == "" {
      SplitOne("");
      assert [] + Split(text) == Split(text);
    } else {
      SplitAtComma(list, text, list + "," + text);
    }
  }

  lemma {:induction false} ValuesMembers(texts: seq<string>, v: string)
    ensures v in Values(texts) <==> v != "" && exists t :: t in texts && Trim(t) == v
    decreases |texts|
  {
    if texts != [] {
      var last := |texts| - 1;
      ValuesMembers(texts[..last], v);
      assert texts == texts[..last] + [texts[last]];
      assert v in NonEmpty(Trim(texts[last])) <==> v != "" && Trim(texts[last]) == v;
    }
  }

  lemma {:induction false} TextsMembers(m: Overrides, order: seq<string>, disabled: bool, t: string)
    requires forall n :: n in order ==> n in m
    ensures t in TextsFor(m, order, disabled, false) <==>
      exists n :: n in order && (m[n].state == Disable) == disabled && t == Show(n, m[n])
    decreases |order|
  {
    if order != [] {
      var last := |order| - 1;
      TextsMembers(m, order[..last], disabled, t);
      assert order == order[..last] + [order[last]];
    }
  }

  lemma {:induction false} InsertAllFrom(rs: seq<Registration>, n: string)
    ensures n in InsertAll(map[], rs) ==>
      Registration(n, InsertAll(map[], rs)[n].state, InsertAll(map[], rs)[n].trial) in rs
    ensures (exists r :: r in rs && r.name == n) ==> n in InsertAll(map[], rs)
    decreases |rs|
  {
    if rs != [] {
      var last := |rs| - 1;
      InsertAllFrom(rs[..last], n);
      assert rs == rs[..last] + [rs[last]];
    }
  }

  function ListState(disabled: bool): OverrideState {
    if disabled then Disable else Enable
  }

  function PrintedList(m: Overrides, order: seq<string>, disabled: bool): string
    requires forall n :: n in order ==> n in m
  {
    JoinAll(TextsFor(m, order, disabled, false))
  }

  lemma ReadAllMembers(values: seq<string>, state: OverrideState, trials: Trials, r: Registration)
    ensures r in ReadAll(values, state, trials) <==> exists v :: v in values && r == Read(v, state, trials)
  {
    var rs := ReadAll(values, state, trials);
    if r in rs {
      var k :| 0 <= k < |rs| && rs[k] == r;
      assert values[k] in values;
    }
    if v :| v in values && r == Read(v, state, trials) {
      var k :| 0 <= k < |values| && values[k] == v;
      assert rs[k] == r;
    }
  }

  /** A registration that was read back comes from a piece of one list. */
  lemma RereadFrom(m: Overrides, order: seq<string>, trials: Trials, r: Registration) returns (v: string, disabled: bool)
    requires forall n :: n in order ==> n in m
    requires r in Reread(m, order, trials)
    ensures v in Split(PrintedList(m, order, disabled)) && r == Read(v, ListState(disabled), trials)
  {
    disabled := r in ReadAll(Split(PrintedList(m, order, true)), Disable, trials);
    var values := Split(PrintedList(m, order, disabled));
    ReadAllMembers(values, ListState(disabled), trials, r);
    v :| v in values && r == Read(v, ListState(disabled), trials);
  }

  lemma RereadHas(m: Overrides, order: seq<string>, trials: Trials, v: string, disabled: bool)
    requires forall n :: n in order ==> n in m
    requires v in Split(PrintedList(m, order, disabled))
    ensures Read(v, ListState(disabled), trials) in Reread(m, order, trials)
  {
    var r := Read(v, ListState(disabled), trials);
    ReadAllMembers(Split(PrintedList(m, order, disabled)), ListState(disabled), trials, r);
  }

  ghost predicate NoCommas(m: Overrides) {
    forall n :: n in m ==> ',' !in Show(n, m[n])
  }

  /** Without commas, the pieces of a list are the trimmed texts. */
  lemma PiecesAreTexts(m: Overrides, order: seq<string>, disabled: bool, v: string)
    requires Enumerates(order, m) && NoCommas(m)
    ensures v in Split(PrintedList(m, order, disabled)) <==>
      v != "" && exists n :: n in m && (m[n].state == Disable) == disabled && Trim(Show(n, m[n])) == v
  {
    var texts := TextsFor(m, order, disabled, false);
    forall k | 0 <= k < |texts| ensures ',' !in texts[k] {
      TextsMembers(m, order, disabled, texts[k]);
    }
    SplitJoined(texts);
    ValuesMembers(texts, v);
    forall t ensures t in texts <==> exists n :: n in order && (m[n].state == Disable) == disabled && t == Show(n, m[n]) {
      TextsMembers(m, order, disabled, t);
    }
  }

  // ----- printable entries read back

  lemma ReadShown(n: string, e: Entry, trials: Trials)
    requires Printable(n, e, trials)
    ensures Read(Show(n, e), ListState(e.state == Disable), trials) == Registration(n, e.state, e.trial)
  {
    var name := if e.state == UseDefault then "*" + n else n;
    ShownParts(n, e, name);
    if e.trial.Some? {
      ReadAt(name, e.trial.value.name, ListState(e.state == Disable), trials);
    } else {
      IndexOfIs(name, '<', |name|);
    }
    StarredName(n, e, name);
  }

  lemma ShownParts(n: string, e: Entry, name: string)
    requires name == (if e.state == UseDefault then "*" + n else n) && '<' !in n
    ensures Show(n, e) == if e.trial.Some? then name + ("<" + e.trial.value.name) else name
    ensures '<' !in name
  {
    assert "" + n == n;
    assert name + "" == name;
    if e.state == UseDefault {
      assert forall c :: c in name ==> c == '*' || c in n;
    }
  }

  lemma StarredName(n: string, e: Entry, name: string)
    requires name == (if e.state == UseDefault then "*" + n else n) && (e.state != UseDefault ==> !("*" <= n))
    ensures Starred(name, ListState(e.state == Disable), e.trial) == Registration(n, e.state, e.trial)
  {
    if e.state == UseDefault {
      assert name[1..] == n;
    }
  }

  lemma ReadAt(name: string, trial: string, state: OverrideState, trials: Trials)
    requires '<' !in name
    ensures Read(name + ("<" + trial), state, trials) == Starred(name, state, FindTrial(trials, trial))
  {
    var v, k := name + ("<" + trial), |name|;
    assert v[k] == '<' && v[..k] == name && v[k + 1..] == trial;
    assert forall j :: 0 <= j < k ==> v[j] == name[j];
    IndexOfIs(v, '<', k);
  }

  lemma PrintableReadsBack(m: Overrides, order: seq<string>, trials: Trials)
    requires Enumerates(order, m) && forall n :: n in m ==> Printable(n, m[n], trials)
    ensures Plain(InsertAll(map[], Reread(m, order, trials))) == Plain(m)
  {
    var back := InsertAll(map[], Reread(m, order, trials));
    forall n ensures n in back <==> n in m
             ensures n in m ==> back[n].state == m[n].state && back[n].trial == m[n].trial
    {
      EntryReadsBack(m, order, trials, n, back);
    }
    SamePlain(m, back);
  }

  lemma SamePlain(m: Overrides, back: Overrides)
    requires forall n :: n in back <==> n in m
    requires forall n :: n in m ==> back[n].state == m[n].state && back[n].trial == m[n].trial
    ensures Plain(back) == Plain(m)
  {}

  lemma EntryReadsBack(m: Overrides, order: seq<string>, trials: Trials, n: string, back: Overrides)
    requires Enumerates(order, m) && forall x :: x in m ==> Printable(x, m[x], trials)
    requires back == InsertAll(map[], Reread(m, order, trials))
    ensures n in back <==> n in m
    ensures n in m ==> back[n].state == m[n].state && back[n].trial == m[n].trial
  {
    InsertAllFrom(Reread(m, order, trials), n);
    if n in m {
      RereadHasEntry(m, order, trials, n);
    }
    if n in back {
      RereadIsEntry(m, order, trials, Registration(n, back[n].state, back[n].trial));
    }
  }

  /** Every registration read back is an entry of the map. */
  lemma RereadIsEntry(m: Overrides, order: seq<string>, trials: Trials, r: Registration)
    requires Enumerates(order, m) && (forall n :: n in m ==> Printable(n, m[n], trials)) && r in Reread(m, order, trials)
    ensures r.name in m && r == Registration(r.name, m[r.name].state, m[r.name].trial)
  {
    var v, disabled := RereadFrom(m, order, trials, r);
    PiecesAreTexts(m, order, disabled, v);
    var n :| n in m && (m[n].state == Disable) == disabled && Trim(Show(n, m[n])) == v;
    ReadShown(n, m[n], trials);
  }

  /** Every entry of the map is read back. */
  lemma RereadHasEntry(m: Overrides, order: seq<string>, trials: Trials, n: string)
    requires Enumerates(order, m) && (forall x :: x in m ==> Printable(x, m[x], trials)) && n in m
    ensures Registration(n, m[n].state, m[n].trial) in Reread(m, order, trials)
  {
    var disabled := m[n].state == Disable;
    PiecesAreTexts(m, order, disabled, Show(n, m[n]));
    ReadShown(n, m[n], trials);
    RereadHas(m, order, trials, Show(n, m[n]), disabled);
  }

  // ----- what reads back was printable

  lemma {:induction false} SplitShape(s: string, v: string)
    requires v in Split(s)
    ensures v != "" && Trimmed(v) && ',' !in v
    decreases |s|
  {
    var k := IndexOf(s, ',');
    if v in NonEmpty(Trim(s[..k])) {
      if ',' in v { TrimKeepsChars(s[..k], ','); }
    } else {
      SplitShape(s[k + 1..], v);
    }
  }

  /** What any list entry can register. */
  ghost predicate Shaped(r: Registration, trials: Trials) {
    && ',' !in r.name && '<' !in r.name
    && (r.state != UseDefault ==> !("*" <= r.name) && (r.name != "" ==> !Space(r.name[0])))
    && (r.trial.Some? ==>
          && FindTrial(trials, r.trial.value.name) == r.trial && ',' !in r.trial.value.name
          && (r.trial.value.name != "" ==> !Space(r.trial.value.name[|r.trial.value.name| - 1])))
  }

  lemma ReadShape(v: string, disabled: bool, trials: Trials)
    requires WellNamed(trials) && v != "" && Trimmed(v) && ',' !in v
    ensures Shaped(Read(v, ListState(disabled), trials), trials)
    ensures '<' !in v ==>
      var r := Read(v, ListState(disabled), trials);
      r.trial == None && (r.name != "" ==> !Space(r.name[|r.name| - 1])) && (r.state != UseDefault ==> r.name != "")
  {
    var k := IndexOf(v, '<');
    var name := if k < |v| then v[..k] else v;
    assert forall c :: c in name ==> c in v && c != '<';
    assert "*" <= name ==> forall c :: c in name[1..] ==> c in name;
    if k < |v| {
      var t := v[k + 1..];
      assert t != "" ==> t[|t| - 1] == v[|v| - 1];
      assert forall c :: c in t ==> c in v;
    } else if "*" <= name && name[1..] != "" {
      assert name[1..][|name| - 2] == v[|v| - 1];
    }
  }

  /** Trimming before a part that starts and ends in non-space only cuts the
      front. */
  lemma {:induction false} TrimFront(front: string, back: string) returns (kept: string)
    requires back != "" && Trimmed(back)
    ensures Trim(front + back) == kept + back
    ensures forall c :: c in kept ==> c in front
    decreases |front|
  {
    if front == "" {
      kept := "";
      assert front + back == back && kept + back == back;
    } else if Space(front[0]) {
      kept := TrimFront(front[1..], back);
      assert (front + back)[1..] == front[1..] + back;
    } else {
      kept := front;
      var s := front + back;
      assert s[0] == front[0] && s[|s| - 1] == back[|back| - 1];
    }
  }

  /** The trial survives printing, trimming and reading. */
  lemma TrialReadsBack(n: string, e: Entry, disabled: bool, trials: Trials)
    requires '<' !in n
    requires e.trial.Some? ==> FindTrial(trials, e.trial.value.name) == e.trial
    requires e.trial.Some? && e.trial.value.name != "" ==> !Space(e.trial.value.name[|e.trial.value.name| - 1])
    ensures var v := Trim(Show(n, e)); Read(v, ListState(disabled), trials).trial == e.trial && ('<' in v <==> e.trial.Some?)
  {
    var name := if e.state == UseDefault then "*" + n else n;
    var v := Trim(Show(n, e));
    ShownParts(n, e, name);
    if e.trial.Some? {
      SuffixReadsBack(name, e.trial.value.name, ListState(disabled), trials);
    } else {
      if '<' in v { TrimKeepsChars(name, '<'); }
      IndexOfIs(v, '<', |v|);
    }
  }

  lemma SuffixReadsBack(name: string, trial: string, state: OverrideState, trials: Trials)
    requires '<' !in name && (trial != "" ==> !Space(trial[|trial| - 1]))
    ensures var v := Trim(name + ("<" + trial)); '<' in v && Read(v, state, trials).trial == FindTrial(trials, trial)
  {
    LastOfTrial(trial);
    var kept := TrimFront(name, "<" + trial);
    ReadAt(kept, trial, state, trials);
    assert (kept + ("<" + trial))[|kept|] == '<';
  }

  lemma LastOfTrial(trial: string)
    requires trial != "" ==> !Space(trial[|trial| - 1])
    ensures Trimmed("<" + trial)
  {
    var t := "<" + trial;
    assert t[0] == '<' && (trial != "" ==> t[|t| - 1] == trial[|trial| - 1]);
  }

  lemma ReadsBackIsShaped(m: Overrides, order: seq<string>, trials: Trials, n: string)
    requires Enumerates(order, m) && WellNamed(trials) && n in m
    requires Plain(InsertAll(map[], Reread(m, order, trials))) == Plain(m)
    ensures Registration(n, m[n].state, m[n].trial) in Reread(m, order, trials)
    ensures Shaped(Registration(n, m[n].state, m[n].trial), trials)
  {
    var rs := Reread(m, order, trials);
    var back := InsertAll(map[], rs);
    assert n in Plain(back) && Plain(back)[n] == Plain(m)[n];
    InsertAllFrom(rs, n);
    var r := Registration(n, m[n].state, m[n].trial);
    var v, disabled := RereadFrom(m, order, trials, r);
    SplitShape(PrintedList(m, order, disabled), v);
    ReadShape(v, disabled, trials);
  }

  lemma ShapedHasNoComma(n: string, e: Entry, trials: Trials)
    requires Shaped(Registration(n, e.state, e.trial), trials)
    ensures ',' !in Show(n, e)
  {}

  lemma ReadsBackIsPrintable(m: Overrides, order: seq<string>, trials: Trials, n: string)
    requires Enumerates(order, m) && WellNamed(trials) && n in m
    requires Plain(InsertAll(map[], Reread(m, order, trials))) == Plain(m)
    ensures Printable(n, m[n], trials)
  {
    AllShaped(m, order, trials);
    ReadsBackIsShaped(m, order, trials, n);
    PlainNamesAreClean(m, order, trials, n);
    ShapedIsPrintable(n, m[n], trials);
  }

  lemma AllShaped(m: Overrides, order: seq<string>, trials: Trials)
    requires Enumerates(order, m) && WellNamed(trials)
    requires Plain(InsertAll(map[], Reread(m, order, trials))) == Plain(m)
    ensures forall x :: x in m ==> Shaped(Registration(x, m[x].state, m[x].trial), trials)
    ensures NoCommas(m)
  {
    forall x | x in m ensures Shaped(Registration(x, m[x].state, m[x].trial), trials) && ',' !in Show(x, m[x]) {
      ReadsBackIsShaped(m, order, trials, x);
      ShapedHasNoComma(x, m[x], trials);
    }
  }

  /** An entry without a trial was read from a text without '<'. */
  lemma PlainNamesAreClean(m: Overrides, order: seq<string>, trials: Trials, n: string)
    requires Enumerates(order, m) && WellNamed(trials) && NoCommas(m) && n in m
    requires forall x :: x in m ==> Shaped(Registration(x, m[x].state, m[x].trial), trials)
    requires Registration(n, m[n].state, m[n].trial) in Reread(m, order, trials)
    ensures m[n].trial == None ==> (n != "" ==> !Space(n[|n| - 1])) && (m[n].state != UseDefault ==> n != "")
  {
    var r := Registration(n, m[n].state, m[n].trial);
    var x, disabled := SourceOf(m, order, trials, r);
    assert Shaped(Registration(x, m[x].state, m[x].trial), trials);
    CleanSource(x, m[x], disabled, trials, r);
  }

  lemma CleanSource(x: string, e: Entry, disabled: bool, trials: Trials, r: Registration)
    requires Shaped(Registration(x, e.state, e.trial), trials) && WellNamed(trials)
    requires var v := Trim(Show(x, e)); v != "" && Trimmed(v) && ',' !in v && r == Read(v, ListState(disabled), trials)
    ensures r.trial == None ==> (r.name != "" ==> !Space(r.name[|r.name| - 1])) && (r.state != UseDefault ==> r.name != "")
  {
    TrialReadsBack(x, e, disabled, trials);
    ReadShape(Trim(Show(x, e)), disabled, trials);
  }

  lemma SourceOf(m: Overrides, order: seq<string>, trials: Trials, r: Registration) returns (x: string, disabled: bool)
    requires Enumerates(order, m) && NoCommas(m) && r in Reread(m, order, trials)
    ensures x in m
    ensures var v := Trim(Show(x, m[x])); v != "" && Trimmed(v) && ',' !in v && r == Read(v, ListState(disabled), trials)
  {
    var v;
    v, disabled := RereadFrom(m, order, trials, r);
    PiecesAreTexts(m, order, disabled, v);
    x :| x in m && (m[x].state == Disable) == disabled && Trim(Show(x, m[x])) == v;
    SplitShape(PrintedList(m, order, disabled), v);
  }

  lemma ShapedIsPrintable(n: string, e: Entry, trials: Trials)
    requires Shaped(Registration(n, e.state, e.trial), trials)
    requires e.trial == None ==> (n != "" ==> !Space(n[|n| - 1])) && (e.state != UseDefault ==> n != "")
    ensures Printable(n, e, trials)
  {
    var star := if e.state == UseDefault then "*" else "";
    var tail := if e.trial.Some? then "<" + e.trial.value.name else "";
    var text := Show(n, e);
    assert text == star + n + tail;
    assert text[0] == if star != "" then '*' else if n != "" then n[0] else '<';
    assert text[|text| - 1] == if tail != "" then tail[|tail| - 1] else if n != "" then n[|n| - 1] else '*';
    ShapedHasNoComma(n, e, trials);
  }

  /** Printing all overrides and reading the two lists again restores every
      name with its state and trial, exactly when every entry is printable; for
      every map, every iteration order and every set of trials. */
  lemma PrintedOverridesReadBack(m: Overrides, order: seq<string>, trials: Trials)
    requires Enumerates(order, m) && WellNamed(trials)
    ensures Plain(InsertAll(map[], Reread(m, order, trials))) == Plain(m) <==> forall n :: n in m ==> Printable(n, m[n], trials)
  {
    if forall n :: n in m ==> Printable(n, m[n], trials) {
      PrintableReadsBack(m, order, trials);
    } else if Plain(InsertAll(map[], Reread(m, order, trials))) == Plain(m) {
      forall n | n in m ensures Printable(n, m[n], trials) {
        ReadsBackIsPrintable(m, order, trials, n);
      }
    }
  }

  // ----- the command line's own overrides

  /** Set from the command line to on or off: no trial, not starred. */
  predicate FromCommandLine(e: Entry) {
    e.trial == None && (e.state == Enable || e.state == Disable)
  }

  function Kept(m: Overrides): Overrides {
    map n | n in m && FromCommandLine(m[n]) :: m[n]
  }

  function KeptOrder(m: Overrides, order: seq<string>): seq<string>
    requires forall n :: n in order ==> n in m
  {
    if order == [] then []
    else
      var n := order[|order| - 1];
      KeptOrder(m, order[..|order| - 1]) + if FromCommandLine(m[n]) then [n] else []
  }

  lemma {:induction false} KeptOrderMembers(m: Overrides, order: seq<string>, n: string)
    requires forall x :: x in order ==> x in m
    ensures n in KeptOrder(m, order) <==> n in order && FromCommandLine(m[n])
    decreases |order|
  {
    if order != [] {
      KeptOrderMembers(m, order[..|order| - 1], n);
      assert order == order[..|order| - 1] + [order[|order| - 1]];
    }
  }

  /** Printing only the command line's overrides prints exactly those, as if they
      were the whole map. */
  lemma {:induction false} CommandLineOnlyPrintsKept(m: Overrides, order: seq<string>, disabled: bool)
    requires forall n :: n in order ==> n in m
    ensures forall n :: n in KeptOrder(m, order) ==> n in Kept(m)
    ensures TextsFor(m, order, disabled, true) == TextsFor(Kept(m), KeptOrder(m, order), disabled, false)
    decreases |order|
  {
    forall n | n in KeptOrder(m, order) ensures n in Kept(m) {
      KeptOrderMembers(m, order, n);
    }
    if order != [] {
      var before, n := order[..|order| - 1], order[|order| - 1];
      CommandLineOnlyPrintsKept(m, before, disabled);
      var kept := KeptOrder(m, before);
      assert TextsFor(m, before, disabled, true) + [] == TextsFor(m, before, disabled, true);
      if FromCommandLine(m[n]) {
        assert (kept + [n])[..|kept|] == kept;
      } else {
        assert kept + [] == kept;
      }
    }
  }
}
