/** Printing a command line on Windows so that CommandLineToArgvW gives the
    arguments back: the quoting loop, the printer of switches and arguments,
    and a decoder written from Microsoft's "Parsing C++ command-line
    arguments" rules. */
module ArgvQuoting {
  import opened Basics
  import opened SwitchSyntax

  // ----- the documented decoder

  /** Arguments finished so far, and the one being read: its text, whether it
      has begun, whether a quoted part is open, and the backslashes just read
      whose meaning the next character decides. */
  datatype Reader = Reader(args: seq<string>, text: string, begun: bool, quoted: bool, slashes: nat)

  function Slashes(n: nat): string {
    if n == 0 then "" else Slashes(n - 1) + "\\"
  }

  predicate Blank(c: char) {
    c == ' ' || c == '\t'
  }

  function Read(r: Reader, c: char): Reader {
    if c == '\\' then r.(begun := true, slashes := r.slashes + 1)
    else if c == '"' then
      // An even run before a quote gives half of it and a delimiter; an odd
      // run gives half of it and a literal quote.
      var t := r.text + Slashes(r.slashes / 2);
      if r.slashes % 2 == 1 then r.(text := t + "\"", begun := true, slashes := 0)
      else r.(text := t, begun := true, quoted := !r.quoted, slashes := 0)
    else if Blank(c) && !r.quoted then Fresh(Done(r))
    else r.(text := r.text + Slashes(r.slashes) + [c], begun := true, slashes := 0)
  }

  /** The arguments when the text ends here. */
  function Done(r: Reader): seq<string> {
    if r.begun then r.args + [r.text + Slashes(r.slashes)] else r.args
  }

  function Fresh(args: seq<string>): Reader {
    Reader(args, "", false, false, 0)
  }

  function ReadAll(r: Reader, s: string): Reader {
    if s == "" then r else Read(ReadAll(r, s[..|s| - 1]), s[|s| - 1])
  }

  /** CommandLineToArgvW on the text after the program name. */
  function ToArgs(s: string): seq<string> {
    Done(ReadAll(Fresh([]), s))
  }

  // ----- QuoteForCommandLineToArgvW

  predicate Quotable(c: char, placeholders: bool) {
    c == ' ' || c == '\\' || c == '"' || (placeholders && c == '%')
  }

  predicate NeedsQuotes(arg: string, placeholders: bool) {
    exists i :: 0 <= i < |arg| && Quotable(arg[i], placeholders)
  }

  /** The length of the run of backslashes at the front. */
  function RunLength(s: string): (n: nat)
    ensures n <= |s|
    ensures n < |s| ==> s[n] != '\\'
    ensures forall i :: 0 <= i < n ==> s[i] == '\\'
  {
    if s == "" || s[0] != '\\' then 0 else 1 + RunLength(s[1..])
  }

  /** What goes between the outer quotes. */
  function Escaped(arg: string): string
    decreases |arg|
  {
    if arg == "" then ""
    else if arg[0] == '\\' then
      var n := RunLength(arg);
      (if n == |arg| || arg[n] == '"' then Slashes(2 * n) else Slashes(n)) + Escaped(arg[n..])
    else if arg[0] == '"' then "\\\"" + Escaped(arg[1..])
    else [arg[0]] + Escaped(arg[1..])
  }

  function Quote(arg: string, placeholders: bool): string {
    if NeedsQuotes(arg, placeholders) then "\"" + Escaped(arg) + "\"" else arg
  }

  method QuoteForCommandLineToArgvW(arg: string, placeholders: bool) returns (out: string)
    ensures out == Quote(arg, placeholders)
  {
    var first := 0;
    while first < |arg| && !Quotable(arg[first], placeholders)
      invariant first <= |arg|
      invariant forall i :: 0 <= i < first ==> !Quotable(arg[i], placeholders)
    {
      first := first + 1;
    }
    if first == |arg| {
      return arg;
    }
    out := "\"";
    var i := 0;
    while i < |arg|
      invariant i <= |arg|
      invariant out + Escaped(arg[i..]) == "\"" + Escaped(arg)
    {
      var chunk, end := NextChunk(arg, i);
      Regroup(out, chunk, Escaped(arg[end..]));
      out := out + chunk;
      i := end;
    }
    out := out + "\"";
  }

  /** The output for the run of backslashes, or the character, at `i`, and the
      position after it. */
  method NextChunk(arg: string, i: nat) returns (chunk: string, end: nat)
    requires i < |arg|
    ensures i < end <= |arg|
    ensures Escaped(arg[i..]) == chunk + Escaped(arg[end..])
  {
    if arg[i] == '\\' {
      end := RunEnd(arg, i);
      chunk := Backslashes(if end == |arg| || arg[end] == '"' then 2 * (end - i) else end - i);
      RunChunk(arg, i, end);
    } else {
      end := i + 1;
      chunk := if arg[i] == '"' then "\\\"" else [arg[i]];
      CharChunk(arg, i);
    }
  }

  lemma RunChunk(arg: string, i: nat, end: nat)
    requires i < end <= |arg| && arg[i] == '\\' && end - i == RunLength(arg[i..])
    ensures Escaped(arg[i..]) ==
      (if end == |arg| || arg[end] == '"' then Slashes(2 * (end - i)) else Slashes(end - i)) + Escaped(arg[end..])
  {
    var rest, n := arg[i..], end - i;
    assert rest[n..] == arg[end..] && (n < |rest| ==> rest[n] == arg[end]);
    EscapedAtRun(rest, n);
  }

  lemma EscapedAtRun(s: string, n: nat)
    requires 0 < n == RunLength(s)
    ensures Escaped(s) == (if n == |s| || s[n] == '"' then Slashes(2 * n) else Slashes(n)) + Escaped(s[n..])
  {}

  lemma CharChunk(arg: string, i: nat)
    requires i < |arg| && arg[i] != '\\'
    ensures Escaped(arg[i..]) == (if arg[i] == '"' then "\\\"" else [arg[i]]) + Escaped(arg[i + 1..])
  {
    var rest := arg[i..];
    assert rest[0] == arg[i] && rest[1..] == arg[i + 1..];
  }

  method RunEnd(arg: string, i: nat) returns (end: nat)
    requires i < |arg| && arg[i] == '\\'
    ensures i < end <= |arg| && end - i == RunLength(arg[i..])
  {
    end := i + 1;
    while end < |arg| && arg[end] == '\\'
      invariant i < end <= |arg|
      invariant forall k :: i <= k < end ==> arg[k] == '\\'
    {
      end := end + 1;
    }
    RunLengthIs(arg[i..], end - i);
  }

  method Backslashes(count: nat) returns (out: string)
    ensures out == Slashes(count)
  {
    out := "";
    var j := 0;
    while j < count
      invariant j <= count && out == Slashes(j)
    {
      out := out + "\\";
      j := j + 1;
    }
  }

  lemma {:induction false} RunLengthIs(s: string, n: nat)
    requires n <= |s| && (n < |s| ==> s[n] != '\\') && forall i :: 0 <= i < n ==> s[i] == '\\'
    ensures RunLength(s) == n
  {}

  // ----- one quoted argument decodes to itself

  lemma {:induction false} ReadAppend(r: Reader, a: string, b: string)
    ensures ReadAll(r, a + b) == ReadAll(ReadAll(r, a), b)
    decreases |b|
  {
    if b == "" {
      assert a + b == a;
    } else {
      assert (a + b)[..|a + b| - 1] == a + b[..|b| - 1];
      ReadAppend(r, a, b[..|b| - 1]);
    }
  }

  lemma ReadOne(r: Reader, c: char)
    ensures ReadAll(r, [c]) == Read(r, c)
  {
    assert [c][..0] == "";
  }

  lemma {:induction false} SlashesAdd(m: nat, n: nat)
    ensures Slashes(m + n) == Slashes(m) + Slashes(n)
    ensures |Slashes(n)| == n && forall i :: 0 <= i < n ==> Slashes(n)[i] == '\\'
    decreases n
  {
    if n > 0 { SlashesAdd(m, n - 1); }
  }

  lemma {:induction false} ReadSlashes(r: Reader, n: nat)
    requires r.begun
    ensures ReadAll(r, Slashes(n)) == r.(slashes := r.slashes + n)
    decreases n
  {
    if n > 0 {
      ReadSlashes(r, n - 1);
      ReadAppend(r, Slashes(n - 1), "\\");
      ReadOne(ReadAll(r, Slashes(n - 1)), '\\');
    }
  }

  /** A string of `n` backslashes is Slashes(n). */
  lemma AllSlashes(s: string)
    requires forall i :: 0 <= i < |s| ==> s[i] == '\\'
    ensures s == Slashes(|s|)
  {
    SlashesAdd(0, |s|);
  }

  /** The escape of `n` backslashes followed by the character `c`. */
  function EscapedUnit(n: nat, c: char): string {
    if c == '"' then Slashes(2 * n + 1) + "\"" else Slashes(n) + [c]
  }

  lemma EscapedStep(arg: string, n: nat)
    requires n == RunLength(arg) < |arg|
    ensures Escaped(arg) == EscapedUnit(n, arg[n]) + Escaped(arg[n + 1..])
  {
    var rest := arg[n..];
    assert rest[1..] == arg[n + 1..];
    EscapedChar(rest);
    if n == 0 {
      assert rest == arg;
      assert Slashes(1) == "\\";
    } else {
      var run := if arg[n] == '"' then Slashes(2 * n) else Slashes(n);
      EscapedAtRun(arg, n);
      Regroup(run, EscapedUnit(0, arg[n]), Escaped(arg[n + 1..]));
      UnitAfterRun(n, arg[n]);
    }
  }

  lemma EscapedChar(arg: string)
    requires arg != "" && arg[0] != '\\'
    ensures Escaped(arg) == EscapedUnit(0, arg[0]) + Escaped(arg[1..])
  {
    assert Slashes(1) == "\\";
    assert EscapedUnit(0, arg[0]) == if arg[0] == '"' then "\\\"" else [arg[0]];
  }

  lemma UnitAfterRun(n: nat, c: char)
    ensures (if c == '"' then Slashes(2 * n) else Slashes(n)) + EscapedUnit(0, c) == EscapedUnit(n, c)
  {
    assert Slashes(1) == "\\";
  }

  /** Inside quotes, a unit adds what it escapes: a run of n before a quote is
      2n + 1 backslashes and the quote, a run before anything else is itself. */
  lemma EscapedUnitReads(r: Reader, n: nat, c: char)
    requires r.begun && r.quoted && r.slashes == 0 && c != '\\'
    ensures ReadAll(r, EscapedUnit(n, c)) == r.(text := r.text + Slashes(n) + [c])
  {
    var m := if c == '"' then 2 * n + 1 else n;
    assert EscapedUnit(n, c) == Slashes(m) + [c];
    ReadAppend(r, Slashes(m), [c]);
    ReadSlashes(r, m);
    ReadOne(r.(slashes := m), c);
    if c == '"' {
      assert m / 2 == n && m % 2 == 1;
      assert Read(r.(slashes := m), c) == r.(text := r.text + Slashes(n) + [c]);
    } else {
      assert Read(r.(slashes := m), c) == r.(text := r.text + Slashes(n) + [c]);
    }
  }

  lemma SlashRunAtEnd(r: Reader, n: nat)
    requires r.begun && r.quoted && r.slashes == 0
    ensures ReadAll(r, Slashes(2 * n) + "\"") == r.(text := r.text + Slashes(n), quoted := false)
  {
    ReadAppend(r, Slashes(2 * n), "\"");
    ReadSlashes(r, 2 * n);
    ReadOne(r.(slashes := 2 * n), '"');
  }

  lemma EscapedReadsUnit(r: Reader, arg: string, n: nat)
    requires r.begun && r.quoted && r.slashes == 0 && n == RunLength(arg) < |arg|
    ensures ReadAll(r, Escaped(arg) + "\"") ==
      ReadAll(r.(text := r.text + Slashes(n) + [arg[n]]), Escaped(arg[n + 1..]) + "\"")
  {
    var unit, tail := EscapedUnit(n, arg[n]), Escaped(arg[n + 1..]);
    EscapedStep(arg, n);
    Regroup(unit, tail, "\"");
    ReadAppend(r, unit, tail + "\"");
    EscapedUnitReads(r, n, arg[n]);
  }

  /** Inside quotes with no backslash pending, the escaped text and the closing
      quote add exactly the argument and leave the quoted part. */
  lemma {:induction false} EscapedReads(r: Reader, arg: string)
    requires r.begun && r.quoted && r.slashes == 0
    ensures ReadAll(r, Escaped(arg) + "\"") == r.(text := r.text + arg, quoted := false)
    decreases |arg|
  {
    var n := RunLength(arg);
    AllSlashes(arg[..n]);
    if n == |arg| {
      SlashRunAtEnd(r, n);
      OnlySlashes(arg);
    } else {
      var text := r.text + Slashes(n) + [arg[n]];
      EscapedReadsUnit(r, arg, n);
      EscapedReads(r.(text := text), arg[n + 1..]);
      UnitThenRest(r.text, arg, n);
    }
  }

  lemma UnitThenRest(text: string, arg: string, n: nat)
    requires n < |arg|
    ensures text + arg[..n] + [arg[n]] + arg[n + 1..] == text + arg
  {}

  lemma OnlySlashes(arg: string)
    requires RunLength(arg) == |arg|
    ensures arg == Slashes(|arg|) && Escaped(arg) == Slashes(2 * |arg|)
  {
    AllSlashes(arg);
    if arg != "" {
      assert arg[|arg|..] == "";
      assert Slashes(2 * |arg|) + "" == Slashes(2 * |arg|);
    }
  }

  // ----- printing a list of tokens

  /** Switches stop being switches at the first "--". */
  predicate Parsing(tokens: seq<string>, k: nat)
    requires k < |tokens|
  {
    TERMINATOR !in tokens[..k + 1]
  }

  /** One printed token: a switch's name as it is and its value quoted, or the
      whole argument quoted. */
  function Text(t: string, switch: bool, placeholders: bool): string {
    if !switch then Quote(t, placeholders)
    else if Value(t) == "" then Name(t)
    else Name(t) + "=" + Quote(Value(t), placeholders)
  }

  /** How the printer treats its tokens: is "/" a prefix, is '%' quoted? */
  datatype Mode = Mode(slash: bool, placeholders: bool)

  predicate SwitchAt(tokens: seq<string>, k: nat, mode: Mode)
    requires k < |tokens|
  {
    Parsing(tokens, k) && IsSwitch(tokens[k], mode.slash)
  }

  function TextAt(tokens: seq<string>, k: nat, mode: Mode): string
    requires k < |tokens|
  {
    Text(tokens[k], SwitchAt(tokens, k, mode), mode.placeholders)
  }

  function Texts(tokens: seq<string>, mode: Mode): seq<string> {
    seq(|tokens|, k requires 0 <= k < |tokens| => TextAt(tokens, k, mode))
  }

  /** The texts from `k` on, with a space between them. */
  function Join(texts: seq<string>, k: nat): string
    requires k <= |texts|
    decreases |texts| - k
  {
    if k == |texts| then ""
    else if k == |texts| - 1 then texts[k]
    else texts[k] + " " + Join(texts, k + 1)
  }

  function Printed(tokens: seq<string>, mode: Mode): string {
    Join(Texts(tokens, mode), 0)
  }

  /** GetArgumentsStringInternal on the tokens after the program. */
  method GetArgumentsString(tokens: seq<string>, mode: Mode) returns (params: string)
    ensures params == Printed(tokens, mode)
  {
    ghost var texts := Texts(tokens, mode);
    params := "";
    var parse := true;
    var k := 0;
    while k < |tokens|
      invariant k <= |tokens| && (parse <==> TERMINATOR !in tokens[..k])
      invariant params + Remainder(texts, k) == Join(texts, 0)
    {
      ParsingStep(tokens, k, mode);
      parse := parse && tokens[k] != TERMINATOR;
      var text := TokenText(tokens[k], parse && IsSwitch(tokens[k], mode.slash), mode.placeholders);
      var step := (if k > 0 then " " else "") + text;
      RemainderStep(params, texts, k);
      params := params + step;
      k := k + 1;
    }
    assert params + "" == params;
  }

  lemma ParsingStep(tokens: seq<string>, k: nat, mode: Mode)
    requires k < |tokens|
    ensures TERMINATOR !in tokens[..k + 1] <==> TERMINATOR !in tokens[..k] && tokens[k] != TERMINATOR
    ensures Texts(tokens, mode)[k] ==
      Text(tokens[k], TERMINATOR !in tokens[..k + 1] && IsSwitch(tokens[k], mode.slash), mode.placeholders)
  {
    assert tokens[..k + 1] == tokens[..k] + [tokens[k]];
  }

  lemma RemainderStep(params: string, texts: seq<string>, k: nat)
    requires k < |texts|
    ensures params + Remainder(texts, k) == params + ((if k > 0 then " " else "") + texts[k]) + Remainder(texts, k + 1)
  {
    var step := (if k > 0 then " " else "") + texts[k];
    assert Remainder(texts, k) == step + Remainder(texts, k + 1);
    Regroup(params, step, Remainder(texts, k + 1));
  }

  method TokenText(t: string, switch: bool, placeholders: bool) returns (text: string)
    ensures text == Text(t, switch, placeholders)
  {
    if switch {
      text := Name(t);
      if Value(t) != "" {
        var quoted := QuoteForCommandLineToArgvW(Value(t), placeholders);
        text := text + "=" + quoted;
      }
    } else {
      text := QuoteForCommandLineToArgvW(t, placeholders);
    }
  }

  /** What the printing loop has still to append at text `k`. */
  ghost function Remainder(texts: seq<string>, k: nat): string
    requires k <= |texts|
  {
    if k == |texts| then "" else (if k > 0 then " " else "") + Join(texts, k)
  }

  // ----- decoding token by token

  lemma {:induction false} ReadFrame(r: Reader, args: seq<string>, s: string)
    ensures ReadAll(r.(args := args + r.args), s) == ReadAll(r, s).(args := args + ReadAll(r, s).args)
    decreases |s|
  {
    if s != "" {
      ReadFrame(r, args, s[..|s| - 1]);
      var q := ReadAll(r, s[..|s| - 1]);
      assert args + (q.args + [q.text + Slashes(q.slashes)]) == args + q.args + [q.text + Slashes(q.slashes)];
    }
  }

  /** The text leaves no quoted part open. */
  predicate Closed(s: string) {
    !ReadAll(Fresh([]), s).quoted
  }

  lemma ClosedTextThenBlank(args: seq<string>, s: string)
    requires Closed(s)
    ensures Done(ReadAll(Fresh(args), s)) == args + ToArgs(s)
    ensures ReadAll(Fresh(args), s + " ") == Fresh(args + ToArgs(s))
  {
    var q := ReadAll(Fresh([]), s);
    ReadFrame(Fresh([]), args, s);
    assert args + [] == args;
    assert args + (q.args + [q.text + Slashes(q.slashes)]) == args + q.args + [q.text + Slashes(q.slashes)];
    ReadAppend(Fresh(args), s, " ");
    ReadOne(ReadAll(Fresh(args), s), ' ');
  }

  function Pieces(texts: seq<string>, k: nat): seq<string>
    requires k <= |texts|
    decreases |texts| - k
  {
    if k == |texts| then [] else ToArgs(texts[k]) + Pieces(texts, k + 1)
  }

  /** The texts from `k` on leave no quoted part open. */
  predicate ClosedFrom(texts: seq<string>, k: nat)
    requires k <= |texts|
    decreases |texts| - k
  {
    k == |texts| || (Closed(texts[k]) && ClosedFrom(texts, k + 1))
  }

  lemma {:induction false} AllClosed(texts: seq<string>, k: nat)
    requires k <= |texts| && forall j :: 0 <= j < |texts| ==> Closed(texts[j])
    ensures ClosedFrom(texts, k)
    decreases |texts| - k
  {
    if k < |texts| { AllClosed(texts, k + 1); }
  }

  /** Texts that close their quotes decode one after the other. */
  lemma {:induction false} JoinReads(args: seq<string>, texts: seq<string>, k: nat)
    requires k <= |texts| && ClosedFrom(texts, k)
    ensures Done(ReadAll(Fresh(args), Join(texts, k))) == args + Pieces(texts, k)
    decreases |texts| - k
  {
    if k == |texts| {
      NothingReads(args, texts);
    } else {
      JoinReads(args + ToArgs(texts[k]), texts, k + 1);
      JoinReadsStep(args, texts, k);
    }
  }

  lemma NothingReads(args: seq<string>, texts: seq<string>)
    ensures Done(ReadAll(Fresh(args), Join(texts, |texts|))) == args + Pieces(texts, |texts|)
  {
    assert args + [] == args;
  }

  lemma JoinReadsStep(args: seq<string>, texts: seq<string>, k: nat)
    requires k < |texts| && Closed(texts[k])
    requires Done(ReadAll(Fresh(args + ToArgs(texts[k])), Join(texts, k + 1))) == args + ToArgs(texts[k]) + Pieces(texts, k + 1)
    ensures Done(ReadAll(Fresh(args), Join(texts, k))) == args + Pieces(texts, k)
  {
    if k + 1 == |texts| {
      LastReads(args, texts[k]);
      JoinLast(texts, k);
    } else {
      JoinStep(texts, k);
      TextThenRest(args, texts[k], Join(texts, k + 1), Pieces(texts, k + 1));
    }
  }

  lemma TextThenRest(args: seq<string>, t: string, rest: string, pieces: seq<string>)
    requires Closed(t) && Done(ReadAll(Fresh(args + ToArgs(t)), rest)) == args + ToArgs(t) + pieces
    ensures Done(ReadAll(Fresh(args), t + " " + rest)) == args + (ToArgs(t) + pieces)
  {
    NextReads(args, t, rest);
    Regroup(args, ToArgs(t), pieces);
  }

  lemma JoinLast(texts: seq<string>, k: nat)
    requires k + 1 == |texts|
    ensures Join(texts, k) == texts[k] && Pieces(texts, k) == ToArgs(texts[k]) + []
  {
    assert Pieces(texts, k + 1) == [];
  }

  lemma JoinStep(texts: seq<string>, k: nat)
    requires k + 1 < |texts|
    ensures Join(texts, k) == texts[k] + " " + Join(texts, k + 1)
    ensures Pieces(texts, k) == ToArgs(texts[k]) + Pieces(texts, k + 1)
  {}

  lemma LastReads(args: seq<string>, t: string)
    requires Closed(t)
    ensures Done(ReadAll(Fresh(args), t)) == args + (ToArgs(t) + [])
  {
    ClosedTextThenBlank(args, t);
    assert ToArgs(t) + [] == ToArgs(t);
  }

  lemma NextReads(args: seq<string>, t: string, rest: string)
    requires Closed(t)
    ensures ReadAll(Fresh(args), t + " " + rest) == ReadAll(Fresh(args + ToArgs(t)), rest)
  {
    ClosedTextThenBlank(args, t);
    ReadAppend(Fresh(args), t + " ", rest);
  }

  // ----- text without a quote character

  predicate NoBlank(s: string) {
    forall i :: 0 <= i < |s| ==> !Blank(s[i])
  }

  /** Reading plain text: every piece is non-empty and free of blanks; without
      blanks the text is one piece; with no piece at all it is all blanks. */
  ghost predicate PlainRead(q: Reader, s: string) {
    && !q.quoted
    && (forall k :: 0 <= k < |q.args| ==> q.args[k] != "" && NoBlank(q.args[k]))
    && NoBlank(q.text)
    && (q.begun <==> q.text != "" || q.slashes > 0)
    && (NoBlank(s) ==> q.args == [] && q.text + Slashes(q.slashes) == s)
    && (q.args == [] && !q.begun ==> forall i :: 0 <= i < |s| ==> Blank(s[i]))
  }

  lemma {:induction false} PlainReads(s: string)
    requires '"' !in s
    ensures PlainRead(ReadAll(Fresh([]), s), s)
    decreases |s|
  {
    if s != "" {
      var a, c := s[..|s| - 1], s[|s| - 1];
      PlainReads(a);
      assert s == a + [c];
      PlainReadsOne(ReadAll(Fresh([]), a), a, c);
    }
  }

  lemma PlainReadsOne(q: Reader, a: string, c: char)
    requires PlainRead(q, a) && c != '"'
    ensures PlainRead(Read(q, c), a + [c])
  {
    NoBlankSnoc(a, c);
    SlashesAdd(0, q.slashes);
    if c == '\\' {
      assert q.text + (Slashes(q.slashes) + "\\") == q.text + Slashes(q.slashes) + "\\";
    } else if Blank(c) {
      PlainBlank(q, a);
    } else {
      PlainChar(q, a, c);
    }
  }

  lemma PlainBlank(q: Reader, a: string)
    requires PlainRead(q, a)
    ensures forall k :: 0 <= k < |Done(q)| ==> Done(q)[k] != "" && NoBlank(Done(q)[k])
    ensures Done(q) == [] ==> q.args == [] && !q.begun
  {
    SlashesAdd(0, q.slashes);
  }

  lemma PlainChar(q: Reader, a: string, c: char)
    requires PlainRead(q, a) && c != '"' && c != '\\' && !Blank(c)
    ensures PlainRead(Read(q, c), a + [c])
  {
    NoBlankSnoc(a, c);
    NoBlankSnoc(q.text + Slashes(q.slashes), c);
    SlashesAdd(0, q.slashes);
    var text := q.text + Slashes(q.slashes) + [c];
    assert text + Slashes(0) == text;
  }

  lemma NoBlankSnoc(a: string, c: char)
    ensures NoBlank(a + [c]) <==> NoBlank(a) && !Blank(c)
  {
    var s := a + [c];
    assert s[|a|] == c && forall i :: 0 <= i < |a| ==> s[i] == a[i];
  }

  // ----- which tokens survive

  /** The token is printed so that it decodes to itself: an argument that is
      not empty, and has no tab unless something makes it quoted; a switch
      whose name has no blank and no double quote, that does not end at its
      first '=', and whose value has no tab unless something makes it quoted. */
  predicate Survives(t: string, switch: bool, placeholders: bool) {
    if switch then
      && NoBlank(Name(t)) && '"' !in Name(t)
      && (Value(t) == "" ==> EqualsAt(t) == |t|)
      && (NeedsQuotes(Value(t), placeholders) || '\t' !in Value(t))
    else
      t != "" && (NeedsQuotes(t, placeholders) || '\t' !in t)
  }

  predicate HasNonTab(s: string) {
    exists i :: 0 <= i < |s| && s[i] != '\t'
  }

  /** What a printed token contributes to the decoded list. */
  ghost predicate Contributes(t: string, text: string, survives: bool) {
    Closed(text) && Settles(t, ToArgs(text), survives)
  }

  /** `part`, decoded from one printed token, is the token or cannot start with
      it, and is missing only for a token of tabs, which no part holds. */
  ghost predicate Settles(t: string, part: seq<string>, survives: bool) {
    && (survives ==> part == [t])
    && (!survives && part != [] ==> part[0] != t)
    && (part == [] ==> !HasNonTab(t))
    && (forall k :: 0 <= k < |part| ==> HasNonTab(part[k]))
  }

  lemma OpenQuote(args: seq<string>, text: string, begun: bool)
    ensures Read(Reader(args, text, begun, false, 0), '"') == Reader(args, text, true, true, 0)
  {
    assert text + Slashes(0) == text;
  }

  lemma QuotedAfter(s: string, value: string)
    requires var q := ReadAll(Fresh([]), s); !q.quoted && q.slashes == 0
    ensures var q := ReadAll(Fresh([]), s);
      ReadAll(Fresh([]), s + "\"" + (Escaped(value) + "\"")) == Reader(q.args, q.text + value, true, false, 0)
  {
    var q := ReadAll(Fresh([]), s);
    ReadAppend(Fresh([]), s + "\"", Escaped(value) + "\"");
    ReadAppend(Fresh([]), s, "\"");
    ReadOne(q, '"');
    OpenQuote(q.args, q.text, q.begun);
    EscapedReads(Reader(q.args, q.text, true, true, 0), value);
  }

  lemma QuotedArgument(t: string, placeholders: bool)
    requires NeedsQuotes(t, placeholders)
    ensures Contributes(t, Quote(t, placeholders), true)
  {
    QuotedFromStart(t, Quote(t, placeholders));
    var i :| 0 <= i < |t| && Quotable(t[i], placeholders);
    assert t[i] != '\t';
    ReadsAsOne(t, Quote(t, placeholders));
  }

  lemma QuotedFromStart(t: string, text: string)
    requires text == "\"" + Escaped(t) + "\""
    ensures ReadAll(Fresh([]), text) == Reader([], t, true, false, 0)
  {
    QuotedAfter("", t);
    assert "" + "\"" + (Escaped(t) + "\"") == text;
    assert "" + t == t;
  }

  lemma ReadsAsOne(t: string, text: string)
    requires ReadAll(Fresh([]), text) == Reader([], t, true, false, 0) && HasNonTab(t)
    ensures Contributes(t, text, true)
  {
    assert t + Slashes(0) == t;
    assert [] + [t] == [t];
    assert ToArgs(text) == [t];
  }

  lemma PlainPieces(text: string)
    requires '"' !in text
    ensures Closed(text)
    ensures forall k :: 0 <= k < |ToArgs(text)| ==> NoBlank(ToArgs(text)[k]) && HasNonTab(ToArgs(text)[k])
    ensures NoBlank(text) && text != "" ==> ToArgs(text) == [text]
    ensures ToArgs(text) == [] ==> forall i :: 0 <= i < |text| ==> Blank(text[i])
  {
    PlainReads(text);
    var q := ReadAll(Fresh([]), text);
    SlashesAdd(0, q.slashes);
    forall k | 0 <= k < |ToArgs(text)| ensures NoBlank(ToArgs(text)[k]) && HasNonTab(ToArgs(text)[k]) {
      assert ToArgs(text)[k] != "";
      assert !Blank(ToArgs(text)[k][0]);
    }
  }

  lemma PlainArgument(t: string, placeholders: bool)
    requires !NeedsQuotes(t, placeholders)
    ensures Contributes(t, t, Survives(t, false, placeholders))
  {
    assert forall i :: 0 <= i < |t| ==> !Quotable(t[i], placeholders);
    PlainPieces(t);
    assert '\t' !in t <==> NoBlank(t);
  }

  /** A switch printed without quotes, possibly losing its final '='. */
  lemma PlainSwitch(t: string, text: string)
    requires '"' !in text && text != "" && !Blank(text[0])
    requires !NoBlank(text) ==> !NoBlank(t)
    ensures Contributes(t, text, t == text && NoBlank(text))
  {
    PlainPieces(text);
  }

  lemma EndsUnescaped(s: string)
    requires '"' !in s
    ensures var q := ReadAll(Fresh([]), s + "="); q.slashes == 0 && q.text != ""
  {
    ReadAppend(Fresh([]), s, "=");
    ReadOne(ReadAll(Fresh([]), s), '=');
    PlainReads(s);
  }

  lemma QuotedSwitchReads(name: string, value: string, placeholders: bool) returns (q: Reader)
    requires '"' !in name && NeedsQuotes(value, placeholders)
    ensures PlainRead(q, name + "=") && q.text != "" && q.slashes == 0
    ensures Closed(name + "=" + Quote(value, placeholders))
    ensures ToArgs(name + "=" + Quote(value, placeholders)) == q.args + [q.text + value]
  {
    var head := name + "=";
    q := ReadAll(Fresh([]), head);
    assert '"' !in head;
    PlainReads(head);
    EndsUnescaped(name);
    QuotedValueReads(head, value, placeholders);
  }

  lemma QuotedValueReads(head: string, value: string, placeholders: bool)
    requires NeedsQuotes(value, placeholders)
    requires var q := ReadAll(Fresh([]), head); !q.quoted && q.slashes == 0
    ensures var q := ReadAll(Fresh([]), head);
      Closed(head + Quote(value, placeholders)) && ToArgs(head + Quote(value, placeholders)) == q.args + [q.text + value]
  {
    var q := ReadAll(Fresh([]), head);
    QuotedAfter(head, value);
    BetweenQuotes(head, Escaped(value));
    DoneAfterQuote(q.args, q.text + value);
  }

  lemma BetweenQuotes(head: string, s: string)
    ensures head + "\"" + (s + "\"") == head + ("\"" + s + "\"")
  {}

  lemma DoneAfterQuote(args: seq<string>, text: string)
    ensures Done(Reader(args, text, true, false, 0)) == args + [text]
  {
    assert text + Slashes(0) == text;
  }

  lemma QuotedSwitch(t: string, placeholders: bool)
    requires '"' !in Name(t) && NeedsQuotes(Value(t), placeholders)
    ensures Contributes(t, Name(t) + "=" + Quote(Value(t), placeholders), NoBlank(Name(t)))
  {
    var head, value := Name(t) + "=", Value(t);
    var q := QuotedSwitchReads(Name(t), value, placeholders);
    NameAndValue(t);
    assert HasNonTab(q.text + value) by {
      assert !Blank(q.text[0]) && (q.text + value)[0] == q.text[0];
    }
    forall k | 0 <= k < |q.args| ensures HasNonTab(q.args[k]) {
      assert !Blank(q.args[k][0]);
    }
    assert NoBlank(head) <==> NoBlank(Name(t));
    if NoBlank(head) {
      assert q.text + Slashes(0) == q.text;
    } else {
      HeadMustMatch(q.text, head, value);
      NameBlanks(t, t);
    }
  }

  lemma HeadMustMatch(a: string, b: string, value: string)
    ensures a + value == b + value ==> a == b
  {
    if a + value == b + value {
      assert |a| == |b|;
      assert a == (a + value)[..|a|] && b == (b + value)[..|b|];
    }
  }

  /** Every printed token, quoted or not. */
  lemma TokenContributes(t: string, switch: bool, mode: Mode)
    requires switch ==> IsSwitch(t, mode.slash) && '"' !in Name(t)
    ensures Contributes(t, Text(t, switch, mode.placeholders), Survives(t, switch, mode.placeholders))
  {
    var p := mode.placeholders;
    if !switch {
      if NeedsQuotes(t, p) { QuotedArgument(t, p); } else { PlainArgument(t, p); }
    } else if NeedsQuotes(Value(t), p) {
      QuotedSwitch(t, p);
    } else {
      BareSwitch(t, mode);
    }
  }

  /** A switch whose value needs no quotes. */
  lemma BareSwitch(t: string, mode: Mode)
    requires IsSwitch(t, mode.slash) && '"' !in Name(t) && !NeedsQuotes(Value(t), mode.placeholders)
    ensures Contributes(t, Text(t, true, mode.placeholders), Survives(t, true, mode.placeholders))
  {
    var text := Text(t, true, mode.placeholders);
    NameAndValue(t);
    assert Name(t) != "" && Name(t)[0] == t[0];
    assert forall i :: 0 <= i < |Value(t)| ==> !Quotable(Value(t)[i], mode.placeholders);
    assert '"' !in text;
    BareTabs(Value(t), mode.placeholders);
    NameBlanks(t, text);
    PlainSwitch(t, text);
  }

  lemma BareTabs(value: string, placeholders: bool)
    requires !NeedsQuotes(value, placeholders)
    ensures NoBlank(value) <==> '\t' !in value
  {
    assert forall i :: 0 <= i < |value| ==> !Quotable(value[i], placeholders);
  }

  lemma NameBlanks(t: string, text: string)
    requires text == t || text == Name(t)
    ensures !NoBlank(text) ==> !NoBlank(t)
    ensures NoBlank(t) <==> NoBlank(Name(t)) && NoBlank(Value(t))
  {
    NameAndValue(t);
    forall i | 0 <= i < |text| ensures text[i] == t[i] {}
  }

  // ----- the round trip

  ghost predicate AllContribute(tokens: seq<string>, texts: seq<string>, good: seq<bool>) {
    |tokens| == |texts| == |good| && forall k :: 0 <= k < |tokens| ==> Contributes(tokens[k], texts[k], good[k])
  }

  function Concat(parts: seq<seq<string>>, k: nat): seq<string>
    requires k <= |parts|
    decreases |parts| - k
  {
    if k == |parts| then [] else parts[k] + Concat(parts, k + 1)
  }

  ghost predicate AllSettle(tokens: seq<string>, parts: seq<seq<string>>, good: seq<bool>) {
    |tokens| == |parts| == |good| && forall k :: 0 <= k < |tokens| ==> Settles(tokens[k], parts[k], good[k])
  }

  lemma {:induction false} PartsHaveNonTabs(tokens: seq<string>, parts: seq<seq<string>>, good: seq<bool>, k: nat)
    requires AllSettle(tokens, parts, good) && k <= |parts|
    ensures forall p :: p in Concat(parts, k) ==> HasNonTab(p)
    decreases |parts| - k
  {
    if k < |parts| { PartsHaveNonTabs(tokens, parts, good, k + 1); }
  }

  lemma {:induction false} PartsMatch(tokens: seq<string>, parts: seq<seq<string>>, good: seq<bool>, k: nat)
    requires AllSettle(tokens, parts, good) && k <= |parts|
    ensures Concat(parts, k) == tokens[k..] <==> AllFrom(good, k)
    decreases |parts| - k
  {
    if k < |parts| {
      PartsMatch(tokens, parts, good, k + 1);
      PartsHaveNonTabs(tokens, parts, good, k + 1);
      TailAt(tokens, k);
      AllFromStep(good, k);
      HeadDecides(tokens[k], parts[k], good[k], Concat(parts, k + 1), tokens[k + 1..]);
    }
  }

  ghost predicate AllFrom(good: seq<bool>, k: nat) {
    forall j :: k <= j < |good| ==> good[j]
  }

  lemma AllFromStep(good: seq<bool>, k: nat)
    requires k < |good|
    ensures AllFrom(good, k) <==> good[k] && AllFrom(good, k + 1)
  {}

  lemma TailAt(tokens: seq<string>, k: nat)
    requires k < |tokens|
    ensures tokens[k..] == [tokens[k]] + tokens[k + 1..]
  {}

  lemma {:induction false} PiecesAreParts(texts: seq<string>, parts: seq<seq<string>>, k: nat)
    requires |parts| == |texts| && k <= |texts| && forall j :: 0 <= j < |texts| ==> parts[j] == ToArgs(texts[j])
    ensures Pieces(texts, k) == Concat(parts, k)
    decreases |texts| - k
  {
    if k < |texts| { PiecesAreParts(texts, parts, k + 1); }
  }

  lemma HeadDecides(t: string, first: seq<string>, good: bool, rest: seq<string>, tail: seq<string>)
    requires Settles(t, first, good) && forall p :: p in rest ==> HasNonTab(p)
    ensures first + rest == [t] + tail <==> good && rest == tail
  {
    var all := first + rest;
    if good {
      assert all[1..] == rest && ([t] + tail)[1..] == tail;
    } else if first == [] {
      assert all == rest && (rest != [] ==> rest[0] in rest);
      assert ([t] + tail)[0] == t;
    } else {
      assert all[0] == first[0] && ([t] + tail)[0] == t;
    }
  }

  predicate SurvivesAt(tokens: seq<string>, k: nat, mode: Mode)
    requires k < |tokens|
  {
    Survives(tokens[k], SwitchAt(tokens, k, mode), mode.placeholders)
  }

  predicate NamesUnquoted(tokens: seq<string>, mode: Mode) {
    forall k :: 0 <= k < |tokens| && SwitchAt(tokens, k, mode) ==> '"' !in Name(tokens[k])
  }

  function Survivors(tokens: seq<string>, mode: Mode): seq<bool> {
    seq(|tokens|, k requires 0 <= k < |tokens| => SurvivesAt(tokens, k, mode))
  }

  lemma TokensContribute(tokens: seq<string>, mode: Mode)
    requires NamesUnquoted(tokens, mode)
    ensures AllContribute(tokens, Texts(tokens, mode), Survivors(tokens, mode))
  {
    forall k | 0 <= k < |tokens|
      ensures Contributes(tokens[k], Texts(tokens, mode)[k], Survivors(tokens, mode)[k])
    {
      TokenContributes(tokens[k], SwitchAt(tokens, k, mode), mode);
    }
  }

  // ----- the same, by characters alone

  /** Something in `s` makes the printer quote it. */
  predicate Quotes(s: string, placeholders: bool) {
    ' ' in s || '\\' in s || '"' in s || (placeholders && '%' in s)
  }

  /** A dash, or a slash if that counts, and more; but not two dashes alone. */
  predicate LooksLikeSwitch(t: string, slash: bool) {
    |t| > 1 && t != "--" && (t[0] == '-' || (slash && t[0] == '/'))
  }

  predicate CleanName(n: string) {
    ' ' !in n && '\t' !in n && '"' !in n
  }

  predicate CleanText(s: string, placeholders: bool) {
    Quotes(s, placeholders) || '\t' !in s
  }

  /** The token's first '=' is between `n` and `v`. */
  predicate CutsInto(t: string, n: string, v: string) {
    '=' !in n && t == n + "=" + v
  }

  /** A switch has a clean name and, if it has an '=', a value, and that is clean;
      an argument is not empty, and clean. */
  ghost predicate IntactToken(t: string, switch: bool, placeholders: bool) {
    if switch then
      && ('=' !in t ==> CleanName(t))
      && (forall n, v :: CutsInto(t, n, v) ==> CleanName(n) && v != "" && CleanText(v, placeholders))
    else t != "" && CleanText(t, placeholders)
  }

  ghost predicate Intact(tokens: seq<string>, k: nat, mode: Mode)
    requires k < |tokens|
  {
    IntactToken(tokens[k], "--" !in tokens[..k] && LooksLikeSwitch(tokens[k], mode.slash), mode.placeholders)
  }

  lemma QuotesIff(s: string, placeholders: bool)
    ensures NeedsQuotes(s, placeholders) <==> Quotes(s, placeholders)
  {
    if NeedsQuotes(s, placeholders) {
      var i :| 0 <= i < |s| && Quotable(s[i], placeholders);
      assert s[i] in s;
    }
    if Quotes(s, placeholders) {
      var i :| 0 <= i < |s| && Quotable(s[i], placeholders);
    }
  }

  /** An argument is printed as it is exactly when it has no space, backslash or
      double quote nor, with placeholders, a '%'; else it is put between quotes. */
  lemma QuotedIff(arg: string, placeholders: bool)
    ensures Quote(arg, placeholders) == arg <==> !Quotes(arg, placeholders)
    ensures Quotes(arg, placeholders) ==> Quote(arg, placeholders) == "\"" + Escaped(arg) + "\""
  {
    QuotesIff(arg, placeholders);
    EscapedLength(arg);
  }

  lemma {:induction false} EscapedLength(arg: string)
    ensures |Escaped(arg)| >= |arg|
    decreases |arg|
  {
    var n := RunLength(arg);
    if n == |arg| {
      OnlySlashes(arg);
      SlashesAdd(0, 2 * n);
    } else {
      EscapedStep(arg, n);
      EscapedLength(arg[n + 1..]);
      SlashesAdd(0, 2 * n + 1);
      SlashesAdd(0, n);
    }
  }

  lemma SwitchIff(t: string, slash: bool)
    ensures IsSwitch(t, slash) <==> LooksLikeSwitch(t, slash)
  {}

  lemma CleanNameIff(n: string)
    ensures NoBlank(n) && '"' !in n <==> CleanName(n)
  {
    if NoBlank(n) {
      assert forall c :: c in n ==> !Blank(c);
    }
    if CleanName(n) {
      assert forall i :: 0 <= i < |n| ==> n[i] in n;
    }
  }

  lemma CutUnique(t: string, n: string, v: string)
    requires CutsInto(t, n, v)
    ensures EqualsAt(t) == |n| < |t| && Name(t) == n && Value(t) == v
  {
    assert t[|n|] == '=' && forall j :: 0 <= j < |n| ==> t[j] == n[j];
  }

  lemma SurvivesIff(t: string, switch: bool, placeholders: bool)
    ensures Survives(t, switch, placeholders) <==> IntactToken(t, switch, placeholders)
  {
    QuotesIff(t, placeholders);
    if switch { SwitchSurvivesIff(t, placeholders); }
  }

  lemma SwitchSurvivesIff(t: string, placeholders: bool)
    ensures Survives(t, true, placeholders) <==> IntactToken(t, true, placeholders)
  {
    NameAndValue(t);
    CleanNameIff(Name(t));
    QuotesIff(Value(t), placeholders);
    forall n, v | CutsInto(t, n, v) ensures EqualsAt(t) < |t| && n == Name(t) && v == Value(t) {
      CutUnique(t, n, v);
    }
    if EqualsAt(t) < |t| {
      assert t[EqualsAt(t)] in t;
      assert CutsInto(t, Name(t), Value(t));
    }
  }

  lemma SurvivesAtIff(tokens: seq<string>, k: nat, mode: Mode)
    requires k < |tokens|
    ensures SurvivesAt(tokens, k, mode) <==> Intact(tokens, k, mode)
  {
    var t := tokens[k];
    SwitchIff(t, mode.slash);
    assert tokens[..k + 1] == tokens[..k] + [t];
    SurvivesIff(t, SwitchAt(tokens, k, mode), mode.placeholders);
  }

  /** For every list of tokens: decoding the printed arguments gives the list
      back exactly when every token is intact. */
  lemma PrintedDecodes(tokens: seq<string>, mode: Mode)
    ensures ToArgs(Printed(tokens, mode)) == tokens <==> forall k :: 0 <= k < |tokens| ==> Intact(tokens, k, mode)
  {
    SurvivorsDecode(tokens, mode);
    forall k | 0 <= k < |tokens| ensures SurvivesAt(tokens, k, mode) <==> Intact(tokens, k, mode) {
      SurvivesAtIff(tokens, k, mode);
    }
  }

  /** A switch is printed as its name, '=' and its quoted value, losing an '='
      that nothing follows; an argument is quoted whole. */
  lemma TextMeans(n: string, v: string, placeholders: bool)
    requires '=' !in n
    ensures Text(n, true, placeholders) == n
    ensures Text(n + "=" + v, true, placeholders) == if v == "" then n else n + "=" + Quote(v, placeholders)
    ensures Text(n, false, placeholders) == Quote(n, placeholders)
  {
    CutUnique(n + "=" + v, n, v);
    NameAndValue(n);
    assert EqualsAt(n) == |n|;
  }

  /** Between the texts there is one character, and nothing around them. */
  lemma {:induction false} JoinLength(texts: seq<string>, k: nat)
    requires k <= |texts|
    ensures |Join(texts, k)| == if k == |texts| then 0 else BulkFrom(texts, k) - 1
    decreases |texts| - k
  {
    if k < |texts| {
      JoinLength(texts, k + 1);
      JoinLengthStep(texts, k);
    }
  }

  lemma JoinLengthStep(texts: seq<string>, k: nat)
    requires k < |texts|
    ensures |Join(texts, k)| == |texts[k]| + if k + 1 < |texts| then 1 + |Join(texts, k + 1)| else 0
    ensures BulkFrom(texts, k) == |texts[k]| + 1 + BulkFrom(texts, k + 1)
  {}

  lemma SurvivorsDecode(tokens: seq<string>, mode: Mode)
    ensures ToArgs(Printed(tokens, mode)) == tokens <==> forall k :: 0 <= k < |tokens| ==> SurvivesAt(tokens, k, mode)
  {
    if NamesUnquoted(tokens, mode) {
      UnquotedDecodes(tokens, mode);
    } else {
      var k :| 0 <= k < |tokens| && SwitchAt(tokens, k, mode) && '"' in Name(tokens[k]);
      assert !SurvivesAt(tokens, k, mode);
      QuotedNameIsLost(tokens, k, mode);
    }
  }

  lemma UnquotedDecodes(tokens: seq<string>, mode: Mode)
    requires NamesUnquoted(tokens, mode)
    ensures ToArgs(Printed(tokens, mode)) == tokens <==> forall k :: 0 <= k < |tokens| ==> SurvivesAt(tokens, k, mode)
  {
    var texts, good := Texts(tokens, mode), Survivors(tokens, mode);
    TokensContribute(tokens, mode);
    var parts := seq(|texts|, k requires 0 <= k < |texts| => ToArgs(texts[k]));
    PrintedPieces(tokens, texts, good);
    PiecesAreParts(texts, parts, 0);
    PartsMatch(tokens, parts, good, 0);
    assert tokens[0..] == tokens;
    assert forall k :: 0 <= k < |tokens| ==> good[k] == SurvivesAt(tokens, k, mode);
  }

  lemma PrintedPieces(tokens: seq<string>, texts: seq<string>, good: seq<bool>)
    requires AllContribute(tokens, texts, good)
    ensures ToArgs(Join(texts, 0)) == Pieces(texts, 0)
  {
    AllClosed(texts, 0);
    JoinReads([], texts, 0);
    assert [] + Pieces(texts, 0) == Pieces(texts, 0);
  }

  // ----- a double quote in a switch name

  /** How much text a list of arguments holds, one more for each. */
  function Bulk(args: seq<string>): nat {
    if args == [] then 0 else Bulk(args[..|args| - 1]) + |args[|args| - 1]| + 1
  }

  /** What a reader may yet deliver of what it has read. */
  function Weight(r: Reader): nat {
    Bulk(r.args) + |r.text| + r.slashes + 1
  }

  /** Reading `s`, from whatever state, adds at most `gain`. */
  ghost predicate Adds(s: string, gain: int) {
    forall r :: Weight(ReadAll(r, s)) <= Weight(r) + gain
  }

  lemma BulkSnoc(args: seq<string>, a: string)
    ensures Bulk(args + [a]) == Bulk(args) + |a| + 1
  {
    assert (args + [a])[..|args|] == args;
  }

  lemma DoneWeighs(r: Reader)
    ensures Bulk(Done(r)) <= Weight(r)
  {
    SlashesAdd(0, r.slashes);
    BulkSnoc(r.args, r.text + Slashes(r.slashes));
  }

  /** A character adds at most one; a double quote adds nothing. */
  lemma ReadWeighs(r: Reader, c: char)
    ensures Weight(Read(r, c)) <= Weight(r) + if c == '"' then 0 else 1
  {
    if c == '"' {
      HalfRun(r);
    } else {
      SlashesAdd(0, r.slashes);
      DoneWeighs(r);
    }
  }

  lemma HalfRun(q: Reader)
    ensures Weight(Read(q, '"')) <= Bulk(q.args) + |q.text| + (q.slashes + 1) / 2 + 1
  {
    SlashesAdd(0, q.slashes / 2);
  }

  lemma AddsThen(a: string, b: string, g: int, h: int)
    requires Adds(a, g) && Adds(b, h)
    ensures Adds(a + b, g + h)
  {
    forall r ensures Weight(ReadAll(r, a + b)) <= Weight(r) + (g + h) {
      ReadAppend(r, a, b);
    }
  }

  lemma OneAdds(c: char)
    ensures Adds([c], if c == '"' then 0 else 1)
  {
    forall r ensures Weight(ReadAll(r, [c])) <= Weight(r) + if c == '"' then 0 else 1 {
      ReadOne(r, c);
      ReadWeighs(r, c);
    }
  }

  lemma {:induction false} TextAdds(s: string)
    ensures Adds(s, |s|)
    ensures '"' in s ==> Adds(s, |s| - 1)
    decreases |s|
  {
    if s != "" {
      var a, c := s[..|s| - 1], s[|s| - 1];
      assert s == a + [c];
      TextAdds(a);
      OneAdds(c);
      AddsThen(a, [c], |a|, if c == '"' then 0 else 1);
      if '"' in a { AddsThen(a, [c], |a| - 1, 1); }
    }
  }

  lemma {:induction false} ReadSlashesAnywhere(r: Reader, n: nat)
    ensures ReadAll(r, Slashes(n)) == r.(begun := r.begun || n > 0, slashes := r.slashes + n)
    decreases n
  {
    if n > 0 {
      ReadSlashesAnywhere(r, n - 1);
      ReadAppend(r, Slashes(n - 1), "\\");
      ReadOne(ReadAll(r, Slashes(n - 1)), '\\');
    }
  }

  /** A run of backslashes and the quote after it, escaped or closing, add at
      most half of the run, wherever they are read. */
  lemma RunAdds(m: nat)
    ensures Adds(Slashes(m) + "\"", (m + 1) / 2)
  {
    forall r ensures Weight(ReadAll(r, Slashes(m) + "\"")) <= Weight(r) + (m + 1) / 2 {
      var q := r.(begun := r.begun || m > 0, slashes := r.slashes + m);
      ReadAppend(r, Slashes(m), "\"");
      ReadSlashesAnywhere(r, m);
      ReadOne(q, '"');
      HalfRun(q);
    }
  }

  lemma UnitAdds(n: nat, c: char)
    requires c != '\\'
    ensures Adds(EscapedUnit(n, c), n + 1)
  {
    if c == '"' {
      RunAdds(2 * n + 1);
    } else {
      SlashesAdd(0, n);
      TextAdds(Slashes(n) + [c]);
    }
  }

  /** The escaped text and its closing quote add at most what they escape. */
  lemma {:induction false} EscapedAdds(arg: string)
    ensures Adds(Escaped(arg) + "\"", |arg|)
    decreases |arg|
  {
    var n := RunLength(arg);
    if n == |arg| {
      OnlySlashes(arg);
      RunAdds(2 * n);
    } else {
      var unit, tail := EscapedUnit(n, arg[n]), Escaped(arg[n + 1..]);
      EscapedStep(arg, n);
      Regroup(unit, tail, "\"");
      EscapedAdds(arg[n + 1..]);
      UnitAdds(n, arg[n]);
      AddsThen(unit, tail + "\"", n + 1, |arg| - n - 1);
    }
  }

  lemma QuoteAdds(arg: string, placeholders: bool)
    ensures Adds(Quote(arg, placeholders), |arg|)
  {
    if NeedsQuotes(arg, placeholders) {
      OneAdds('"');
      EscapedAdds(arg);
      AddsThen("\"", Escaped(arg) + "\"", 0, |arg|);
      Regroup("\"", Escaped(arg), "\"");
    } else {
      TextAdds(arg);
    }
  }

  function Loss(t: string, switch: bool): nat {
    if switch && '"' in Name(t) then 1 else 0
  }

  /** A printed token adds at most its own length, and less when it is a switch
      with a double quote in its name. */
  lemma TokenAdds(t: string, switch: bool, placeholders: bool)
    ensures Adds(Text(t, switch, placeholders), |t| - Loss(t, switch))
  {
    if !switch {
      QuoteAdds(t, placeholders);
    } else {
      var lost := Loss(t, switch);
      NameAndValue(t);
      TextAdds(Name(t));
      if Value(t) != "" {
        QuoteAdds(Value(t), placeholders);
        OneAdds('=');
        AddsThen(Name(t), "=", |Name(t)| - lost, 1);
        AddsThen(Name(t) + "=", Quote(Value(t), placeholders), |Name(t)| - lost + 1, |Value(t)|);
      }
    }
  }

  /** What each token may add when the one at `losing` adds less. */
  function Gain(tokens: seq<string>, j: nat, losing: nat): int
    requires j < |tokens|
  {
    |tokens[j]| - if j == losing then 1 else 0
  }

  function GainFrom(tokens: seq<string>, k: nat, losing: nat): int
    requires k < |tokens|
    decreases |tokens| - k
  {
    if k == |tokens| - 1 then Gain(tokens, k, losing) else Gain(tokens, k, losing) + 1 + GainFrom(tokens, k + 1, losing)
  }

  lemma {:induction false} GainFromIs(tokens: seq<string>, k: nat, losing: nat)
    requires k < |tokens|
    ensures GainFrom(tokens, k, losing) == BulkFrom(tokens, k) - 1 - if k <= losing < |tokens| then 1 else 0
    decreases |tokens| - k
  {
    if k < |tokens| - 1 {
      GainFromIs(tokens, k + 1, losing);
    } else {
      assert BulkFrom(tokens, k + 1) == 0;
    }
  }

  lemma {:induction false} JoinAdds(tokens: seq<string>, texts: seq<string>, k: nat, losing: nat)
    requires |tokens| == |texts| && k < |texts|
    requires forall j :: 0 <= j < |texts| ==> Adds(texts[j], Gain(tokens, j, losing))
    ensures Adds(Join(texts, k), GainFrom(tokens, k, losing))
    decreases |texts| - k
  {
    if k == |texts| - 1 {
      JoinLast(texts, k);
    } else {
      JoinAdds(tokens, texts, k + 1, losing);
      JoinStep(texts, k);
      AddsJoined(texts[k], Join(texts, k + 1), Gain(tokens, k, losing), GainFrom(tokens, k + 1, losing));
    }
  }

  lemma AddsJoined(a: string, b: string, g: int, h: int)
    requires Adds(a, g) && Adds(b, h)
    ensures Adds(a + " " + b, g + 1 + h)
  {
    OneAdds(' ');
    AddsThen(a, " ", g, 1);
    AddsThen(a + " ", b, g + 1, h);
  }

  function BulkFrom(tokens: seq<string>, k: nat): nat
    requires k <= |tokens|
    decreases |tokens| - k
  {
    if k == |tokens| then 0 else |tokens[k]| + 1 + BulkFrom(tokens, k + 1)
  }

  lemma {:induction false} BulkIs(tokens: seq<string>, k: nat)
    requires k <= |tokens|
    ensures Bulk(tokens[..k]) + BulkFrom(tokens, k) == Bulk(tokens)
    decreases |tokens| - k
  {
    if k == |tokens| {
      assert tokens[..k] == tokens;
    } else {
      BulkIs(tokens, k + 1);
      assert tokens[..k + 1] == tokens[..k] + [tokens[k]];
      BulkSnoc(tokens[..k], tokens[k]);
    }
  }

  /** A list with a double quote in a switch name never decodes to itself: the
      decoded arguments hold less text. */
  lemma QuotedNameIsLost(tokens: seq<string>, k: nat, mode: Mode)
    requires k < |tokens| && SwitchAt(tokens, k, mode) && '"' in Name(tokens[k])
    ensures Bulk(ToArgs(Printed(tokens, mode))) < Bulk(tokens)
  {
    var texts := Texts(tokens, mode);
    forall j | 0 <= j < |texts| ensures Adds(texts[j], Gain(tokens, j, k)) {
      TokenAdds(tokens[j], SwitchAt(tokens, j, mode), mode.placeholders);
      LessIsMore(texts[j], |tokens[j]| - Loss(tokens[j], SwitchAt(tokens, j, mode)), Gain(tokens, j, k));
    }
    JoinAdds(tokens, texts, 0, k);
    GainFromIs(tokens, 0, k);
    BulkIs(tokens, 0);
    DecodedWeighs(Join(texts, 0), GainFrom(tokens, 0, k));
  }

  lemma DecodedWeighs(s: string, gain: int)
    requires Adds(s, gain)
    ensures Bulk(ToArgs(s)) <= gain + 1
  {
    var r := ReadAll(Fresh([]), s);
    assert Weight(r) <= Weight(Fresh([])) + gain;
    DoneWeighs(r);
  }

  lemma LessIsMore(s: string, g: int, h: int)
    requires Adds(s, g) && g <= h
    ensures Adds(s, h)
  {}

  /** One printed token decodes to itself exactly when it is intact. */
  lemma TokenReadsBack(t: string, switch: bool, mode: Mode)
    requires switch ==> IsSwitch(t, mode.slash)
    ensures ToArgs(Text(t, switch, mode.placeholders)) == [t] <==> IntactToken(t, switch, mode.placeholders)
  {
    SurvivesIff(t, switch, mode.placeholders);
    if switch && '"' in Name(t) {
      TokenAdds(t, switch, mode.placeholders);
      DecodedWeighs(Text(t, switch, mode.placeholders), |t| - 1);
      BulkSnoc([], t);
      assert [] + [t] == [t];
    } else {
      TokenContributes(t, switch, mode);
    }
  }

  /** One quoted argument decodes to itself unless it is empty or has a tab
      and nothing that makes it quoted. */
  lemma QuoteRoundTrip(arg: string, placeholders: bool)
    ensures ToArgs(Quote(arg, placeholders)) == [arg] <==> arg != "" && CleanText(arg, placeholders)
  {
    QuotesIff(arg, placeholders);
    TokenContributes(arg, false, Mode(true, placeholders));
  }

  /** A double quote in a switch name is printed as it is, and lost. */
  lemma QuoteInNameIsLost()
    ensures var t := "-\"\""; SwitchAt([t], 0, Mode(true, false)) && ToArgs(Printed([t], Mode(true, false))) == ["-"]
  {
    var t, mode := "-\"\"", Mode(true, false);
    assert [t][..1] == [t];
    assert EqualsAt(t) == 3 by { assert t[1..] == "\"\""; assert t[1..][1..] == "\""; assert t[1..][1..][1..] == ""; }
    assert Texts([t], mode)[0] == Text(t, true, false) == t;
    assert t == "-" + "\"" + "\"";
    ReadAppend(Fresh([]), "-" + "\"", "\"");
    ReadAppend(Fresh([]), "-", "\"");
    ReadOne(Fresh([]), '-');
    var r := Reader([], "-", true, false, 0);
    assert "" + Slashes(0) + "-" == "-";
    ReadOne(r, '"');
    OpenQuote([], "-", true);
    ReadOne(r.(quoted := true), '"');
    assert "-" + Slashes(0) == "-";
  }
}
