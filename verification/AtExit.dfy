/** The at-exit stack of managers and the lazy instances registered on it, as
    one thread uses them: managers shadow each other, callbacks run in reverse
    order of registration, and a destroyed lazy instance can be built again. */
module AtExit {
  import opened LazyInstance

  /** A lazy instance; `atExit` is its traits' kRegisterOnExit. */
  datatype Instance = Instance(id: nat, atExit: bool)

  datatype Task = OnExit(instance: Instance) | Client(id: nat)

  /** A registered closure; the stamp numbers registrations in time order. */
  datatype Pending = Pending(stamp: nat, task: Task)

  datatype LogEntry =
    | Built(instance: Instance, made: Word)
    | Added(entry: Pending)
    | Ran(entry: Pending)

  /** Everything but the managers: the lazy words, the registration clock and
      the history. */
  datatype Core = Core(words: map<Instance, Word>, clock: nat, log: seq<LogEntry>)

  function WordOf(words: map<Instance, Word>, i: Instance): Word {
    if i in words then words[i] else UNSET
  }

  // ----- the steps, on the pending queue (oldest registration first)

  function Registered(c: Core, t: Task): Core {
    c.(clock := c.clock + 1, log := c.log + [Added(Pending(c.clock, t))])
  }

  function Executed(c: Core, p: Pending): Core {
    c.(log := c.log + [Ran(p)],
       words := if p.task.OnExit? then c.words[p.task.instance := UNSET] else c.words)
  }

  /** Runs `tasks` from the last to the first. */
  function Drained(c: Core, tasks: seq<Pending>): Core
    decreases |tasks|
  {
    if tasks == [] then c
    else Drained(Executed(c, tasks[|tasks| - 1]), tasks[..|tasks| - 1])
  }

  function Constructed(c: Core, i: Instance, made: Word): Core {
    c.(words := c.words[i := made], log := c.log + [Built(i, made)])
  }

  // ----- the process: managers, bottom first, each with its own stack

  datatype Process = Process(managers: seq<seq<Pending>>, disabled: bool, core: Core)

  function Flat(managers: seq<seq<Pending>>): seq<Pending> {
    if managers == [] then []
    else Flat(managers[..|managers| - 1]) + managers[|managers| - 1]
  }

  function Top(p: Process): seq<Pending>
    requires p.managers != []
  {
    p.managers[|p.managers| - 1]
  }

  function WithTop(p: Process, stack: seq<Pending>): Process
    requires p.managers != []
  {
    p.(managers := p.managers[|p.managers| - 1 := stack])
  }

  function Pushed(p: Process): Process {
    p.(managers := p.managers + [[]])
  }

  function AddToTop(p: Process, t: Task): Process {
    if p.managers == [] then p
    else WithTop(p, Top(p) + [Pending(p.core.clock, t)]).(core := Registered(p.core, t))
  }

  function ProcessNow(p: Process): Process {
    if p.managers == [] then p
    else WithTop(p, []).(core := Drained(p.core, Top(p)))
  }

  function Popped(p: Process): Process {
    if p.managers == [] then p
    else
      var q := if p.disabled then p else ProcessNow(p);
      q.(managers := q.managers[..|q.managers| - 1])
  }

  function Accessed(p: Process, i: Instance, made: Word): Process {
    if Created(WordOf(p.core.words, i)) then p
    else
      var q := p.(core := Constructed(p.core, i, made));
      if i.atExit then AddToTop(q, OnExit(i)) else q
  }

  datatype Op =
    | PushManager
    | PopManager
    | RegisterClient(id: nat)
    | ProcessCallbacks
    | Access(instance: Instance, made: Word)

  function Apply(p: Process, op: Op): Process {
    match op
    case PushManager => Pushed(p)
    case PopManager => Popped(p)
    case RegisterClient(n) => AddToTop(p, Client(n))
    case ProcessCallbacks => ProcessNow(p)
    case Access(i, made) => Accessed(p, i, made)
  }

  const START := Process([], false, Core(map[], 0, []))

  function Run(ops: seq<Op>): Process {
    if ops == [] then START else Apply(Run(ops[..|ops| - 1]), ops[|ops| - 1])
  }

  /** An at-exit instance is only accessed while a manager is alive, and the
      creator returns an instance. */
  predicate Disciplined(ops: seq<Op>) {
    forall k :: 0 <= k < |ops| && ops[k].Access? ==>
      Created(ops[k].made) && (ops[k].instance.atExit ==> Run(ops[..k]).managers != [])
  }

  // ----- what every step keeps

  /** Replays the history of one instance: its word while it is alive, or Broken when it
      was built while alive or destroyed while dead. */
  datatype Life = Alive(word: Word) | Dead | Broken

  function LifeOf(log: seq<LogEntry>, i: Instance): Life {
    if log == [] then Dead
    else
      var before := LifeOf(log[..|log| - 1], i);
      match log[|log| - 1]
      case Built(j, w) => if i != j then before else if before == Dead then Alive(w) else Broken
      case Added(_) => before
      case Ran(p) => if p.task != OnExit(i) then before else if before.Alive? then Dead else Broken
  }

  lemma LifeSnoc(log: seq<LogEntry>, e: LogEntry, i: Instance)
    ensures LifeOf(log + [e], i) ==
      match e {
        case Built(j, w) => if i != j then LifeOf(log, i) else if LifeOf(log, i) == Dead then Alive(w) else Broken
        case Added(_) => LifeOf(log, i)
        case Ran(p) => if p.task != OnExit(i) then LifeOf(log, i) else if LifeOf(log, i).Alive? then Dead else Broken
      }
  {
    assert (log + [e])[..|log|] == log;
  }

  /** Pending entries are in registration order. */
  ghost predicate Ordered(c: Core, q: seq<Pending>) {
    && (forall j, k :: 0 <= j < k < |q| ==> q[j].stamp < q[k].stamp)
    && (forall k :: 0 <= k < |q| ==> q[k].stamp < c.clock)
  }

  /** An at-exit instance is alive exactly when an OnExit for it is pending,
      and then exactly one is. */
  ghost predicate OnExitMatches(c: Core, q: seq<Pending>) {
    && (forall i: Instance :: i in c.words ==> c.words[i] == UNSET || Created(c.words[i]))
    && (forall i: Instance :: i.atExit && Created(WordOf(c.words, i)) ==> exists k :: 0 <= k < |q| && q[k].task == OnExit(i))
    && (forall k :: 0 <= k < |q| && q[k].task.OnExit? ==>
          q[k].task.instance.atExit && Created(WordOf(c.words, q[k].task.instance)))
    && (forall j, k :: 0 <= j < |q| && 0 <= k < |q| && q[j].task.OnExit? && q[j].task == q[k].task ==> j == k)
  }

  ghost predicate HistoryMatches(c: Core) {
    forall i :: LifeOf(c.log, i) == if Created(WordOf(c.words, i)) then Alive(WordOf(c.words, i)) else Dead
  }

  /** Every registration is pending or has run, never both, never twice. */
  ghost predicate Conserved(c: Core, q: seq<Pending>) {
    && (forall s: nat :: s < c.clock ==> IsPending(q, s) || HasRun(c.log, s))
    && (forall k, n :: 0 <= k < |q| && 0 <= n < |c.log| && c.log[n].Ran? ==> c.log[n].entry.stamp != q[k].stamp)
    && (forall m, n :: 0 <= m < n < |c.log| && c.log[m].Ran? && c.log[n].Ran? ==> c.log[m].entry.stamp != c.log[n].entry.stamp)
    && (forall n :: 0 <= n < |c.log| && c.log[n].Ran? ==> c.log[n].entry.stamp < c.clock)
  }

  ghost predicate IsPending(q: seq<Pending>, stamp: nat) {
    exists k :: 0 <= k < |q| && q[k].stamp == stamp
  }

  ghost predicate HasRun(log: seq<LogEntry>, stamp: nat) {
    exists n :: 0 <= n < |log| && log[n].Ran? && log[n].entry.stamp == stamp
  }

  /** `p` was added to the log after position `n`. */
  ghost predicate AddedAfter(log: seq<LogEntry>, n: int, p: Pending) {
    exists m :: n < m < |log| && 0 <= m && log[m] == Added(p)
  }

  /** A pending entry newer than one that ran was registered after that run. */
  ghost predicate LifoPending(c: Core, q: seq<Pending>) {
    forall n, k :: 0 <= n < |c.log| && c.log[n].Ran? && 0 <= k < |q| && c.log[n].entry.stamp < q[k].stamp ==>
      AddedAfter(c.log, n, q[k])
  }

  /** Reverse registration order: when an older entry runs before a newer one,
      the newer was registered only after the older had run. */
  ghost predicate LifoLog(log: seq<LogEntry>) {
    forall m, n :: 0 <= m < n < |log| && log[m].Ran? && log[n].Ran? && log[m].entry.stamp < log[n].entry.stamp ==>
      AddedAfter(log[..n], m, log[n].entry)
  }

  ghost predicate Inv(c: Core, q: seq<Pending>) {
    Ordered(c, q) && OnExitMatches(c, q) && HistoryMatches(c) && Conserved(c, q) && LifoPending(c, q) && LifoLog(c.log)
  }

  // ----- preservation, one queue operation at a time

  lemma AddedAfterGrows(log: seq<LogEntry>, more: seq<LogEntry>, n: int, p: Pending)
    requires AddedAfter(log, n, p)
    ensures AddedAfter(log + more, n, p)
  {
    var m :| n < m < |log| && 0 <= m && log[m] == Added(p);
    assert (log + more)[m] == Added(p);
  }

  lemma HasRunGrows(log: seq<LogEntry>, more: seq<LogEntry>, stamp: nat)
    requires HasRun(log, stamp)
    ensures HasRun(log + more, stamp)
  {
    var n :| 0 <= n < |log| && log[n].Ran? && log[n].entry.stamp == stamp;
    assert (log + more)[n] == log[n];
  }

  lemma IsPendingGrows(q: seq<Pending>, p: Pending, stamp: nat)
    requires IsPending(q, stamp)
    ensures IsPending(q + [p], stamp)
  {
    var k :| 0 <= k < |q| && q[k].stamp == stamp;
    assert (q + [p])[k] == q[k];
  }

  lemma LifoLogGrows(log: seq<LogEntry>, e: LogEntry)
    requires LifoLog(log) && !e.Ran?
    ensures LifoLog(log + [e])
  {
    var l := log + [e];
    forall m, n | 0 <= m < n < |l| && l[m].Ran? && l[n].Ran? && l[m].entry.stamp < l[n].entry.stamp
      ensures AddedAfter(l[..n], m, l[n].entry)
    {
      assert l[..n] == log[..n];
    }
  }

  /** The order and conservation facts only see Added and Ran entries. */
  lemma BuildKeepsOrder(c: Core, q: seq<Pending>, i: Instance, made: Word)
    requires Ordered(c, q) && Conserved(c, q) && LifoPending(c, q) && LifoLog(c.log)
    ensures var d := Constructed(c, i, made); Ordered(d, q) && Conserved(d, q) && LifoPending(d, q) && LifoLog(d.log)
  {
    var d := Constructed(c, i, made);
    forall s: nat | s < c.clock && HasRun(c.log, s) ensures HasRun(d.log, s) {
      HasRunGrows(c.log, [Built(i, made)], s);
    }
    forall n, k | 0 <= n < |c.log| && c.log[n].Ran? && 0 <= k < |q| && c.log[n].entry.stamp < q[k].stamp
      ensures AddedAfter(d.log, n, q[k])
    {
      AddedAfterGrows(c.log, [Built(i, made)], n, q[k]);
    }
    LifoLogGrows(c.log, Built(i, made));
  }

  lemma RegisterKeepsOrder(c: Core, q: seq<Pending>, t: Task)
    requires Ordered(c, q) && Conserved(c, q) && LifoPending(c, q) && LifoLog(c.log)
    ensures var d := Registered(c, t); var r := q + [Pending(c.clock, t)];
      Ordered(d, r) && Conserved(d, r) && LifoPending(d, r) && LifoLog(d.log)
  {
    var p := Pending(c.clock, t);
    var d, r := Registered(c, t), q + [p];
    forall s: nat | s < d.clock ensures IsPending(r, s) || HasRun(d.log, s) {
      if s == c.clock {
        assert r[|q|].stamp == s;
      } else if IsPending(q, s) {
        IsPendingGrows(q, p, s);
      } else {
        HasRunGrows(c.log, [Added(p)], s);
      }
    }
    forall n, k | 0 <= n < |d.log| && d.log[n].Ran? && 0 <= k < |r| && d.log[n].entry.stamp < r[k].stamp
      ensures AddedAfter(d.log, n, r[k])
    {
      if k == |q| {
        assert d.log[|c.log|] == Added(p);
      } else {
        AddedAfterGrows(c.log, [Added(p)], n, q[k]);
      }
    }
    LifoLogGrows(c.log, Added(p));
  }

  lemma ExecuteKeepsConserved(c: Core, q: seq<Pending>)
    requires q != [] && Ordered(c, q) && Conserved(c, q)
    ensures Conserved(Executed(c, q[|q| - 1]), q[..|q| - 1])
  {
    var last := |q| - 1;
    var d, r := Executed(c, q[last]), q[..last];
    forall s: nat | s < c.clock ensures IsPending(r, s) || HasRun(d.log, s) {
      if IsPending(q, s) {
        var k :| 0 <= k < |q| && q[k].stamp == s;
        if k == last {
          assert d.log[|c.log|] == Ran(q[last]);
        } else {
          assert r[k].stamp == s;
        }
      } else {
        HasRunGrows(c.log, [Ran(q[last])], s);
      }
    }
  }

  lemma ExecuteKeepsLifo(c: Core, q: seq<Pending>)
    requires q != [] && Ordered(c, q) && LifoPending(c, q) && LifoLog(c.log)
    ensures var d := Executed(c, q[|q| - 1]); LifoPending(d, q[..|q| - 1]) && LifoLog(d.log)
  {
    var last := |q| - 1;
    var d, r := Executed(c, q[last]), q[..last];
    forall n, k | 0 <= n < |d.log| && d.log[n].Ran? && 0 <= k < |r| && d.log[n].entry.stamp < r[k].stamp
      ensures AddedAfter(d.log, n, r[k])
    {
      assert r[k] == q[k];
      AddedAfterGrows(c.log, [Ran(q[last])], n, q[k]);
    }
    forall m, n | 0 <= m < n < |d.log| && d.log[m].Ran? && d.log[n].Ran? && d.log[m].entry.stamp < d.log[n].entry.stamp
      ensures AddedAfter(d.log[..n], m, d.log[n].entry)
    {
      assert d.log[..n] == c.log[..n];
      if n == |c.log| {
        assert c.log[..n] == c.log;
        assert d.log[m] == c.log[m] && d.log[n].entry == q[last];
      }
    }
  }

  lemma ExecuteKeepsMatch(c: Core, q: seq<Pending>)
    requires q != [] && OnExitMatches(c, q) && HistoryMatches(c)
    ensures var d := Executed(c, q[|q| - 1]); OnExitMatches(d, q[..|q| - 1]) && HistoryMatches(d)
  {
    var last := |q| - 1;
    var d, r := Executed(c, q[last]), q[..last];
    forall i ensures LifeOf(d.log, i) == if Created(WordOf(d.words, i)) then Alive(WordOf(d.words, i)) else Dead {
      LifeSnoc(c.log, Ran(q[last]), i);
    }
    forall i: Instance | i.atExit && Created(WordOf(d.words, i)) ensures exists k :: 0 <= k < |r| && r[k].task == OnExit(i) {
      var k :| 0 <= k < |q| && q[k].task == OnExit(i);
      assert k != last;
      assert r[k].task == OnExit(i);
    }
  }

  lemma ExecuteKeepsInv(c: Core, q: seq<Pending>)
    requires q != [] && Inv(c, q)
    ensures Inv(Executed(c, q[|q| - 1]), q[..|q| - 1])
  {
    ExecuteKeepsMatch(c, q);
    ExecuteKeepsConserved(c, q);
    ExecuteKeepsLifo(c, q);
  }

  lemma ExecuteTopKeepsInv(c: Core, below: seq<Pending>, tasks: seq<Pending>, q: seq<Pending>)
    requires tasks != [] && q == below + tasks && Inv(c, q)
    ensures Inv(Executed(c, tasks[|tasks| - 1]), below + tasks[..|tasks| - 1])
  {
    ExecuteKeepsInv(c, q);
    assert q[..|q| - 1] == below + tasks[..|tasks| - 1];
    assert q[|q| - 1] == tasks[|tasks| - 1];
  }

  lemma {:induction false} DrainKeepsInv(c: Core, below: seq<Pending>, tasks: seq<Pending>, q: seq<Pending>)
    requires q == below + tasks && Inv(c, q)
    ensures Inv(Drained(c, tasks), below)
    decreases |tasks|
  {
    if tasks == [] {
      assert q == below;
    } else {
      var last := |tasks| - 1;
      ExecuteTopKeepsInv(c, below, tasks, q);
      DrainKeepsInv(Executed(c, tasks[last]), below, tasks[..last], below + tasks[..last]);
    }
  }

  lemma RegisterClientKeepsInv(c: Core, q: seq<Pending>, id: nat)
    requires Inv(c, q)
    ensures Inv(Registered(c, Client(id)), q + [Pending(c.clock, Client(id))])
  {
    var t := Client(id);
    var r := q + [Pending(c.clock, t)];
    RegisterKeepsOrder(c, q, t);
    forall i ensures LifeOf(Registered(c, t).log, i) == LifeOf(c.log, i) {
      LifeSnoc(c.log, Added(Pending(c.clock, t)), i);
    }
    forall i: Instance | i.atExit && Created(WordOf(c.words, i)) ensures exists k :: 0 <= k < |r| && r[k].task == OnExit(i) {
      var k :| 0 <= k < |q| && q[k].task == OnExit(i);
      assert r[k].task == OnExit(i);
    }
  }

  lemma BuildKeepsHistory(c: Core, i: Instance, made: Word)
    requires HistoryMatches(c) && Created(made) && !Created(WordOf(c.words, i))
    ensures HistoryMatches(Constructed(c, i, made))
  {
    var d := Constructed(c, i, made);
    forall j ensures LifeOf(d.log, j) == if Created(WordOf(d.words, j)) then Alive(WordOf(d.words, j)) else Dead {
      LifeSnoc(c.log, Built(i, made), j);
    }
  }

  lemma BuildLeakyKeepsInv(c: Core, q: seq<Pending>, i: Instance, made: Word)
    requires Inv(c, q) && !i.atExit && Created(made) && !Created(WordOf(c.words, i))
    ensures Inv(Constructed(c, i, made), q)
  {
    BuildKeepsOrder(c, q, i, made);
    BuildKeepsHistory(c, i, made);
  }

  lemma BuildAtExitKeepsInv(c: Core, q: seq<Pending>, i: Instance, made: Word)
    requires Inv(c, q) && i.atExit && Created(made) && !Created(WordOf(c.words, i))
    ensures Inv(Registered(Constructed(c, i, made), OnExit(i)), q + [Pending(c.clock, OnExit(i))])
  {
    var b := Constructed(c, i, made);
    var d, r := Registered(b, OnExit(i)), q + [Pending(c.clock, OnExit(i))];
    BuildKeepsOrder(c, q, i, made);
    RegisterKeepsOrder(b, q, OnExit(i));
    BuildKeepsHistory(c, i, made);
    forall j ensures LifeOf(d.log, j) == LifeOf(b.log, j) {
      LifeSnoc(b.log, Added(Pending(c.clock, OnExit(i))), j);
    }
    BuildKeepsMatches(c, q, i, made);
  }

  lemma BuildKeepsMatches(c: Core, q: seq<Pending>, i: Instance, made: Word)
    requires OnExitMatches(c, q) && i.atExit && Created(made) && !Created(WordOf(c.words, i))
    ensures OnExitMatches(Registered(Constructed(c, i, made), OnExit(i)), q + [Pending(c.clock, OnExit(i))])
  {
    var d, r := Registered(Constructed(c, i, made), OnExit(i)), q + [Pending(c.clock, OnExit(i))];
    forall j: Instance | j.atExit && Created(WordOf(d.words, j)) ensures exists k :: 0 <= k < |r| && r[k].task == OnExit(j) {
      StillPending(q, Pending(c.clock, OnExit(i)), OnExit(j));
    }
  }

  /** What was pending still is, and so is what was added. */
  lemma StillPending(q: seq<Pending>, p: Pending, t: Task)
    requires t == p.task || exists k :: 0 <= k < |q| && q[k].task == t
    ensures exists k :: 0 <= k < |q + [p]| && (q + [p])[k].task == t
  {
    var r := q + [p];
    if t == p.task {
      assert r[|q|].task == t;
    } else {
      var k :| 0 <= k < |q| && q[k].task == t;
      assert r[k].task == t;
    }
  }

  // ----- whole runs

  lemma FlatWithTop(managers: seq<seq<Pending>>, stack: seq<Pending>)
    requires managers != []
    ensures Flat(managers[|managers| - 1 := stack]) == Flat(managers[..|managers| - 1]) + stack
  {
    var last := |managers| - 1;
    assert managers[last := stack][..last] == managers[..last];
  }

  lemma FlatPushed(managers: seq<seq<Pending>>)
    ensures Flat(managers + [[]]) == Flat(managers)
  {
    assert (managers + [[]])[..|managers|] == managers;
  }

  lemma AddToTopFlat(p: Process, t: Task)
    requires p.managers != []
    ensures Flat(AddToTop(p, t).managers) == Flat(p.managers) + [Pending(p.core.clock, t)]
    ensures AddToTop(p, t).core == Registered(p.core, t)
  {
    FlatWithTop(p.managers, Top(p) + [Pending(p.core.clock, t)]);
  }

  lemma ProcessKeepsInv(p: Process)
    requires p.managers != [] && Inv(p.core, Flat(p.managers))
    ensures var q := ProcessNow(p); Inv(q.core, Flat(q.managers)) && Flat(q.managers) == Flat(p.managers[..|p.managers| - 1])
  {
    var below := Flat(p.managers[..|p.managers| - 1]);
    FlatWithTop(p.managers, []);
    assert below + [] == below;
    DrainKeepsInv(p.core, below, Top(p), Flat(p.managers));
  }

  lemma AccessKeepsInv(p: Process, i: Instance, made: Word)
    requires Inv(p.core, Flat(p.managers)) && Created(made) && (i.atExit ==> p.managers != [])
    ensures var q := Accessed(p, i, made); Inv(q.core, Flat(q.managers))
  {
    if !Created(WordOf(p.core.words, i)) {
      if i.atExit {
        AddToTopFlat(p.(core := Constructed(p.core, i, made)), OnExit(i));
        BuildAtExitKeepsInv(p.core, Flat(p.managers), i, made);
      } else {
        BuildLeakyKeepsInv(p.core, Flat(p.managers), i, made);
      }
    }
  }

  lemma ApplyKeepsInv(p: Process, op: Op)
    requires !p.disabled && Inv(p.core, Flat(p.managers))
    requires op.Access? ==> Created(op.made) && (op.instance.atExit ==> p.managers != [])
    ensures var q := Apply(p, op); !q.disabled && Inv(q.core, Flat(q.managers))
  {
    match op
    case PushManager => FlatPushed(p.managers);
    case PopManager =>
      if p.managers != [] {
        ProcessKeepsInv(p);
        assert ProcessNow(p).managers[..|p.managers| - 1] == p.managers[..|p.managers| - 1];
      }
    case RegisterClient(n) =>
      if p.managers != [] {
        AddToTopFlat(p, Client(n));
        RegisterClientKeepsInv(p.core, Flat(p.managers), n);
      }
    case ProcessCallbacks => if p.managers != [] { ProcessKeepsInv(p); }
    case Access(i, made) => AccessKeepsInv(p, i, made);
  }

  lemma {:induction false} RunKeepsInv(ops: seq<Op>)
    requires Disciplined(ops)
    ensures !Run(ops).disabled && Inv(Run(ops).core, Flat(Run(ops).managers))
    decreases |ops|
  {
    if ops != [] {
      var last := |ops| - 1;
      forall k | 0 <= k < last ensures ops[..last][..k] == ops[..k] {}
      RunKeepsInv(ops[..last]);
      ApplyKeepsInv(Run(ops[..last]), ops[last]);
    }
  }

  function OnExitsPending(q: seq<Pending>, i: Instance): nat {
    if q == [] then 0
    else OnExitsPending(q[..|q| - 1], i) + if q[|q| - 1].task == OnExit(i) then 1 else 0
  }

  lemma {:induction false} CountOnExits(q: seq<Pending>, i: Instance)
    requires forall j, k :: 0 <= j < |q| && 0 <= k < |q| && q[j].task.OnExit? && q[j].task == q[k].task ==> j == k
    ensures OnExitsPending(q, i) == if exists k :: 0 <= k < |q| && q[k].task == OnExit(i) then 1 else 0
    decreases |q|
  {
    if q != [] {
      var last := |q| - 1;
      CountOnExits(q[..last], i);
      if q[last].task == OnExit(i) {
        assert forall k :: 0 <= k < last ==> q[..last][k].task != OnExit(i);
      } else if k :| 0 <= k < |q| && q[k].task == OnExit(i) {
        assert q[..last][k].task == OnExit(i);
      }
    }
  }

  /** Every disciplined run, at every point: an at-exit instance is created iff
      exactly one OnExit for it is pending; builds and destructions of each
      instance alternate, ending as its word says; every registration is
      pending or has run exactly once; and runs come in reverse registration
      order across all managers. */
  lemma RunIsSound(ops: seq<Op>)
    requires Disciplined(ops)
    ensures var p := Run(ops); var q := Flat(p.managers);
      && (forall i: Instance :: i.atExit ==> OnExitsPending(q, i) == if Created(WordOf(p.core.words, i)) then 1 else 0)
      && (forall i: Instance :: WordOf(p.core.words, i) == match LifeOf(p.core.log, i) { case Alive(w) => w case _ => UNSET })
      && (forall i: Instance :: LifeOf(p.core.log, i) != Broken)
      && Conserved(p.core, q)
      && LifoLog(p.core.log)
  {
    RunKeepsInv(ops);
    var p := Run(ops);
    var q := Flat(p.managers);
    forall i: Instance | i.atExit ensures OnExitsPending(q, i) == if Created(WordOf(p.core.words, i)) then 1 else 0 {
      CountOnExits(q, i);
    }
  }

  /** Once the last manager is gone every at-exit instance is destroyed and
      every registration has run; a later access builds the instance afresh. */
  lemma NothingOutlivesTheManagers(ops: seq<Op>)
    requires Disciplined(ops) && Run(ops).managers == []
    ensures forall i: Instance :: i.atExit ==> LifeOf(Run(ops).core.log, i) == Dead
    ensures forall s: nat :: s < Run(ops).core.clock ==> HasRun(Run(ops).core.log, s)
    ensures forall i: Instance, made :: i.atExit && Created(made) ==>
      LifeOf(Run(ops + [PushManager, Access(i, made)]).core.log, i) == Alive(made)
  {
    RunKeepsInv(ops);
    var p := Run(ops);
    assert Flat(p.managers) == [];
    forall i: Instance, made | i.atExit && Created(made)
      ensures LifeOf(Run(ops + [PushManager, Access(i, made)]).core.log, i) == Alive(made)
    {
      assert OnExitMatches(p.core, []);
      RunTwoMore(ops, PushManager, Access(i, made));
      Rebuilt(Pushed(p), i, made);
    }
  }

  lemma RunTwoMore(ops: seq<Op>, a: Op, b: Op)
    ensures Run(ops + [a, b]) == Apply(Apply(Run(ops), a), b)
  {
    var more := ops + [a, b];
    assert more[..|more| - 1] == ops + [a];
    assert (ops + [a])[..|ops|] == ops;
  }

  /** An access to a dead instance brings it to life. */
  lemma Rebuilt(p: Process, i: Instance, made: Word)
    requires p.managers != [] && i.atExit && !Created(WordOf(p.core.words, i)) && LifeOf(p.core.log, i) == Dead
    ensures LifeOf(Accessed(p, i, made).core.log, i) == Alive(made)
  {
    LifeSnoc(p.core.log, Built(i, made), i);
    LifeSnoc(p.core.log + [Built(i, made)], Added(Pending(p.core.clock, OnExit(i))), i);
  }

  // ----- what an access answers

  lemma RunSnoc(ops: seq<Op>, op: Op)
    ensures Run(ops + [op]) == Apply(Run(ops), op)
  {
    assert (ops + [op])[..|ops|] == ops;
  }

  /** After every disciplined run, an access to `i` finds the word of the build
      that is still alive, or stores what the creator makes; no other instance
      is touched. */
  lemma AccessAnswers(ops: seq<Op>, i: Instance, made: Word)
    requires Disciplined(ops) && Created(made) && (i.atExit ==> Run(ops).managers != [])
    ensures
      var p, q := Run(ops).core, Run(ops + [Access(i, made)]).core;
      var answer := match LifeOf(p.log, i) { case Alive(w) => w case _ => made };
      && WordOf(q.words, i) == answer && LifeOf(q.log, i) == Alive(answer)
      && forall j :: j != i ==> WordOf(q.words, j) == WordOf(p.words, j)
  {
    RunKeepsInv(ops);
    RunSnoc(ops, Access(i, made));
    var p := Run(ops);
    if !Created(WordOf(p.core.words, i)) {
      LifeSnoc(p.core.log, Built(i, made), i);
      LifeSnoc(p.core.log + [Built(i, made)], Added(Pending(p.core.clock, OnExit(i))), i);
    }
  }

  lemma {:induction false} DrainedLog(c: Core, tasks: seq<Pending>)
    ensures Drained(c, tasks).log == c.log + Backwards(tasks) && Drained(c, tasks).clock == c.clock
    decreases |tasks|
  {
    if tasks == [] {
      assert c.log + Backwards(tasks) == c.log;
    } else {
      var last, front := tasks[|tasks| - 1], tasks[..|tasks| - 1];
      DrainedLog(Executed(c, last), front);
      assert Backwards(tasks) == [Ran(last)] + Backwards(front);
      assert c.log + [Ran(last)] + Backwards(front) == c.log + ([Ran(last)] + Backwards(front));
    }
  }

  /** The callbacks as they run: the last registered first. */
  function Backwards(tasks: seq<Pending>): seq<LogEntry> {
    seq(|tasks|, k requires 0 <= k < |tasks| => Ran(tasks[|tasks| - 1 - k]))
  }

  /** Processing runs the top manager's callbacks, the last registered first, and
      leaves every shadowed manager as it was. */
  lemma ProcessRunsTheTop(p: Process)
    requires p.managers != []
    ensures var q, n := ProcessNow(p), |p.managers| - 1;
      && q.managers == p.managers[..n] + [[]] && q.disabled == p.disabled
      && q.core.log == p.core.log + Backwards(p.managers[n])
  {
    DrainedLog(p.core, Top(p));
  }

  /** Leaving a manager does the same first, unless managers are disabled: then
      its callbacks never run. */
  lemma LeavingRunsTheTop(p: Process)
    requires p.managers != []
    ensures var q, n := Popped(p), |p.managers| - 1;
      && q.managers == p.managers[..n]
      && q.core.log == p.core.log + (if p.disabled then [] else Backwards(p.managers[n]))
      && (p.disabled ==> q.core == p.core)
  {
    ProcessRunsTheTop(p);
    assert (p.managers[..|p.managers| - 1] + [[]])[..|p.managers| - 1] == p.managers[..|p.managers| - 1];
    assert p.core.log + [] == p.core.log;
  }

  lemma ApplyGrowsLog(p: Process, op: Op)
    ensures p.core.log <= Apply(p, op).core.log
  {
    if p.managers != [] {
      ProcessRunsTheTop(p);
      LeavingRunsTheTop(p);
    }
  }

  lemma {:induction false} RunGrowsLog(ops: seq<Op>, more: seq<Op>)
    ensures Run(ops).core.log <= Run(ops + more).core.log
    decreases |more|
  {
    if more == [] {
      assert ops + more == ops;
    } else {
      var front, op := more[..|more| - 1], more[|more| - 1];
      RunGrowsLog(ops, front);
      assert ops + more == ops + front + [op];
      RunSnoc(ops + front, op);
      ApplyGrowsLog(Run(ops + front), op);
    }
  }

  /** A history without an OnExit of `i` after `n` ends as it stood, or broken. */
  lemma {:induction false} AliveUntilExit(log: seq<LogEntry>, n: nat, i: Instance)
    requires n <= |log| && LifeOf(log[..n], i).Alive?
    requires forall k :: n <= k < |log| && log[k].Ran? ==> log[k].entry.task != OnExit(i)
    ensures LifeOf(log, i) == LifeOf(log[..n], i) || LifeOf(log, i) == Broken
    decreases |log|
  {
    if n == |log| {
      assert log[..n] == log;
    } else {
      var front := log[..|log| - 1];
      assert front[..n] == log[..n];
      AliveUntilExit(front, n, i);
    }
  }

  /** Between its build and its OnExit an instance keeps its word, whatever else
      is done: every access in between answers the same. */
  lemma WordLastsUntilExit(ops: seq<Op>, more: seq<Op>, i: Instance)
    requires Disciplined(ops) && Disciplined(ops + more) && LifeOf(Run(ops).core.log, i).Alive?
    requires var n, log := |Run(ops).core.log|, Run(ops + more).core.log;
      forall k :: n <= k < |log| && log[k].Ran? ==> log[k].entry.task != OnExit(i)
    ensures WordOf(Run(ops + more).core.words, i) == WordOf(Run(ops).core.words, i)
  {
    RunKeepsInv(ops);
    RunKeepsInv(ops + more);
    RunGrowsLog(ops, more);
    var before, after := Run(ops).core.log, Run(ops + more).core.log;
    assert after[..|before|] == before;
    AliveUntilExit(after, |before|, i);
  }

  // ----- the objects

  class AtExitManager {
    var stack: seq<Pending>
    const next: AtExitManager?

    constructor (next: AtExitManager?)
      ensures this.next == next && stack == []
    {
      this.next := next;
      stack := [];
    }
  }

  /** Each manager's next pointer is the one it shadows; none occurs twice. */
  ghost predicate Linked(chain: seq<AtExitManager>) {
    && (chain != [] ==> chain[0].next == null)
    && (forall k {:trigger chain[k].next} :: 0 < k < |chain| ==> chain[k].next == chain[k - 1])
    && (forall j, k :: 0 <= j < k < |chain| ==> chain[j] != chain[k])
  }

  /** The process-wide variables: the top manager, the disable flag and the
      words of the lazy instances. */
  class Globals {
    var topManager: AtExitManager?
    var disableManagers: bool
    var words: map<Instance, Word>
    var clock: nat
    ghost var log: seq<LogEntry>
    ghost var chain: seq<AtExitManager>  // the managers, bottom first

    ghost predicate Valid()
      reads this, chain
    {
      && (topManager == if chain == [] then null else chain[|chain| - 1])
      && Linked(chain)
    }

    ghost function History(): Core
      reads this
    {
      Core(words, clock, log)
    }

    ghost function View(): Process
      reads this, chain
    {
      Process(seq(|chain|, k requires 0 <= k < |chain| reads this, chain => chain[k].stack), disableManagers, History())
    }

    constructor ()
      ensures Valid() && View() == START
    {
      topManager := null;
      disableManagers := false;
      words := map[];
      clock := 0;
      log := [];
      chain := [];
    }

    method EnterManager()
      requires Valid()
      modifies this
      ensures Valid() && View() == Pushed(old(View()))
      ensures |chain| == |old(chain)| + 1 && chain[..|old(chain)|] == old(chain) && fresh(topManager)
    {
      topManager := new AtExitManager(topManager);
      chain := chain + [topManager];
    }

    method RegisterTask(t: Task)
      requires Valid()
      modifies this, chain
      ensures Valid() && View() == AddToTop(old(View()), t) && chain == old(chain)
      ensures words == old(words)
      ensures topManager != null ==> topManager.stack == old(topManager.stack) + [Pending(old(clock), t)]
      ensures forall m :: m in chain && m != topManager ==> m.stack == old(m.stack)
    {
      if topManager == null { return; }
      topManager.stack := topManager.stack + [Pending(clock, t)];
      log := log + [Added(Pending(clock, t))];
      clock := clock + 1;
    }

    /** Runs one callback: OnExit destroys the instance and clears its word. */
    method RunTask(p: Pending)
      modifies this`words, this`log
      ensures History() == Executed(old(History()), p)
    {
      log := log + [Ran(p)];
      if p.task.OnExit? {
        words := words[p.task.instance := UNSET];
      }
    }

    method ProcessCallbacksNow()
      requires Valid()
      modifies this, chain
      ensures Valid() && View() == ProcessNow(old(View())) && chain == old(chain)
      ensures forall m :: m in chain && m != topManager ==> m.stack == old(m.stack)
    {
      if topManager == null { return; }
      var tasks := topManager.stack;
      topManager.stack := [];
      while tasks != []
        invariant Valid() && chain == old(chain) && disableManagers == old(disableManagers)
        invariant topManager != null && topManager.stack == []
        invariant forall m :: m in chain && m != topManager ==> m.stack == old(m.stack)
        invariant Drained(History(), tasks) == Drained(old(History()), old(topManager.stack))
        decreases |tasks|
      {
        RunTask(tasks[|tasks| - 1]);
        tasks := tasks[..|tasks| - 1];
      }
    }

    method LeaveManager()
      requires Valid()
      modifies this, chain
      ensures Valid() && View() == Popped(old(View()))
    {
      if topManager == null { return; }
      if !disableManagers {
        ProcessCallbacksNow();
      }
      topManager := topManager.next;
      chain := chain[..|chain| - 1];
    }

    /** LazyInstance::Pointer on one thread. */
    method Pointer(i: Instance, made: Word) returns (w: Word)
      requires Valid() && Created(made)
      requires WordOf(words, i) != CREATING
      modifies this, chain
      ensures Valid() && View() == Accessed(old(View()), i, made)
      ensures w == if Created(WordOf(old(words), i)) then WordOf(old(words), i) else made
      ensures WordOf(words, i) == w && forall j :: j != i ==> WordOf(words, j) == WordOf(old(words), j)
    {
      w := WordOf(words, i);
      if !Created(w) {
        words := words[i := CREATING];
        w := made;
        words := words[i := w];
        log := log + [Built(i, made)];
        if i.atExit {
          RegisterTask(OnExit(i));
        }
      }
    }
  }
}
