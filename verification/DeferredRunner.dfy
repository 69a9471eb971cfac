/** DeferredSequencedTaskRunner: tasks posted before the start are kept, and
    handed on at the start; later ones go straight to the target runner.

    The calls of many threads are split at the points where another thread may
    observe them: asking for the lock, taking it, each step of the flush loop,
    and letting the lock go. */
module DeferredRunners {

  type Thread = nat

  /** `closure` 0 is the null closure. */
  datatype Task = Task(closure: nat, postedFrom: nat, delay: int, nonNestable: bool)

  /** A task and the thread that posted it. */
  datatype Entry = Entry(poster: Thread, task: Task)

  datatype Op = Post(task: Task) | Start | StartWithTaskRunner

  datatype Pc =
    | Idle
    | WantPost(task: Task)     // waiting for the lock
    | Posting(task: Task)      // holds the lock, has not queued or forwarded
    | Posted(task: Task)       // about to release the lock and return
    | WantStart(with: bool)    // `with`: the call brings the target runner
    | Starting(with: bool)
    | Flushing(next: nat)
    | Finishing

  datatype Failure = NoFailure | NullTask | StartedTwice | NoTarget | TargetTwice | QueueNotEmpty

  datatype Event = Begin(thread: Thread, op: Op) | Continue(thread: Thread)

  datatype Holder = Nobody | Held(thread: Thread)

  /** `queue`, `started` and `hasTarget` are the object's fields; `target` is
      all the target runner was given.  `posted` lists the posts in the order in
      which they took the lock, `returned` in the order in which they came back. */
  datatype State = State(
    holder: Holder, started: bool, hasTarget: bool, queue: seq<Entry>,
    target: seq<Entry>, pcs: map<Thread, Pc>, failure: Failure,
    posted: seq<Entry>, returned: seq<Entry>)

  function Init(hasTarget: bool): State {
    State(Nobody, false, hasTarget, [], [], map[], NoFailure, [], [])
  }

  function PcOf(s: State, t: Thread): Pc {
    if t in s.pcs then s.pcs[t] else Idle
  }

  function Goto(s: State, t: Thread, pc: Pc): (r: State)
    ensures PcOf(r, t) == pc && forall u :: u != t ==> PcOf(r, u) == PcOf(s, u)
  {
    s.(pcs := s.pcs[t := pc])
  }

  function BeginOp(s: State, t: Thread, op: Op): (r: State)
    ensures forall u :: u != t ==> PcOf(r, u) == PcOf(s, u)
  {
    match op
    case Post(task) => Goto(s, t, WantPost(task))
    case Start => Goto(s, t, WantStart(false))
    case StartWithTaskRunner => Goto(s, t, WantStart(true))
  }

  function Body(s: State, t: Thread, task: Task): (r: State)
    ensures forall u :: u != t ==> PcOf(r, u) == PcOf(s, u)
  {
    if s.started then
      if s.queue != [] then s.(failure := QueueNotEmpty)
      else Goto(s.(target := s.target + [Entry(t, task)]), t, Posted(task))
    else if task.closure == 0 then s.(failure := NullTask)
    else Goto(s.(queue := s.queue + [Entry(t, task)]), t, Posted(task))
  }

  function StartBody(s: State, t: Thread, with: bool): (r: State)
    ensures forall u :: u != t ==> PcOf(r, u) == PcOf(s, u)
  {
    if with && s.hasTarget then s.(failure := TargetTwice)
    else if s.started then s.(failure := StartedTwice)
    else if !with && !s.hasTarget then s.(failure := NoTarget)
    else Goto(s.(started := true, hasTarget := true), t, Flushing(0))
  }

  function FlushBody(s: State, t: Thread, next: nat): (r: State)
    ensures forall u :: u != t ==> PcOf(r, u) == PcOf(s, u)
  {
    if next < |s.queue| then Goto(s.(target := s.target + [s.queue[next]]), t, Flushing(next + 1))
    else Goto(s.(queue := []), t, Finishing)
  }

  function ContinueOp(s: State, t: Thread): (r: State)
    ensures forall u :: u != t ==> PcOf(r, u) == PcOf(s, u)
  {
    match PcOf(s, t)
    case Idle => s
    case WantPost(task) =>
      if s.holder != Nobody then s
      else Goto(s.(holder := Held(t), posted := s.posted + [Entry(t, task)]), t, Posting(task))
    case Posting(task) => Body(s, t, task)
    case Posted(task) => Goto(s.(holder := Nobody, returned := s.returned + [Entry(t, task)]), t, Idle)
    case WantStart(with) =>
      if s.holder != Nobody then s else Goto(s.(holder := Held(t)), t, Starting(with))
    case Starting(with) => StartBody(s, t, with)
    case Flushing(next) => FlushBody(s, t, next)
    case Finishing => Goto(s.(holder := Nobody), t, Idle)
  }

  /** A failed check ends the process: nothing moves afterwards. */
  function Step(s: State, e: Event): (r: State)
    ensures forall u :: u != e.thread ==> PcOf(r, u) == PcOf(s, u)
  {
    if s.failure != NoFailure then s
    else match e
      case Begin(t, op) => if PcOf(s, t) == Idle then BeginOp(s, t, op) else s
      case Continue(t) => ContinueOp(s, t)
  }

  function Run(s: State, events: seq<Event>): State {
    if events == [] then s
    else Step(Run(s, events[..|events| - 1]), events[|events| - 1])
  }

  // ----- what every step keeps

  predicate HoldsLock(pc: Pc) {
    !pc.Idle? && !pc.WantPost? && !pc.WantStart?
  }

  ghost predicate Exclusive(s: State) {
    forall t :: HoldsLock(PcOf(s, t)) <==> s.holder == Held(t)
  }

  /** The post that has taken the lock and not yet stored its task. */
  function Pending(s: State): seq<Entry> {
    if s.holder.Held? && PcOf(s, s.holder.thread).Posting?
    then [Entry(s.holder.thread, PcOf(s, s.holder.thread).task)] else []
  }

  predicate IsFlushing(s: State) {
    s.holder.Held? && PcOf(s, s.holder.thread).Flushing?
  }

  /** Where the posted tasks are. */
  ghost predicate Placed(s: State) {
    if IsFlushing(s) then
      var next := PcOf(s, s.holder.thread).next;
      s.started && next <= |s.queue| && s.target == s.queue[..next] && s.posted == s.queue
    else if s.started then s.queue == [] && s.posted == s.target + Pending(s)
    else s.target == [] && s.posted == s.queue + Pending(s)
  }

  /** The posts of one thread, in order. */
  function Of(entries: seq<Entry>, t: Thread): seq<Task> {
    if entries == [] then []
    else
      var last := entries[|entries| - 1];
      Of(entries[..|entries| - 1], t) + if last.poster == t then [last.task] else []
  }

  lemma OfAppend(entries: seq<Entry>, e: Entry, t: Thread)
    ensures Of(entries + [e], t) == Of(entries, t) + if e.poster == t then [e.task] else []
  {
    assert (entries + [e])[..|entries|] == entries;
  }

  function InFlight(pc: Pc): seq<Task> {
    if pc.Posting? || pc.Posted? then [pc.task] else []
  }

  /** Each thread's posts take the lock in the thread's own order, and return
      once they are stored. */
  ghost predicate ProgramOrder(s: State) {
    forall t :: Of(s.posted, t) == Of(s.returned, t) + InFlight(PcOf(s, t))
  }

  ghost predicate Inv(s: State) {
    && Exclusive(s) && Placed(s) && ProgramOrder(s)
    && s.failure != QueueNotEmpty
    && (s.started ==> s.hasTarget)
  }

  /** A step that logs nothing changes nobody's post in flight; one that takes
      the lock for a post logs it, and one that returns from a post does. */
  lemma StepLogs(s: State, e: Event)
    ensures var r, t := Step(s, e), e.thread;
      || (r.posted == s.posted && r.returned == s.returned && InFlight(PcOf(r, t)) == InFlight(PcOf(s, t)))
      || (PcOf(s, t).WantPost? && r.returned == s.returned
          && PcOf(r, t) == Posting(PcOf(s, t).task) && r.posted == s.posted + [Entry(t, PcOf(s, t).task)])
      || (PcOf(s, t).Posted? && r.posted == s.posted
          && PcOf(r, t) == Idle && r.returned == s.returned + [Entry(t, PcOf(s, t).task)])
  {}

  lemma StepKeepsOrder(s: State, e: Event)
    requires ProgramOrder(s)
    ensures ProgramOrder(Step(s, e))
  {
    var r := Step(s, e);
    StepLogs(s, e);
    var pc := PcOf(s, e.thread);
    forall u ensures Of(r.posted, u) == Of(r.returned, u) + InFlight(PcOf(r, u)) {
      assert Of(s.posted, u) == Of(s.returned, u) + InFlight(PcOf(s, u));
      assert u != e.thread ==> PcOf(r, u) == PcOf(s, u);
      if pc.WantPost? && r.posted != s.posted {
        OfAppend(s.posted, Entry(e.thread, pc.task), u);
        assert Of(s.returned, u) + [] == Of(s.returned, u);
      } else if pc.Posted? && r.returned != s.returned {
        OfAppend(s.returned, Entry(e.thread, pc.task), u);
        assert Of(r.returned, u) + [] == Of(r.returned, u);
      }
    }
  }

  lemma StepKeepsExclusive(s: State, e: Event)
    requires Exclusive(s)
    ensures Exclusive(Step(s, e))
  {
    var r, t := Step(s, e), e.thread;
    assert HoldsLock(PcOf(s, t)) <==> s.holder == Held(t);
    assert HoldsLock(PcOf(r, t)) <==> r.holder == Held(t);
    assert s.holder == r.holder || s.holder == Held(t) || r.holder == Held(t);
    forall u ensures HoldsLock(PcOf(r, u)) <==> r.holder == Held(u) {
      assert HoldsLock(PcOf(s, u)) <==> s.holder == Held(u);
    }
  }

  lemma StepKeepsPlaced(s: State, e: Event)
    requires Exclusive(s) && Placed(s)
    ensures Placed(Step(s, e))
  {
    var t := e.thread;
    assert HoldsLock(PcOf(s, t)) <==> s.holder == Held(t);
    if s.failure == NoFailure && e.Continue? {
      PlacedAfterContinue(s, t);
    } else {
      assert s.holder.Held? ==> HoldsLock(PcOf(s, s.holder.thread));
    }
  }

  lemma PlacedAfterContinue(s: State, t: Thread)
    requires Exclusive(s) && Placed(s) && s.failure == NoFailure
    ensures Placed(ContinueOp(s, t))
  {
    assert HoldsLock(PcOf(s, t)) <==> s.holder == Held(t);
    var r := ContinueOp(s, t);
    match PcOf(s, t)
    case Posting(task) => PlacedAfterPost(s, t, task);
    case Flushing(next) => PlacedAfterFlush(s, t, next);
    case _ =>
  }

  lemma PlacedAfterPost(s: State, t: Thread, task: Task)
    requires Placed(s) && s.failure == NoFailure && s.holder == Held(t) && PcOf(s, t) == Posting(task)
    ensures Placed(Body(s, t, task))
  {
    var r := Body(s, t, task);
    assert Pending(s) == [Entry(t, task)];
    assert r.failure == NoFailure ==> Pending(r) == [];
  }

  lemma PlacedAfterFlush(s: State, t: Thread, next: nat)
    requires Placed(s) && s.holder == Held(t) && PcOf(s, t) == Flushing(next)
    ensures Placed(FlushBody(s, t, next))
  {
    assert next < |s.queue| ==> s.queue[..next] + [s.queue[next]] == s.queue[..next + 1];
    assert next == |s.queue| ==> s.target == s.queue;
  }

  lemma StepKeepsChecks(s: State, e: Event)
    requires Exclusive(s) && Placed(s) && s.failure != QueueNotEmpty && (s.started ==> s.hasTarget)
    ensures var r := Step(s, e); r.failure != QueueNotEmpty && (r.started ==> r.hasTarget)
  {
    assert HoldsLock(PcOf(s, e.thread)) <==> s.holder == Held(e.thread);
  }

  lemma StepKeepsInv(s: State, e: Event)
    requires Inv(s)
    ensures Inv(Step(s, e))
  {
    StepKeepsOrder(s, e);
    StepKeepsExclusive(s, e);
    StepKeepsPlaced(s, e);
    StepKeepsChecks(s, e);
  }

  lemma {:induction false} RunFromKeepsInv(s: State, events: seq<Event>)
    requires Inv(s)
    ensures Inv(Run(s, events))
    decreases |events|
  {
    if events != [] {
      RunFromKeepsInv(s, events[..|events| - 1]);
      StepKeepsInv(Run(s, events[..|events| - 1]), events[|events| - 1]);
    }
  }

  lemma RunKeepsInv(hasTarget: bool, events: seq<Event>)
    ensures Inv(Run(Init(hasTarget), events))
  {
    RunFromKeepsInv(Init(hasTarget), events);
  }

  /** Over every interleaving: the target has received a prefix of the posts in
      lock order, nothing at all before a start; whenever the lock is free it
      has received all of them (if started) and the queue is empty, or the queue
      holds all of them; each idle thread's posts are there once each, as they
      were made and in the order it made them; and the check that the queue is
      empty never fires. */
  lemma TargetReceivesPostsInOrder(hasTarget: bool, events: seq<Event>)
    ensures var s := Run(Init(hasTarget), events);
      && s.target <= s.posted
      && (!s.started ==> s.target == [])
      && (s.holder == Nobody ==>
            if s.started then s.target == s.posted && s.queue == [] else s.queue == s.posted)
      && (forall t :: PcOf(s, t) == Idle ==> Of(s.posted, t) == Of(s.returned, t))
      && s.failure != QueueNotEmpty
  {
    RunKeepsInv(hasTarget, events);
  }

  /** Which check the thread that holds the lock trips next, if any: a null task
      before the start, a second target, a second start, a start without a
      target, and nothing else. */
  lemma WhichCheckFires(hasTarget: bool, events: seq<Event>, t: Thread)
    requires var s := Run(Init(hasTarget), events); s.failure == NoFailure && s.holder == Held(t)
    ensures
      var s := Run(Init(hasTarget), events);
      var pc, failure := PcOf(s, t), Step(s, Continue(t)).failure;
      && (failure == NullTask <==> pc.Posting? && pc.task.closure == 0 && !s.started)
      && (failure == TargetTwice <==> pc.Starting? && pc.with && s.hasTarget)
      && (failure == StartedTwice <==> pc.Starting? && !pc.with && s.started)
      && (failure == NoTarget <==> pc.Starting? && !pc.with && !s.hasTarget)
      && failure != QueueNotEmpty
  {
    RunKeepsInv(hasTarget, events);
    StepKeepsInv(Run(Init(hasTarget), events), Continue(t));
  }

  // ----- one start

  predicate IsStart(e: Event) {
    e.Begin? && !e.op.Post?
  }

  function Starts(events: seq<Event>): nat {
    if events == [] then 0
    else Starts(events[..|events| - 1]) + if IsStart(events[|events| - 1]) then 1 else 0
  }

  predicate AsksToStart(pc: Pc) {
    pc.WantStart? || pc.Starting?
  }

  /** At most `starts` (here none or one) calls have asked to start. */
  ghost predicate AtMostOneStart(s: State, starts: nat) {
    && (starts == 0 ==> !s.started && forall t :: !AsksToStart(PcOf(s, t)))
    && (starts <= 1 && s.started ==> forall t :: !AsksToStart(PcOf(s, t)))
    && (starts <= 1 ==> forall t, u :: AsksToStart(PcOf(s, t)) && AsksToStart(PcOf(s, u)) ==> t == u)
    && (starts <= 1 ==> s.failure != StartedTwice)
  }

  lemma {:induction false} OneStartNeverFails(hasTarget: bool, events: seq<Event>)
    ensures AtMostOneStart(Run(Init(hasTarget), events), Starts(events))
    decreases |events|
  {
    if events != [] {
      var before, e := events[..|events| - 1], events[|events| - 1];
      OneStartNeverFails(hasTarget, before);
      var s := Run(Init(hasTarget), before);
      StepKeepsOneStart(s, e, Starts(before));
    }
  }

  lemma StepKeepsOneStart(s: State, e: Event, starts: nat)
    requires AtMostOneStart(s, starts)
    ensures AtMostOneStart(Step(s, e), starts + if IsStart(e) then 1 else 0)
  {
    var r := Step(s, e);
    if !IsStart(e) {
      assert forall u :: AsksToStart(PcOf(r, u)) ==> AsksToStart(PcOf(s, u));
    } else if starts == 0 {
      assert forall u :: AsksToStart(PcOf(r, u)) ==> u == e.thread;
    }
  }

  /** The start of thread `t` holds the lock of a runner started before: either
      that is how things stand, or its check has ended the process. */
  ghost predicate Doomed(s: State, r: State, t: Thread, checked: bool)
    requires PcOf(s, t).Starting?
  {
    && r.target == r.posted == s.posted && r.queue == [] && r.started
    && if checked then r.failure == (if PcOf(s, t).with then TargetTwice else StartedTwice)
    else r.failure == NoFailure && r.holder == Held(t) && PcOf(r, t) == PcOf(s, t) && r.hasTarget
  }

  lemma StepKeepsDoomed(s: State, r: State, t: Thread, checked: bool, e: Event)
    requires PcOf(s, t).Starting? && Doomed(s, r, t, checked) && Exclusive(r)
    ensures Doomed(s, Step(r, e), t, checked || e == Continue(t))
  {
    assert HoldsLock(PcOf(r, e.thread)) <==> r.holder == Held(e.thread);
  }

  /** In every run, a start that takes the lock of a started runner is the end of
      it: whatever the threads do, the target has been given all the posts and
      is given nothing more, and the next step of that start fails its check. */
  lemma SecondStartFails(hasTarget: bool, events: seq<Event>, t: Thread, more: seq<Event>)
    requires var s := Run(Init(hasTarget), events); s.failure == NoFailure && s.started && PcOf(s, t).Starting?
    ensures var s := Run(Init(hasTarget), events);
      Doomed(s, Run(s, more), t, Continue(t) in more)
  {
    RunKeepsInv(hasTarget, events);
    StaysDoomed(Run(Init(hasTarget), events), t, more);
  }

  lemma {:induction false} StaysDoomed(s: State, t: Thread, more: seq<Event>)
    requires Inv(s) && s.failure == NoFailure && s.started && PcOf(s, t).Starting?
    ensures Doomed(s, Run(s, more), t, Continue(t) in more)
    decreases |more|
  {
    if more == [] {
      DoomedNow(s, t);
    } else {
      var before, e := more[..|more| - 1], more[|more| - 1];
      StaysDoomed(s, t, before);
      RunFromKeepsInv(s, before);
      StepKeepsDoomed(s, Run(s, before), t, Continue(t) in before, e);
      InSnoc(more, before, e, Continue(t));
    }
  }

  lemma DoomedNow(s: State, t: Thread)
    requires Inv(s) && s.failure == NoFailure && s.started && PcOf(s, t).Starting?
    ensures Doomed(s, s, t, false)
  {
    assert HoldsLock(PcOf(s, t)) <==> s.holder == Held(t);
    assert s.target + [] == s.target;
  }

  lemma InSnoc(all: seq<Event>, before: seq<Event>, last: Event, e: Event)
    requires all != [] && before == all[..|all| - 1] && last == all[|all| - 1]
    ensures e in all <==> e in before || last == e
  {
    assert all == before + [last];
  }

  // ----- the object, its calls made with the lock held

  class DeferredSequencedTaskRunner {
    var started: bool
    var hasTarget: bool
    var deferredTasks: seq<Task>
    var target: seq<Task>
    ghost var posted: seq<Task>

    ghost predicate Valid()
      reads this
    {
      && (if started then hasTarget && deferredTasks == [] && target == posted
          else target == [] && deferredTasks == posted)
    }

    constructor (withTarget: bool)
      ensures Valid() && !started && hasTarget == withTarget && posted == []
    {
      started, hasTarget, deferredTasks, target, posted := false, withTarget, [], [], [];
    }

    /** PostDelayedTask and PostNonNestableDelayedTask: `answer` is what the
        target would reply.  Not `passed` when the null check fires. */
    method PostTask(task: Task, answer: bool) returns (passed: bool, ok: bool)
      requires Valid()
      modifies this
      ensures Valid() && started == old(started) && hasTarget == old(hasTarget)
      ensures passed <==> started || task.closure != 0
      ensures posted == old(posted) + if passed then [task] else []
      ensures passed ==> ok == if started then answer else true
    {
      passed, ok := true, true;
      if started {
        assert deferredTasks == [];
        target := target + [task];
        ok := answer;
      } else {
        passed := QueueDeferredTask(task);
      }
      if passed {
        posted := posted + [task];
      }
    }

    method QueueDeferredTask(task: Task) returns (passed: bool)
      modifies this`deferredTasks
      ensures passed <==> task.closure != 0
      ensures deferredTasks == old(deferredTasks) + if passed then [task] else []
    {
      passed := task.closure != 0;
      if passed {
        deferredTasks := deferredTasks + [task];
      }
    }

    /** Start, or StartWithTaskRunner when `with`; not `passed` when a check fires. */
    method Start(with: bool) returns (passed: bool)
      requires Valid()
      modifies this
      ensures passed <==> !old(started) && with != old(hasTarget)
      ensures passed ==> Valid() && started
      ensures posted == old(posted)
      ensures !passed ==> target == old(target) && deferredTasks == old(deferredTasks)
    {
      passed := !with || !hasTarget;
      if passed {
        if with { hasTarget := true; }
        passed := StartImpl();
      }
    }

    method StartImpl() returns (passed: bool)
      modifies this`started, this`target, this`deferredTasks
      ensures passed <==> !old(started) && hasTarget
      ensures passed ==> started && deferredTasks == [] && target == old(target + deferredTasks)
      ensures !passed ==> target == old(target) && deferredTasks == old(deferredTasks)
    {
      if started {
        return false;
      }
      started := true;
      if !hasTarget {
        return false;
      }
      var i := 0;
      while i < |deferredTasks|
        invariant 0 <= i <= |deferredTasks|
        invariant deferredTasks == old(deferredTasks) && started
        invariant target == old(target) + deferredTasks[..i]
      {
        target := target + [deferredTasks[i]];
        i := i + 1;
      }
      deferredTasks := [];
      return true;
    }
  }
}
