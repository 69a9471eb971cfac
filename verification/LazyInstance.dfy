/** The race in GetOrCreateLazyPointer: any number of threads share one atomic
    word that goes from 0 to "creating" to the address of the instance.  Each
    atomic operation is one step of one thread; a run is any interleaving. */
module LazyInstance {

  /** An atomic word, by the number it holds (its width plays no part). */
  type Word = nat
  type Thread = nat

  const UNSET: Word := 0
  const CREATING: Word := 1

  /** Some bit other than the creating mark, bit 0, is set: the instance is
      complete. */
  predicate Created(w: Word) {
    w / 2 != 0
  }

  /** Where a thread stands inside one call. */
  datatype Pc =
    | Idle
    | FastLoad                    // about to load the word on the fast path
    | Claim                       // about to compare-and-swap 0 -> creating
    | Spin                        // lost; loads until the word is not the mark
    | Reload                      // lost; about to load the finished word
    | Construct                   // won; about to run the creator
    | Publish(instance: Word)     // creator returned; about to release-store
    | Register(instance: Word)    // stored; about to register the destructor
    | Returned(instance: Word)
    | CheckFailed                 // the loser's debug check fired

  datatype Event =
    | Constructed(who: Thread, instance: Word)
    | Published(who: Thread, instance: Word)
    | Registered(who: Thread, instance: Word)
    | Answered(who: Thread, instance: Word)

  datatype State = State(word: Word, pcs: map<Thread, Pc>, log: seq<Event>)

  /** A thread either enters a new call or performs its next atomic step; the
      value a creator would return in that step is chosen by the environment. */
  datatype Action = Enter(t: Thread) | Advance(t: Thread, made: Word)

  predicate Busy(pc: Pc) {
    !pc.Idle? && !pc.Returned? && !pc.CheckFailed?
  }

  function Initial(threads: set<Thread>): State {
    State(UNSET, map t | t in threads :: Idle, [])
  }

  function Goto(s: State, t: Thread, pc: Pc): State {
    s.(pcs := s.pcs[t := pc])
  }

  function Answer(s: State, t: Thread, w: Word): State {
    Goto(s, t, Returned(w)).(log := s.log + [Answered(t, w)])
  }

  /** One atomic step of thread `t`. */
  function Step(s: State, t: Thread, made: Word, destroys: bool): State
    requires t in s.pcs
  {
    match s.pcs[t]
    case Idle => s
    case Returned(_) => s
    case CheckFailed => s
    case FastLoad =>
      if Created(s.word) then Answer(s, t, s.word) else Goto(s, t, Claim)
    case Claim =>
      if s.word == UNSET then Goto(s.(word := CREATING), t, Construct) else Goto(s, t, Spin)
    case Spin =>
      if s.word == CREATING then s else Goto(s, t, Reload)
    case Reload =>
      if Created(s.word) then Answer(s, t, s.word) else Goto(s, t, CheckFailed)
    case Construct =>
      Goto(s, t, Publish(made)).(log := s.log + [Constructed(t, made)])
    case Publish(w) =>
      Goto(s, t, Register(w)).(word := w, log := s.log + [Published(t, w)])
    case Register(w) =>
      if w != UNSET && destroys
      then Answer(s.(log := s.log + [Registered(t, w)]), t, w)
      else Answer(s, t, w)
  }

  function Act(s: State, a: Action, destroys: bool): State {
    if a.t !in s.pcs then s
    else match a
      case Enter(t) => if Busy(s.pcs[t]) then s else Goto(s, t, FastLoad)
      case Advance(t, made) => Step(s, t, made, destroys)
  }

  function Run(s: State, actions: seq<Action>, destroys: bool): State
    decreases |actions|
  {
    if actions == [] then s
    else
      var last := |actions| - 1;
      Act(Run(s, actions[..last], destroys), actions[last], destroys)
  }

  /** The creator's contract: it returns a value with a bit outside the mark. */
  predicate CreatorsReturnInstances(actions: seq<Action>) {
    forall i :: 0 <= i < |actions| && actions[i].Advance? ==> Created(actions[i].made)
  }

  // ----- what every step keeps

  /** Between winning the compare-and-swap and the release store. */
  predicate Constructing(pc: Pc) {
    pc.Construct? || pc.Publish?
  }

  ghost predicate OneConstructor(s: State) {
    forall t, u :: t in s.pcs && u in s.pcs && Constructing(s.pcs[t]) && Constructing(s.pcs[u]) ==> t == u
  }

  /** Nobody has claimed the word: no thread is past the compare-and-swap. */
  ghost predicate Untouched(s: State) {
    s.word == UNSET && s.log == []
    && forall t :: t in s.pcs ==> s.pcs[t].Idle? || s.pcs[t].FastLoad? || s.pcs[t].Claim?
  }

  /** Thread `owner` holds the word; nobody has an answer yet. */
  ghost predicate Held(s: State, owner: Thread) {
    && s.word == CREATING && owner in s.pcs
    && (match s.pcs[owner]
        case Construct => s.log == []
        case Publish(w) => Created(w) && s.log == [Constructed(owner, w)]
        case _ => false)
    && forall t :: t in s.pcs && t != owner ==>
         s.pcs[t].Idle? || s.pcs[t].FastLoad? || s.pcs[t].Claim? || s.pcs[t].Spin?
  }

  ghost predicate TailEvent(e: Event, owner: Thread, w: Word) {
    e == Registered(owner, w) || (e.Answered? && e.instance == w)
  }

  /** The instance is published: the log starts with its one construction and
      its one publication, and everything after is about that instance. */
  ghost predicate Finished(s: State, owner: Thread, destroys: bool) {
    && Created(s.word) && owner in s.pcs
    && |s.log| >= 2 && s.log[0] == Constructed(owner, s.word) && s.log[1] == Published(owner, s.word)
    && (forall i :: 2 <= i < |s.log| ==> TailEvent(s.log[i], owner, s.word))
    && (forall t :: t in s.pcs ==> !Constructing(s.pcs[t]) && !s.pcs[t].CheckFailed?)
    && (forall t :: t in s.pcs && s.pcs[t].Returned? ==> s.pcs[t].instance == s.word)
    && (forall t :: t in s.pcs && s.pcs[t].Register? ==> t == owner && s.pcs[t].instance == s.word)
    && (s.pcs[owner].Register? || !destroys ==> forall i :: 2 <= i < |s.log| ==> !s.log[i].Registered?)
    && (!s.pcs[owner].Register? && destroys ==> RegisteredOnce(s.log))
  }

  ghost predicate RegisteredOnce(log: seq<Event>) {
    exists k :: RegisteredOnlyAt(log, k)
  }

  ghost predicate RegisteredOnlyAt(log: seq<Event>, k: int) {
    0 <= k < |log| && forall i :: 0 <= i < |log| ==> (log[i].Registered? <==> i == k)
  }

  ghost predicate Inv(s: State, destroys: bool) {
    Untouched(s) || (exists o :: Held(s, o)) || (exists o :: Finished(s, o, destroys))
  }

  lemma StepFromUntouched(s: State, t: Thread, made: Word, destroys: bool)
    requires Untouched(s) && t in s.pcs
    ensures Inv(Step(s, t, made, destroys), destroys)
  {
    var n := Step(s, t, made, destroys);
    if s.pcs[t].Claim? {
      assert Held(n, t);
    } else {
      assert Untouched(n);
    }
  }

  lemma StepFromHeld(s: State, o: Thread, t: Thread, made: Word, destroys: bool)
    requires Held(s, o) && t in s.pcs && Created(made)
    ensures Inv(Step(s, t, made, destroys), destroys)
  {
    var n := Step(s, t, made, destroys);
    if s.pcs[t].Publish? {
      assert Finished(n, o, destroys);
    } else {
      assert Held(n, o);
    }
  }

  lemma RegisteringOnce(log: seq<Event>, t: Thread, w: Word)
    requires forall i :: 0 <= i < |log| ==> !log[i].Registered?
    ensures RegisteredOnce(log + [Registered(t, w), Answered(t, w)])
  {
    assert RegisteredOnlyAt(log + [Registered(t, w), Answered(t, w)], |log|);
  }

  lemma AnsweringKeepsOnce(log: seq<Event>, t: Thread, w: Word)
    requires RegisteredOnce(log)
    ensures RegisteredOnce(log + [Answered(t, w)])
  {
    var k :| RegisteredOnlyAt(log, k);
    assert RegisteredOnlyAt(log + [Answered(t, w)], k);
  }

  lemma StepFromFinished(s: State, o: Thread, t: Thread, made: Word, destroys: bool)
    requires Finished(s, o, destroys) && t in s.pcs
    ensures Finished(Step(s, t, made, destroys), o, destroys)
  {
    var w := s.word;
    if s.pcs[t].Register? && destroys {
      RegisteringOnce(s.log, t, w);
      assert s.log + [Registered(t, w)] + [Answered(t, w)] == s.log + [Registered(t, w), Answered(t, w)];
    } else if destroys && !s.pcs[o].Register? {
      AnsweringKeepsOnce(s.log, t, w);
    }
  }

  lemma ActKeepsInv(s: State, a: Action, destroys: bool)
    requires Inv(s, destroys)
    requires a.Advance? ==> Created(a.made)
    ensures Inv(Act(s, a, destroys), destroys)
  {
    if a.t in s.pcs {
      var n := Act(s, a, destroys);
      if Untouched(s) {
        if a.Advance? { StepFromUntouched(s, a.t, a.made, destroys); } else { assert Untouched(n); }
      } else if o :| Held(s, o) {
        if a.Advance? { StepFromHeld(s, o, a.t, a.made, destroys); } else { assert Held(n, o); }
      } else {
        var o :| Finished(s, o, destroys);
        if a.Advance? { StepFromFinished(s, o, a.t, a.made, destroys); }
        assert Finished(n, o, destroys);
      }
    }
  }

  lemma {:induction false} RunKeepsInv(threads: set<Thread>, actions: seq<Action>, destroys: bool)
    requires CreatorsReturnInstances(actions)
    ensures Inv(Run(Initial(threads), actions, destroys), destroys)
    decreases |actions|
  {
    if actions == [] {
      assert Untouched(Initial(threads));
    } else {
      var last := |actions| - 1;
      RunKeepsInv(threads, actions[..last], destroys);
      ActKeepsInv(Run(Initial(threads), actions[..last], destroys), actions[last], destroys);
    }
  }

  // ----- safety of every run

  ghost predicate ConstructedOnce(log: seq<Event>) {
    forall i, j :: 0 <= i < |log| && 0 <= j < |log| && log[i].Constructed? && log[j].Constructed? ==> i == j
  }

  ghost predicate PublishedOnce(log: seq<Event>) {
    forall i, j :: 0 <= i < |log| && 0 <= j < |log| && log[i].Published? && log[j].Published? ==> i == j
  }

  ghost predicate RegisteredAtMostOnce(log: seq<Event>) {
    forall i, j :: 0 <= i < |log| && 0 <= j < |log| && log[i].Registered? && log[j].Registered? ==> i == j
  }

  /** The event at `i` concerns an instance whose construction and then
      publication came earlier. */
  ghost predicate FollowsPublication(log: seq<Event>, i: nat)
    requires i < |log|
  {
    exists c, p :: 0 <= c < p < i && log[c].Constructed? && log[p].Published?
      && log[c].instance == log[p].instance == log[i].instance
  }

  /** Every answer, and every destructor registration, is for a complete and
      already published instance. */
  ghost predicate AnswersArePublished(log: seq<Event>) {
    forall i :: 0 <= i < |log| && (log[i].Answered? || log[i].Registered?) ==>
      Created(log[i].instance) && FollowsPublication(log, i)
  }

  ghost predicate OneInstance(log: seq<Event>) {
    forall i, j :: 0 <= i < |log| && 0 <= j < |log| ==> log[i].instance == log[j].instance
  }

  lemma FinishedLog(s: State, o: Thread, destroys: bool)
    requires Finished(s, o, destroys)
    ensures ConstructedOnce(s.log) && PublishedOnce(s.log) && OneInstance(s.log)
    ensures AnswersArePublished(s.log)
  {
    assert forall i :: 0 <= i < |s.log| ==> s.log[i].instance == s.word;
    forall i | 0 <= i < |s.log| && (s.log[i].Answered? || s.log[i].Registered?)
      ensures FollowsPublication(s.log, i)
    {
      assert 0 <= 0 < 1 < i && s.log[0].Constructed? && s.log[1].Published?;
    }
  }

  lemma FinishedRegistration(s: State, o: Thread, destroys: bool)
    requires Finished(s, o, destroys)
    ensures RegisteredAtMostOnce(s.log)
  {
    if destroys && !s.pcs[o].Register? {
      var k :| RegisteredOnlyAt(s.log, k);
    }
  }

  /** For every set of threads and every interleaving: one constructor at a
      time, one construction, one publication and at most one registration
      ever, every answer is that published instance, and the debug check never
      fires. */
  lemma RaceIsSafe(threads: set<Thread>, actions: seq<Action>, destroys: bool)
    requires CreatorsReturnInstances(actions)
    ensures var s := Run(Initial(threads), actions, destroys);
      && OneConstructor(s)
      && ConstructedOnce(s.log) && PublishedOnce(s.log) && RegisteredAtMostOnce(s.log)
      && AnswersArePublished(s.log) && OneInstance(s.log)
      && (forall t :: t in s.pcs ==> !s.pcs[t].CheckFailed?)
      && (forall t :: t in s.pcs && s.pcs[t].Returned? ==> s.pcs[t].instance == s.word && Created(s.word))
  {
    RunKeepsInv(threads, actions, destroys);
    var s := Run(Initial(threads), actions, destroys);
    if !Untouched(s) && !(exists o :: Held(s, o)) {
      var o :| Finished(s, o, destroys);
      FinishedLog(s, o, destroys);
      FinishedRegistration(s, o, destroys);
    }
  }

  /** Whether the destructor is registered: never without one; with one, exactly
      once as soon as the thread that built the instance is done, and before
      anything is answered by it. */
  ghost predicate RegistrationIsRight(s: State, destroys: bool) {
    && (!destroys ==> forall k :: 0 <= k < |s.log| ==> !s.log[k].Registered?)
    && (destroys ==> forall k :: 0 <= k < |s.log| && DoneBy(s, s.log[k]) ==> RegisteredOnce(s.log))
  }

  /** The event is the publication by a thread that is past its registration. */
  ghost predicate DoneBy(s: State, e: Event) {
    e.Published? && e.who in s.pcs && !s.pcs[e.who].Register?
  }

  lemma RegistersExactlyOnce(threads: set<Thread>, actions: seq<Action>, destroys: bool)
    requires CreatorsReturnInstances(actions)
    ensures RegistrationIsRight(Run(Initial(threads), actions, destroys), destroys)
  {
    RunKeepsInv(threads, actions, destroys);
    var s := Run(Initial(threads), actions, destroys);
    if !Untouched(s) && !(exists o :: Held(s, o)) {
      var o :| Finished(s, o, destroys);
      forall k | 0 <= k < |s.log| && s.log[k].Published? ensures s.log[k].who == o {
        assert k < 2;
      }
    }
  }

  /** What is constructed is what a creator returned to the thread that ran it. */
  ghost predicate FromCreators(log: seq<Event>, actions: seq<Action>) {
    forall k :: 0 <= k < |log| && log[k].Constructed? ==> Advance(log[k].who, log[k].instance) in actions
  }

  lemma {:induction false} InstancesComeFromCreators(threads: set<Thread>, actions: seq<Action>, destroys: bool)
    ensures FromCreators(Run(Initial(threads), actions, destroys).log, actions)
    decreases |actions|
  {
    if actions != [] {
      var front, a := actions[..|actions| - 1], actions[|actions| - 1];
      InstancesComeFromCreators(threads, front, destroys);
      var s := Run(Initial(threads), front, destroys);
      assert actions == front + [a];
      ActLogs(s, a, destroys);
    }
  }

  /** A step adds to the log; a construction is of what its creator returned. */
  lemma ActLogs(s: State, a: Action, destroys: bool)
    ensures var log := Act(s, a, destroys).log;
      && s.log <= log
      && forall k :: |s.log| <= k < |log| && log[k].Constructed? ==> Advance(log[k].who, log[k].instance) == a
  {}

  /** Once the instance is published a call returns it with its first load. */
  lemma FastPath(s: State, t: Thread, made: Word, destroys: bool)
    requires Inv(s, destroys) && Created(s.word) && t in s.pcs && !Busy(s.pcs[t])
    ensures var r := Act(Act(s, Enter(t), destroys), Advance(t, made), destroys);
      r.pcs[t] == Returned(s.word) && r.word == s.word
  {}

  lemma Then(s: State, actions: seq<Action>, a: Action, destroys: bool)
    ensures Run(s, actions + [a], destroys) == Act(Run(s, actions, destroys), a, destroys)
  {
    assert (actions + [a])[..|actions|] == actions;
  }

  // ----- what creators must not return

  /** The creators return only `values`. */
  ghost predicate CreatorsReturn(actions: seq<Action>, values: iset<Word>) {
    forall k :: 0 <= k < |actions| && actions[k].Advance? ==> actions[k].made in values
  }

  ghost predicate CheckFires(s: State) {
    exists t :: t in s.pcs && s.pcs[t].CheckFailed?
  }

  /** Without a creator that returns 0 the word never goes back to 0: nobody is
      past the compare-and-swap while it is 0, nobody constructs once it holds an
      instance, and nobody reloads before. */
  ghost predicate NeverBack(s: State) {
    && (forall t :: t in s.pcs && s.word == UNSET ==> s.pcs[t].Idle? || s.pcs[t].FastLoad? || s.pcs[t].Claim?)
    && (forall t :: t in s.pcs && s.pcs[t].Reload? ==> Created(s.word))
    && (forall t :: t in s.pcs && Constructing(s.pcs[t]) ==> s.word == CREATING)
    && (forall t :: t in s.pcs && s.pcs[t].Publish? ==> s.pcs[t].instance != UNSET)
    && OneConstructor(s)
    && !CheckFires(s)
  }

  lemma ActNeverBack(s: State, a: Action, destroys: bool)
    requires NeverBack(s) && (a.Advance? ==> a.made != UNSET)
    ensures NeverBack(Act(s, a, destroys))
  {
    if a.t in s.pcs && a.Advance? {
      StepNeverBack(s, a.t, a.made, destroys);
    }
  }

  lemma StepNeverBack(s: State, t: Thread, made: Word, destroys: bool)
    requires NeverBack(s) && made != UNSET && t in s.pcs
    ensures NeverBack(Step(s, t, made, destroys))
  {
    var n := Step(s, t, made, destroys);
    match s.pcs[t]
    case Publish(w) => assert forall u :: u in s.pcs && u != t ==> !Constructing(s.pcs[u]);
    case Claim => assert s.word == UNSET ==> forall u :: u in s.pcs ==> !Constructing(s.pcs[u]);
    case Reload => assert Created(s.word);
    case _ =>
  }

  lemma {:induction false} RunNeverBack(threads: set<Thread>, actions: seq<Action>, values: iset<Word>, destroys: bool)
    requires CreatorsReturn(actions, values) && UNSET !in values
    ensures NeverBack(Run(Initial(threads), actions, destroys))
    decreases |actions|
  {
    if actions != [] {
      var last := |actions| - 1;
      RunNeverBack(threads, actions[..last], values, destroys);
      assert actions[last].Advance? ==> actions[last].made in values;
      ActNeverBack(Run(Initial(threads), actions[..last], destroys), actions[last], destroys);
    }
  }

  /** A thread alone waits only for its own mark, and for ever. */
  ghost predicate Alone(s: State) {
    && (forall t, u :: t in s.pcs && u in s.pcs ==> t == u)
    && (forall t :: t in s.pcs ==> !s.pcs[t].Reload? && !s.pcs[t].CheckFailed?)
    && (forall t :: t in s.pcs && s.pcs[t].Spin? ==> s.word == CREATING)
    && (forall t :: t in s.pcs && s.pcs[t].Claim? ==> !Created(s.word))
  }

  lemma {:induction false} RunAlone(threads: set<Thread>, actions: seq<Action>, destroys: bool)
    requires forall t, u :: t in threads && u in threads ==> t == u
    ensures Alone(Run(Initial(threads), actions, destroys))
    decreases |actions|
  {
    if actions != [] {
      RunAlone(threads, actions[..|actions| - 1], destroys);
      ActAlone(Run(Initial(threads), actions[..|actions| - 1], destroys), actions[|actions| - 1], destroys);
    }
  }

  lemma ActAlone(s: State, a: Action, destroys: bool)
    requires Alone(s)
    ensures Alone(Act(s, a, destroys))
  {
    if a.t in s.pcs {
      assert s.pcs.Keys == {a.t};
    }
  }

  /** Thread `a`'s creator returns 0 while thread `b` waits: the word goes back to
      0 and `b` trips the check. */
  lemma NullCreatorTripsTheCheck(threads: set<Thread>, a: Thread, b: Thread, destroys: bool) returns (actions: seq<Action>)
    requires a in threads && b in threads && a != b
    ensures CreatorsReturn(actions, iset{UNSET})
    ensures var s := Run(Initial(threads), actions, destroys); b in s.pcs && s.pcs[b].CheckFailed?
  {
    var s := Initial(threads);
    var calls := [Enter(a), Advance(a, UNSET), Advance(a, UNSET)] + [Enter(b), Advance(b, UNSET), Advance(b, UNSET)];
    var rest := [Advance(a, UNSET), Advance(a, UNSET)] + [Advance(b, UNSET), Advance(b, UNSET)];
    OneClaimsOneWaits(s, a, b, destroys);
    NullPublished(Run(s, calls, destroys), a, b, destroys);
    RunAppend(s, calls, rest, destroys);
    actions := calls + rest;
  }

  lemma OneClaimsOneWaits(s: State, a: Thread, b: Thread, destroys: bool)
    requires a in s.pcs && b in s.pcs && a != b && s.pcs[a].Idle? && s.pcs[b].Idle? && s.word == UNSET
    ensures
      var first, second := [Enter(a), Advance(a, UNSET), Advance(a, UNSET)], [Enter(b), Advance(b, UNSET), Advance(b, UNSET)];
      var r := Run(s, first + second, destroys);
      a in r.pcs && b in r.pcs && r.pcs[a] == Construct && r.pcs[b] == Spin && r.word == CREATING
  {
    var first, second := [Enter(a), Advance(a, UNSET), Advance(a, UNSET)], [Enter(b), Advance(b, UNSET), Advance(b, UNSET)];
    Three(s, first[0], first[1], first[2], destroys);
    var claimed := Run(s, first, destroys);
    assert claimed.word == CREATING && claimed.pcs == s.pcs[a := Construct];
    Three(claimed, second[0], second[1], second[2], destroys);
    RunAppend(s, first, second, destroys);
  }

  lemma NullPublished(s: State, a: Thread, b: Thread, destroys: bool)
    requires a in s.pcs && b in s.pcs && a != b && s.pcs[a] == Construct && s.pcs[b] == Spin && s.word == CREATING
    ensures
      var back, trip := [Advance(a, UNSET), Advance(a, UNSET)], [Advance(b, UNSET), Advance(b, UNSET)];
      var r := Run(s, back + trip, destroys);
      b in r.pcs && r.pcs[b].CheckFailed?
  {
    var back, trip := [Advance(a, UNSET), Advance(a, UNSET)], [Advance(b, UNSET), Advance(b, UNSET)];
    Two(s, back[0], back[1], destroys);
    var reset := Run(s, back, destroys);
    assert reset.word == UNSET && reset.pcs[b] == Spin;
    Two(reset, trip[0], trip[1], destroys);
    RunAppend(s, back, trip, destroys);
  }

  lemma Two(s: State, a: Action, b: Action, destroys: bool)
    ensures Run(s, [a, b], destroys) == Act(Act(s, a, destroys), b, destroys)
  {
    assert [a, b] == [] + [a] + [b];
    Then(s, [] + [a], b, destroys);
    Then(s, [], a, destroys);
  }

  lemma Three(s: State, a: Action, b: Action, c: Action, destroys: bool)
    ensures Run(s, [a, b, c], destroys) == Act(Act(Act(s, a, destroys), b, destroys), c, destroys)
  {
    assert [a, b, c] == [a, b] + [c];
    Then(s, [a, b], c, destroys);
    Two(s, a, b, destroys);
  }

  /** Some schedule trips the check exactly when there are two threads or more
      and a creator may return 0. */
  lemma CheckFiresIff(threads: set<Thread>, values: iset<Word>, destroys: bool)
    ensures (exists actions :: CreatorsReturn(actions, values) && CheckFires(Run(Initial(threads), actions, destroys)))
            <==> |threads| >= 2 && UNSET in values
  {
    if |threads| >= 2 && UNSET in values {
      var a :| a in threads;
      assert |threads - {a}| >= 1;
      var b :| b in threads - {a};
      var actions := NullCreatorTripsTheCheck(threads, a, b, destroys);
      assert CreatorsReturn(actions, values) && CheckFires(Run(Initial(threads), actions, destroys));
    } else {
      forall actions | CreatorsReturn(actions, values) ensures !CheckFires(Run(Initial(threads), actions, destroys)) {
        if UNSET !in values {
          RunNeverBack(threads, actions, values, destroys);
        } else {
          AtMostOne(threads);
          RunAlone(threads, actions, destroys);
        }
      }
    }
  }

  lemma AtMostOne(threads: set<Thread>)
    requires |threads| < 2
    ensures forall t, u :: t in threads && u in threads ==> t == u
  {
    forall t, u | t in threads && u in threads ensures t == u {
      assert |threads - {t}| < 1;
      assert u in threads - {t} || u == t;
    }
  }

  lemma {:induction false} RunAppend(s: State, first: seq<Action>, second: seq<Action>, destroys: bool)
    ensures Run(s, first + second, destroys) == Run(Run(s, first, destroys), second, destroys)
    decreases |second|
  {
    if second == [] {
      assert first + second == first;
    } else {
      var last := |second| - 1;
      assert (first + second)[..|first + second| - 1] == first + second[..last];
      RunAppend(s, first, second[..last], destroys);
    }
  }

  // ----- every call can return

  function Rank(pc: Pc): nat {
    match pc
    case FastLoad => 6
    case Claim => 5
    case Construct => 4
    case Publish(_) => 3
    case Register(_) => 1
    case Spin => 2
    case Reload => 1
    case _ => 0
  }

  ghost function TotalRank(pcs: map<Thread, Pc>, ts: set<Thread>): nat
    requires ts <= pcs.Keys
  {
    if ts == {} then 0 else
      var t :| t in ts;
      Rank(pcs[t]) + TotalRank(pcs, ts - {t})
  }

  lemma {:induction false} TotalRankSplit(pcs: map<Thread, Pc>, ts: set<Thread>, t: Thread)
    requires ts <= pcs.Keys && t in ts
    ensures TotalRank(pcs, ts) == Rank(pcs[t]) + TotalRank(pcs, ts - {t})
    decreases ts
  {
    var u :| u in ts && TotalRank(pcs, ts) == Rank(pcs[u]) + TotalRank(pcs, ts - {u});
    if u != t {
      TotalRankSplit(pcs, ts - {u}, t);
      TotalRankSplit(pcs, ts - {t}, u);
      assert ts - {u} - {t} == ts - {t} - {u};
    }
  }

  lemma {:induction false} TotalRankSame(pcs: map<Thread, Pc>, other: map<Thread, Pc>, ts: set<Thread>)
    requires ts <= pcs.Keys && ts <= other.Keys
    requires forall t :: t in ts ==> pcs[t] == other[t]
    ensures TotalRank(pcs, ts) == TotalRank(other, ts)
    decreases ts
  {
    if ts != {} {
      var t :| t in ts;
      TotalRankSplit(pcs, ts, t);
      TotalRankSplit(other, ts, t);
      TotalRankSame(pcs, other, ts - {t});
    }
  }

  /** In every reachable state with an unfinished call some thread can make a
      step that is not a wait, and such a step moves only that thread. */
  lemma SomeoneCanMove(s: State, destroys: bool) returns (t: Thread)
    requires Inv(s, destroys)
    requires exists u :: u in s.pcs && Busy(s.pcs[u])
    ensures t in s.pcs
    ensures var n := Step(s, t, 2, destroys);
      n.pcs == s.pcs[t := n.pcs[t]] && Rank(n.pcs[t]) < Rank(s.pcs[t])
  {
    if o :| Held(s, o) {
      t := o;
    } else {
      t :| t in s.pcs && Busy(s.pcs[t]);
    }
  }

  /** From every reachable state there is a continuation in which every call in
      progress returns: no reachable state is a deadlock. */
  lemma {:induction false} EveryCallCanReturn(s: State, destroys: bool) returns (actions: seq<Action>)
    requires Inv(s, destroys)
    ensures CreatorsReturnInstances(actions)
    ensures Run(s, actions, destroys).pcs.Keys == s.pcs.Keys
    ensures forall t :: t in s.pcs ==> !Busy(Run(s, actions, destroys).pcs[t])
    decreases TotalRank(s.pcs, s.pcs.Keys)
  {
    actions := [];
    if exists t :: t in s.pcs && Busy(s.pcs[t]) {
      var t := SomeoneCanMove(s, destroys);
      var a := Advance(t, 2);
      var n := Act(s, a, destroys);
      ActKeepsInv(s, a, destroys);
      TotalRankSplit(s.pcs, s.pcs.Keys, t);
      TotalRankSplit(n.pcs, s.pcs.Keys, t);
      TotalRankSame(s.pcs, n.pcs, s.pcs.Keys - {t});
      assert n.pcs.Keys == s.pcs.Keys;
      var rest := EveryCallCanReturn(n, destroys);
      actions := [a] + rest;
      RunAppend(s, [a], rest, destroys);
      assert [a][..0] == [];
      assert Run(s, [a], destroys) == n;
    }
  }

  // ----- every fair schedule returns

  /** Only steps of calls in progress, with creators that keep their contract. */
  predicate AdvancesOnly(actions: seq<Action>) {
    CreatorsReturnInstances(actions) && forall k :: 0 <= k < |actions| ==> actions[k].Advance?
  }

  ghost function Remaining(s: State): nat {
    TotalRank(s.pcs, s.pcs.Keys)
  }

  /** A step changes nothing (a wait, or no call in progress) or brings its
      thread nearer to its return. */
  lemma StepRanks(s: State, a: Action, destroys: bool)
    requires a.Advance?
    ensures var n := Act(s, a, destroys);
      n.pcs.Keys == s.pcs.Keys && (n == s || Remaining(n) < Remaining(s))
  {
    var n := Act(s, a, destroys);
    assert n.pcs.Keys == s.pcs.Keys;
    if n != s {
      assert Rank(n.pcs[a.t]) < Rank(s.pcs[a.t]);
      TotalRankSplit(s.pcs, s.pcs.Keys, a.t);
      TotalRankSplit(n.pcs, s.pcs.Keys, a.t);
      TotalRankSame(s.pcs, n.pcs, s.pcs.Keys - {a.t});
    }
  }

  lemma {:induction false} AdvancesKeep(s: State, actions: seq<Action>, destroys: bool)
    requires Inv(s, destroys) && AdvancesOnly(actions)
    ensures var n := Run(s, actions, destroys);
      Inv(n, destroys) && n.pcs.Keys == s.pcs.Keys && (n == s || Remaining(n) < Remaining(s))
    decreases |actions|
  {
    if actions != [] {
      var last := |actions| - 1;
      AdvancesKeep(s, actions[..last], destroys);
      var m := Run(s, actions[..last], destroys);
      ActKeepsInv(m, actions[last], destroys);
      StepRanks(m, actions[last], destroys);
    }
  }

  /** Every thread of the state gets a step. */
  ghost predicate Round(s: State, actions: seq<Action>) {
    AdvancesOnly(actions) && forall t :: t in s.pcs ==> exists k :: 0 <= k < |actions| && actions[k].t == t
  }

  lemma RunParts(s: State, before: seq<Action>, a: Action, after: seq<Action>, destroys: bool)
    ensures Run(s, before + [a] + after, destroys) == Run(Act(Run(s, before, destroys), a, destroys), after, destroys)
  {
    RunAppend(s, before + [a], after, destroys);
    Then(s, before, a, destroys);
  }

  /** A step of a thread that can move, with any steps around it. */
  lemma MoveRanks(s: State, before: seq<Action>, a: Action, after: seq<Action>, destroys: bool)
    requires Inv(s, destroys) && AdvancesOnly(before) && AdvancesOnly(after) && a.Advance? && Created(a.made)
    requires a.t in s.pcs && Rank(Step(s, a.t, 2, destroys).pcs[a.t]) < Rank(s.pcs[a.t])
    ensures Remaining(Run(s, before + [a] + after, destroys)) < Remaining(s)
  {
    AdvancesKeep(s, before, destroys);
    var m := Run(s, before, destroys);
    ActKeepsInv(m, a, destroys);
    StepRanks(m, a, destroys);
    if m == s { MoveIsReal(s, a.t, a.made, destroys); }
    AdvancesKeep(Act(m, a, destroys), after, destroys);
    RunParts(s, before, a, after, destroys);
  }

  /** While a call is in progress, no round is without effect. */
  lemma RoundRanks(s: State, actions: seq<Action>, destroys: bool)
    requires Inv(s, destroys) && Round(s, actions) && exists u :: u in s.pcs && Busy(s.pcs[u])
    ensures Remaining(Run(s, actions, destroys)) < Remaining(s)
  {
    var t := SomeoneCanMove(s, destroys);
    var k :| 0 <= k < |actions| && actions[k].t == t;
    assert actions == actions[..k] + [actions[k]] + actions[k + 1..];
    MoveRanks(s, actions[..k], actions[k], actions[k + 1..], destroys);
  }

  /** Whatever a creator returns, it is the same threads that can move. */
  lemma MoveIsReal(s: State, t: Thread, made: Word, destroys: bool)
    requires t in s.pcs && Rank(Step(s, t, 2, destroys).pcs[t]) < Rank(s.pcs[t])
    ensures Step(s, t, made, destroys) != s
  {
    assert Rank(Step(s, t, made, destroys).pcs[t]) < Rank(s.pcs[t]);
  }

  function RunRounds(s: State, rounds: seq<seq<Action>>, destroys: bool): State {
    if rounds == [] then s
    else Run(RunRounds(s, rounds[..|rounds| - 1], destroys), rounds[|rounds| - 1], destroys)
  }

  ghost predicate Fair(s: State, rounds: seq<seq<Action>>) {
    forall k :: 0 <= k < |rounds| ==> Round(s, rounds[k])
  }

  lemma {:induction false} RoundsRank(s: State, rounds: seq<seq<Action>>, destroys: bool)
    requires Inv(s, destroys) && Fair(s, rounds)
    ensures var n := RunRounds(s, rounds, destroys);
      && Inv(n, destroys) && n.pcs.Keys == s.pcs.Keys
      && ((exists u :: u in n.pcs && Busy(n.pcs[u])) ==> Remaining(n) + |rounds| <= Remaining(s))
    decreases |rounds|
  {
    if rounds != [] {
      var last := |rounds| - 1;
      RoundsRank(s, rounds[..last], destroys);
      var m, round := RunRounds(s, rounds[..last], destroys), rounds[last];
      var n := Run(m, round, destroys);
      assert Round(s, round);
      assert Round(m, round);
      AdvancesKeep(m, round, destroys);
      if exists u :: u in n.pcs && Busy(n.pcs[u]) {
        if forall u :: u in m.pcs ==> !Busy(m.pcs[u]) {
          NobodyMoves(m, round, destroys);
        }
        RoundRanks(m, round, destroys);
      }
    }
  }

  lemma {:induction false} NobodyMoves(s: State, actions: seq<Action>, destroys: bool)
    requires AdvancesOnly(actions) && forall u :: u in s.pcs ==> !Busy(s.pcs[u])
    ensures Run(s, actions, destroys) == s
    decreases |actions|
  {
    if actions != [] {
      NobodyMoves(s, actions[..|actions| - 1], destroys);
    }
  }

  lemma {:induction false} RankBound(pcs: map<Thread, Pc>, ts: set<Thread>)
    requires ts <= pcs.Keys
    ensures TotalRank(pcs, ts) <= 6 * |ts|
    decreases ts
  {
    if ts != {} {
      var t :| t in ts;
      TotalRankSplit(pcs, ts, t);
      RankBound(pcs, ts - {t});
    }
  }

  /** From every reachable state, whatever the order of the steps: once every
      thread has had a turn 6 times as often as there are threads, every call
      that was in progress has returned. */
  lemma FairSchedulesReturn(s: State, rounds: seq<seq<Action>>, destroys: bool)
    requires Inv(s, destroys) && Fair(s, rounds) && |rounds| >= 6 * |s.pcs|
    ensures var n := RunRounds(s, rounds, destroys);
      n.pcs.Keys == s.pcs.Keys && forall t :: t in n.pcs ==> !Busy(n.pcs[t])
  {
    RoundsRank(s, rounds, destroys);
    RankBound(s.pcs, s.pcs.Keys);
    assert |s.pcs| == |s.pcs.Keys|;
    var n := RunRounds(s, rounds, destroys);
    forall t | t in n.pcs ensures !Busy(n.pcs[t]) {
      if Busy(n.pcs[t]) {
        TotalRankSplit(n.pcs, n.pcs.Keys, t);
      }
    }
  }
}
