/** CancelableCallbackImpl: forwarders bound to the object by weak pointers, in
    the repeating and the once form.  A cancel or reset made from inside the
    wrapped callback is an event that follows the forwarder's own: by the time
    the callback's code runs, the object has made all its changes. */
module CancelableCallbacks {
  import opened Basics

  /** The wrapped callback: a closure, and which of the wrappings it is. */
  datatype Wrapped = Wrapped(closure: nat, serial: nat)

  /** A forwarder carries the generation of its weak pointer; a once forwarder
      is spent by running it. */
  datatype Forwarder = NullForwarder | Forwarder(generation: nat, spent: bool)

  datatype Event = Cancel | Reset(closure: nat) | Callback | Invoke(forwarder: nat) | Destroy

  /** `handed` are the forwarders in the order handed out; `log` the wrapped
      callbacks as they are run.  `failed` is a null closure given to Reset, or
      a null or spent callback run. */
  datatype State = State(
    once: bool, alive: bool, callback: Option<Wrapped>, generation: nat, wraps: nat,
    handed: seq<Forwarder>, log: seq<Wrapped>, failed: bool)

  /** The two constructors; closure 0 stands for the null closure. */
  function Init(once: bool, closure: nat): State {
    State(once, true, if closure == 0 then None else Some(Wrapped(closure, 0)), 0, 1, [], [], false)
  }

  function Fire(s: State): State {
    if s.callback.None? then s.(failed := true)
    else if s.once then s.(generation := s.generation + 1, callback := None, log := s.log + [s.callback.value])
    else s.(log := s.log + [s.callback.value])
  }

  /** Running a forwarder: it does nothing once its weak pointer is invalid. */
  function InvokeStep(s: State, f: nat): State
    requires f < |s.handed|
  {
    match s.handed[f]
    case NullForwarder => s.(failed := true)
    case Forwarder(g, spent) =>
      if spent then s.(failed := true)
      else
        var after := if s.once then s.(handed := s.handed[f := Forwarder(g, true)]) else s;
        if g == s.generation && s.alive then Fire(after) else after
  }

  /** A destroyed object is not called again, but its forwarders may be run. */
  function Step(s: State, e: Event): State {
    if s.failed || (!s.alive && !e.Invoke?) then s
    else match e
      case Cancel => s.(generation := s.generation + 1, callback := None)
      case Reset(c) =>
        if c == 0 then s.(failed := true)
        else s.(generation := s.generation + 1, callback := Some(Wrapped(c, s.wraps)), wraps := s.wraps + 1)
      case Callback =>
        s.(handed := s.handed + [if s.callback.None? then NullForwarder else Forwarder(s.generation, false)])
      case Invoke(f) => if f < |s.handed| then InvokeStep(s, f) else s
      case Destroy => s.(alive := false, callback := None)
  }

  function Run(s: State, events: seq<Event>): State {
    if events == [] then s
    else Step(Run(s, events[..|events| - 1]), events[|events| - 1])
  }

  // ----- what every step keeps

  /** The forwarder's weak pointer is valid and it has not been spent. */
  predicate Live(s: State, f: Forwarder) {
    f.Forwarder? && !f.spent && f.generation == s.generation && s.alive
  }

  ghost predicate Inv(s: State) {
    && (forall i :: 0 <= i < |s.handed| && s.handed[i].Forwarder? ==> s.handed[i].generation <= s.generation)
    && (forall i :: 0 <= i < |s.handed| && Live(s, s.handed[i]) ==> s.callback.Some?)
    && (forall i :: 0 <= i < |s.handed| && s.handed[i].Forwarder? && s.handed[i].spent ==>
          s.once && (s.handed[i].generation < s.generation || !s.alive))
    && (s.callback.Some? ==> s.callback.value.serial < s.wraps)
    && (!s.alive ==> s.callback.None?)
  }

  lemma StepKeepsInv(s: State, e: Event)
    requires Inv(s)
    ensures Inv(Step(s, e))
  {
    if e.Invoke? && e.forwarder < |s.handed| {
      assert Live(s, s.handed[e.forwarder]) ==> s.callback.Some?;
    }
  }

  lemma {:induction false} RunKeepsInv(s: State, events: seq<Event>)
    requires Inv(s)
    ensures Inv(Run(s, events))
    decreases |events|
  {
    if events != [] {
      RunKeepsInv(s, events[..|events| - 1]);
      StepKeepsInv(Run(s, events[..|events| - 1]), events[|events| - 1]);
    }
  }

  /** In every trace a valid forwarder has a non-null callback to run, so running
      a forwarder fails only when it is null or was spent before. */
  lemma ValidForwarderHasCallback(once: bool, closure: nat, events: seq<Event>, f: nat)
    ensures var s := Run(Init(once, closure), events);
      f < |s.handed| && !s.failed ==>
        && (Live(s, s.handed[f]) ==> s.callback.Some?)
        && (Step(s, Invoke(f)).failed <==> s.handed[f].NullForwarder? || s.handed[f].spent)
  {
    RunKeepsInv(Init(once, closure), events);
  }

  // ----- when a forwarder reaches the wrapped callback

  /** What running forwarder `f` now would run. */
  function Reached(s: State, f: nat): Option<Wrapped> {
    var r := Step(s, Invoke(f));
    if |r.log| > |s.log| then Some(r.log[|s.log|]) else None
  }

  /** A cancel, a reset, a destruction, or a forwarder of the once form that
      gets through. */
  predicate Breaks(s: State, e: Event) {
    e.Cancel? || e.Reset? || e.Destroy? || (s.once && |Step(s, e).log| > |s.log|)
  }

  predicate Broken(s: State, events: seq<Event>) {
    && events != []
    && var before := events[..|events| - 1];
    (Broken(s, before) || Breaks(Run(s, before), events[|events| - 1]))
  }

  /** Forwarder `f` is as `s` left it, or can never get through again. */
  ghost predicate Tracks(s: State, r: State, f: nat, broken: bool)
    requires f < |s.handed| && s.handed[f].Forwarder?
  {
    && f < |r.handed| && r.handed[f].Forwarder? && r.handed[f].generation == s.generation
    && r.once == s.once
    && if broken then r.generation > s.generation || !r.alive
    else r.generation == s.generation && r.alive && r.callback == s.callback && !r.handed[f].spent
  }

  lemma StepTracks(s: State, r: State, f: nat, broken: bool, e: Event)
    requires f < |s.handed| && s.handed[f].Forwarder? && s.callback.Some? && s.alive
    requires Tracks(s, r, f, broken) && Inv(r) && !Step(r, e).failed
    ensures Tracks(s, Step(r, e), f, broken || Breaks(r, e))
  {}

  lemma {:induction false} RunTracks(s: State, f: nat, events: seq<Event>)
    requires Inv(s) && f < |s.handed| && Live(s, s.handed[f]) && s.callback.Some?
    requires !Run(s, events).failed
    ensures Tracks(s, Run(s, events), f, Broken(s, events))
    decreases |events|
  {
    if events != [] {
      var before := events[..|events| - 1];
      RunTracks(s, f, before);
      RunKeepsInv(s, before);
      StepTracks(s, Run(s, before), f, Broken(s, before), events[|events| - 1]);
    }
  }

  lemma {:induction false} NullStaysNull(s: State, f: nat, events: seq<Event>)
    requires f < |s.handed| && s.handed[f].NullForwarder?
    ensures var r := Run(s, events); f < |r.handed| && r.handed[f].NullForwarder?
    decreases |events|
  {
    if events != [] {
      NullStaysNull(s, f, events[..|events| - 1]);
    }
  }

  // ----- what is wrapped, from the events alone

  /** The closure given last: by the last reset or, before any, on creation. */
  function LastClosure(closure: nat, events: seq<Event>): nat {
    if events == [] then closure
    else if events[|events| - 1].Reset? then events[|events| - 1].closure
    else LastClosure(closure, events[..|events| - 1])
  }

  /** At event `j` the callback is given up: a cancel, or a run of the once form. */
  ghost predicate GivenUp(once: bool, closure: nat, events: seq<Event>, j: nat) {
    && j < |events|
    && (events[j].Cancel? || (once && RunsAt(once, closure, events, j)))
  }

  /** Event `j` runs a wrapped callback. */
  ghost predicate RunsAt(once: bool, closure: nat, events: seq<Event>, j: nat)
    requires j < |events|
  {
    |Run(Init(once, closure), events[..j + 1]).log| > |Run(Init(once, closure), events[..j]).log|
  }

  ghost predicate NoResetFrom(events: seq<Event>, from: nat) {
    forall k :: from <= k < |events| ==> !events[k].Reset?
  }

  ghost predicate Destroyed(events: seq<Event>) {
    exists k :: 0 <= k < |events| && events[k].Destroy?
  }

  /** Nothing is wrapped: the object is destroyed, or gave its callback up with no
      reset since, or was made without one and never reset. */
  ghost predicate Unwrapped(once: bool, closure: nat, events: seq<Event>) {
    || Destroyed(events)
    || (exists j: nat :: GivenUp(once, closure, events, j) && NoResetFrom(events, j))
    || (closure == 0 && NoResetFrom(events, 0))
  }

  lemma DestroyedSnoc(events: seq<Event>, e: Event)
    ensures Destroyed(events + [e]) <==> Destroyed(events) || e.Destroy?
  {
    var all := events + [e];
    if k :| 0 <= k < |events| && events[k].Destroy? { assert all[k].Destroy?; }
    if e.Destroy? { assert all[|events|].Destroy?; }
    if k :| 0 <= k < |all| && all[k].Destroy? { assert k < |events| ==> events[k].Destroy?; }
  }

  lemma GivenUpSnoc(once: bool, closure: nat, events: seq<Event>, e: Event, j: nat)
    requires j <= |events|
    ensures GivenUp(once, closure, events + [e], j) <==>
      if j < |events| then GivenUp(once, closure, events, j)
      else e.Cancel? || (once && |Step(Run(Init(once, closure), events), e).log| > |Run(Init(once, closure), events).log|)
  {
    var all := events + [e];
    assert all[..j] == events[..j] && (j < |events| ==> all[..j + 1] == events[..j + 1]);
    if j == |events| {
      assert all[..j + 1] == all && all[..|all| - 1] == events && events[..j] == events;
    }
  }

  lemma NoResetSnoc(events: seq<Event>, e: Event, from: nat)
    requires from <= |events|
    ensures NoResetFrom(events + [e], from) <==> NoResetFrom(events, from) && !e.Reset?
  {
    var all := events + [e];
    assert all[|events|] == e && forall k :: 0 <= k < |events| ==> all[k] == events[k];
  }

  /** One event more. */
  lemma UnwrappedSnoc(once: bool, closure: nat, events: seq<Event>, e: Event)
    ensures
      var s := Run(Init(once, closure), events);
      Unwrapped(once, closure, events + [e]) <==>
        || Destroyed(events) || e.Destroy? || e.Cancel?
        || (once && |Step(s, e).log| > |s.log|)
        || (!e.Reset? && Unwrapped(once, closure, events))
  {
    var all, n := events + [e], |events|;
    DestroyedSnoc(events, e);
    GivenUpSnoc(once, closure, events, e, n);
    NoResetSnoc(events, e, n);
    NoResetSnoc(events, e, 0);
    ResetFiresNothing(Run(Init(once, closure), events), e);
    assert GivenUp(once, closure, all, n) && !e.Reset? ==> NoResetFrom(all, n);
    if j: nat :| GivenUp(once, closure, events, j) && NoResetFrom(events, j) {
      GivenUpSnoc(once, closure, events, e, j);
      NoResetSnoc(events, e, j);
    }
    if j: nat :| GivenUp(once, closure, all, j) && NoResetFrom(all, j) {
      GivenUpSnoc(once, closure, events, e, j);
      NoResetSnoc(events, e, j);
    }
  }

  lemma ResetFiresNothing(s: State, e: Event)
    ensures e.Reset? ==> |Step(s, e).log| == |s.log|
  {}

  /** After every trace without a failure: the object is alive unless destroyed,
      it wraps nothing exactly when the events say so, and what it wraps is the
      closure given last. */
  ghost predicate WrapsAsTold(once: bool, closure: nat, events: seq<Event>, s: State) {
    && (s.alive <==> !Destroyed(events))
    && (s.callback == None <==> Unwrapped(once, closure, events))
    && (s.callback.Some? ==> s.callback.value.closure == LastClosure(closure, events))
  }

  lemma {:induction false} WrappedIsLastGiven(once: bool, closure: nat, events: seq<Event>)
    requires !Run(Init(once, closure), events).failed
    ensures WrapsAsTold(once, closure, events, Run(Init(once, closure), events))
    decreases |events|
  {
    if events != [] {
      var before, e := events[..|events| - 1], events[|events| - 1];
      assert events == before + [e];
      var s := Run(Init(once, closure), before);
      WrappedIsLastGiven(once, closure, before);
      RunKeepsInv(Init(once, closure), before);
      RunKeepsForm(once, closure, before);
      DestroyedSnoc(before, e);
      UnwrappedSnoc(once, closure, before, e);
      StepWraps(s, e);
    }
  }

  lemma {:induction false} RunKeepsForm(once: bool, closure: nat, events: seq<Event>)
    ensures Run(Init(once, closure), events).once == once
    decreases |events|
  {
    if events != [] { RunKeepsForm(once, closure, events[..|events| - 1]); }
  }

  /** What a step does to what is wrapped. */
  lemma StepWraps(s: State, e: Event)
    requires Inv(s) && !s.failed && !Step(s, e).failed
    ensures var r := Step(s, e);
      && (r.alive <==> s.alive && !e.Destroy?)
      && if s.alive && e.Reset? then r.callback.Some? && r.callback.value.closure == e.closure
      else if e.Cancel? || e.Destroy? || (s.once && |r.log| > |s.log|) then r.callback == None
      else r.callback == s.callback
  {}

  /** After any trace `past`, hand out a forwarder, and let anything happen:
      running that forwarder then runs the closure given last before it was
      handed out, if one was wrapped then and there has been no cancel, reset,
      destruction or once-run since; in every other case it runs nothing. */
  lemma ForwarderReachesIffUnbroken(once: bool, closure: nat, past: seq<Event>, events: seq<Event>)
    requires var s := Run(Init(once, closure), past); s.alive && !s.failed
    requires !Run(Step(Run(Init(once, closure), past), Callback), events).failed
    ensures
      var s := Run(Init(once, closure), past);
      var handed := Step(s, Callback);
      var reached := Reached(Run(handed, events), |s.handed|);
      && (reached.Some? <==> !Unwrapped(once, closure, past) && !Broken(handed, events))
      && (reached.Some? ==> reached.value.closure == LastClosure(closure, past) && reached == s.callback)
  {
    var s := Run(Init(once, closure), past);
    RunKeepsInv(Init(once, closure), past);
    WrappedIsLastGiven(once, closure, past);
    var handed := Step(s, Callback);
    StepKeepsInv(s, Callback);
    var r := Run(handed, events);
    var f := |s.handed|;
    if s.callback.Some? {
      RunTracks(handed, f, events);
      assert Tracks(handed, r, f, Broken(handed, events));
    } else {
      NullStaysNull(handed, f, events);
    }
  }

  // ----- at most once

  ghost predicate SerialsIncrease(log: seq<Wrapped>) {
    forall i, j :: 0 <= i < j < |log| ==> log[i].serial < log[j].serial
  }

  ghost predicate OnceInv(s: State) {
    && s.once && SerialsIncrease(s.log)
    && (forall i :: 0 <= i < |s.log| ==> s.log[i].serial < s.wraps)
    && (s.callback.Some? ==> forall i :: 0 <= i < |s.log| ==> s.log[i].serial < s.callback.value.serial)
  }

  lemma StepKeepsOnce(s: State, e: Event)
    requires Inv(s) && OnceInv(s)
    ensures OnceInv(Step(s, e))
  {
    var r := Step(s, e);
    assert r.log == s.log || (s.callback.Some? && r.callback == None && r.log == s.log + [s.callback.value]);
  }

  /** In the once form all forwarders together run each wrapping at most once,
      in the order of the wrappings. */
  lemma {:induction false} OnceFormRunsAtMostOnce(closure: nat, events: seq<Event>)
    ensures OnceInv(Run(Init(true, closure), events))
    ensures var log := Run(Init(true, closure), events).log;
      forall i, j :: 0 <= i < j < |log| ==> log[i] != log[j]
    decreases |events|
  {
    if events != [] {
      var before := events[..|events| - 1];
      OnceFormRunsAtMostOnce(closure, before);
      RunKeepsInv(Init(true, closure), before);
      StepKeepsOnce(Run(Init(true, closure), before), events[|events| - 1]);
    }
    assert SerialsIncrease(Run(Init(true, closure), events).log);
  }

  // ----- the objects

  /** The flag a weak pointer shares with its factory; a new one is made at each
      invalidation. */
  class Flag {
    const generation: nat
    var valid: bool

    constructor (generation: nat)
      ensures this.generation == generation && valid
    {
      this.generation, valid := generation, true;
    }
  }

  /** A forwarder as the callers hold it. */
  datatype Handle = Null | Handle(flag: Flag, spent: bool)

  class CancelableCallback {
    const once: bool
    var alive: bool
    var callback: Option<Wrapped>
    var flag: Flag
    var wraps: nat
    var handed: seq<Handle>
    var log: seq<Wrapped>
    ghost var view: State

    /** The object is what `view` says: a forwarder's flag is valid while its
        generation is the current one. */
    ghost predicate Valid()
      reads this, flag, set i | 0 <= i < |handed| && handed[i].Handle? :: handed[i].flag
    {
      && Inv(view) && !view.failed
      && view.once == once && view.alive == alive && view.callback == callback
      && view.generation == flag.generation && flag.valid == alive
      && view.wraps == wraps && view.log == log
      && |view.handed| == |handed|
      && forall i :: 0 <= i < |handed| ==> Shows(handed[i], view.handed[i])
    }

    ghost predicate Shows(h: Handle, f: Forwarder)
      reads this, flag, if h.Handle? then {h.flag} else {}
    {
      match h
      case Null => f == NullForwarder
      case Handle(hflag, spent) =>
        && f == Forwarder(hflag.generation, spent)
        && (hflag == flag || (hflag.generation < flag.generation && !hflag.valid))
    }

    constructor (once: bool, closure: nat)
      ensures Valid() && view == Init(once, closure) && fresh(flag)
    {
      this.once, alive := once, true;
      callback := if closure == 0 then None else Some(Wrapped(closure, 0));
      flag := new Flag(0);
      wraps, handed, log := 1, [], [];
      view := Init(once, closure);
    }

    /** WeakReferenceOwner::Invalidate. */
    method InvalidateWeakPtrs()
      modifies this`flag, flag
      ensures fresh(flag) && flag.valid && flag.generation == old(flag.generation) + 1
      ensures !old(flag).valid
    {
      flag.valid := false;
      flag := new Flag(flag.generation + 1);
    }

    method Cancel()
      requires Valid() && alive
      modifies this, flag
      ensures Valid() && view == Step(old(view), Event.Cancel) && handed == old(handed)
      ensures forall i :: 0 <= i < |handed| && handed[i].Handle? ==> !handed[i].flag.valid
    {
      InvalidateWeakPtrs();
      callback := None;
      view := Step(view, Event.Cancel);
    }

    /** Not `passed` when the null check fires, and then nothing has changed. */
    method Reset(closure: nat) returns (passed: bool)
      requires Valid() && alive
      modifies this, flag
      ensures Valid() && passed == (closure != 0)
      ensures view == if passed then Step(old(view), Event.Reset(closure)) else old(view)
      ensures passed ==> callback.Some? && callback.value.closure == closure
    {
      passed := closure != 0;
      if passed {
        ghost var was := view;
        Cancel();
        callback, wraps := Some(Wrapped(closure, wraps)), wraps + 1;
        view := Step(was, Event.Reset(closure));
      }
    }

    method Callback() returns (forwarder: nat)
      requires Valid() && alive
      modifies this
      ensures Valid() && view == Step(old(view), Event.Callback)
      ensures forwarder == |old(handed)| < |handed|
    {
      forwarder := |handed|;
      view := Step(view, Event.Callback);
      handed := handed + [if callback.None? then Null else Handle(flag, false)];
    }

    /** Running a forwarder: ForwardOnce or ForwardRepeating behind a weak
        pointer; not `passed` when the forwarder is null or spent. */
    method Invoke(f: nat) returns (passed: bool, reached: Option<Wrapped>)
      requires Valid() && f < |handed|
      modifies this, flag
      ensures Valid()
      ensures passed == !Step(old(view), Event.Invoke(f)).failed
      ensures view == if passed then Step(old(view), Event.Invoke(f)) else old(view)
      ensures reached == Reached(old(view), f)
    {
      ghost var was := view;
      passed, reached := handed[f].Handle? && !handed[f].spent, None;
      assert Shows(handed[f], view.handed[f]);
      if passed {
        var hflag := handed[f].flag;
        view := Step(view, Event.Invoke(f));
        if once {
          handed := handed[f := Handle(hflag, true)];
        }
        if hflag.valid {
          reached := callback;
          log := log + [callback.value];
          if once {
            InvalidateWeakPtrs();
            callback := None;
          }
        }
        StepKeepsInv(was, Event.Invoke(f));
      }
    }

    method Destroy()
      requires Valid() && alive
      modifies this, flag
      ensures Valid() && view == Step(old(view), Event.Destroy)
    {
      flag.valid := false;
      callback, alive := None, false;
      view := Step(view, Event.Destroy);
    }
  }
}
