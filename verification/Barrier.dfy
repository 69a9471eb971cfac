/** BarrierClosure: a closure to be called N times, from any threads; the call
    whose decrement is the N-th runs the done closure.  Each call is split into
    its two atomic steps, the zero check's load and the fetch-and-subtract. */
module Barriers {

  type Call = nat

  datatype Pc =
    | Entered       // about to load the count for the debug check
    | Checked       // about to decrement
    | Closing       // its decrement reached zero: about to run the closure
    | Returned
    | CheckFailed   // the debug check saw zero

  /** `ran` lists who ran the done closure, a call or the creation itself;
      `order` lists the calls in the order of their decrements. */
  datatype Runner = Creation | By(call: Call)
  datatype State = State(count: int, pcs: map<Call, Pc>, order: seq<Call>, ran: seq<Runner>)

  /** BarrierClosure itself: with nothing to wait for it runs the closure. */
  function Create(n: nat, calls: set<Call>): State {
    State(n, map c | c in calls :: Entered, [], if n == 0 then [Creation] else [])
  }

  /** One atomic step of a call. */
  function Step(s: State, c: Call): State {
    if c !in s.pcs then s
    else match s.pcs[c]
      case Entered => s.(pcs := s.pcs[c := if s.count == 0 then CheckFailed else Checked])
      case Checked =>
        s.(count := s.count - 1, order := s.order + [c], pcs := s.pcs[c := if s.count != 1 then Returned else Closing])
      case Closing => s.(ran := s.ran + [By(c)], pcs := s.pcs[c := Returned])
      case _ => s
  }

  function Run(s: State, schedule: seq<Call>): State {
    if schedule == [] then s
    else Step(Run(s, schedule[..|schedule| - 1]), schedule[|schedule| - 1])
  }

  // ----- what every step keeps

  predicate Decremented(pc: Pc) {
    pc == Closing || pc == Returned
  }

  /** The calls that have decremented are those in `order`, once each, and the
      count is what they leave of `n`. */
  ghost predicate Counted(s: State, n: nat) {
    && s.count == n - |s.order|
    && (forall c :: c in s.order <==> c in s.pcs && Decremented(s.pcs[c]))
    && (forall j, k :: 0 <= j < k < |s.order| ==> s.order[j] != s.order[k])
  }

  /** The closure has run, or is about to be run, only by the `n`-th in order. */
  ghost predicate ClosedByLast(s: State, n: nat) {
    && (|s.order| < n ==> s.ran == [] && forall c :: c in s.pcs ==> s.pcs[c] != Closing)
    && (|s.order| == n >= 1 ==>
          var last := s.order[n - 1];
          && last in s.pcs
          && (forall c :: c in s.pcs && s.pcs[c] == Closing ==> c == last)
          && s.ran == if s.pcs[last] == Closing then [] else [By(last)])
  }

  ghost predicate Inv(s: State, n: nat) {
    && n >= 1 && |s.order| <= n
    && Counted(s, n)
    && ClosedByLast(s, n)
    && (forall c :: c in s.pcs ==> s.pcs[c] != CheckFailed)
  }

  /** Fewer than all calls have decremented while one has not. */
  lemma RoomLeft(s: State, n: nat, c: Call)
    requires Inv(s, n) && |s.pcs| <= n && c in s.pcs && !Decremented(s.pcs[c])
    ensures |s.order| < |s.pcs|
  {
    var done := set x | x in s.order;
    DistinctSize(s.order, done);
    assert done <= s.pcs.Keys - {c};
    SubsetSize(done, s.pcs.Keys - {c});
  }

  lemma {:induction false} DistinctSize(a: seq<Call>, elements: set<Call>)
    requires forall j, k :: 0 <= j < k < |a| ==> a[j] != a[k]
    requires elements == set x | x in a
    ensures |elements| == |a|
    decreases |a|
  {
    if a != [] {
      var last := |a| - 1;
      var fewer := set x | x in a[..last];
      DistinctSize(a[..last], fewer);
      assert a == a[..last] + [a[last]];
      assert elements == fewer + {a[last]};
    }
  }

  lemma {:induction false} SubsetSize(a: set<Call>, b: set<Call>)
    requires a <= b
    ensures |a| <= |b|
    decreases |a|
  {
    if a != {} {
      var x :| x in a;
      SubsetSize(a - {x}, b - {x});
    }
  }

  lemma StepKeepsInv(s: State, n: nat, c: Call)
    requires Inv(s, n) && |s.pcs| <= n
    ensures Inv(Step(s, c), n) && Step(s, c).pcs.Keys == s.pcs.Keys
  {
    if c in s.pcs && !Decremented(s.pcs[c]) {
      RoomLeft(s, n, c);
    }
  }

  lemma {:induction false} RunKeepsInv(n: nat, calls: set<Call>, schedule: seq<Call>)
    requires n >= 1 && |calls| <= n
    ensures Inv(Run(Create(n, calls), schedule), n) && Run(Create(n, calls), schedule).pcs.Keys == calls
    decreases |schedule|
  {
    if schedule != [] {
      RunKeepsInv(n, calls, schedule[..|schedule| - 1]);
      var s := Run(Create(n, calls), schedule[..|schedule| - 1]);
      assert |s.pcs| == |s.pcs.Keys|;
      StepKeepsInv(s, n, schedule[|schedule| - 1]);
    }
  }

  /** For every N >= 1, at most N calls and every interleaving: the check never
      fires; the closure has not run before the N-th decrement, and afterwards
      it is run once, by the call that made that decrement. */
  lemma RunsOnceOnLast(n: nat, calls: set<Call>, schedule: seq<Call>)
    requires n >= 1 && |calls| <= n
    ensures var s := Run(Create(n, calls), schedule);
      && (forall c :: c in s.pcs ==> s.pcs[c] != CheckFailed)
      && s.count == n - |s.order| >= 0
      && (s.count > 0 ==> s.ran == [])
      && (s.count == 0 ==> var last := s.order[n - 1]; last in s.pcs && s.ran == if s.pcs[last] == Closing then [] else [By(last)])
      && ((forall c :: c in s.pcs ==> s.pcs[c] == Returned) ==> (s.ran != [] <==> |calls| == n))
  {
    RunKeepsInv(n, calls, schedule);
    var s := Run(Create(n, calls), schedule);
    if forall c :: c in s.pcs ==> s.pcs[c] == Returned {
      var done := set x | x in s.order;
      DistinctSize(s.order, done);
      assert done == s.pcs.Keys;
    }
    if s.count == 0 { assert s.order[n - 1] in s.order; }
  }

  /** With nothing to wait for, the closure runs during creation, once: a
      later call would trip the check before it decremented anything. */
  lemma {:induction false} ZeroRunsAtOnce(calls: set<Call>, schedule: seq<Call>)
    ensures var s := Run(Create(0, calls), schedule);
      && s.ran == [Creation] && s.count == 0
      && forall c :: c in s.pcs ==> s.pcs[c] == Entered || s.pcs[c] == CheckFailed
    decreases |schedule|
  {
    if schedule != [] {
      ZeroRunsAtOnce(calls, schedule[..|schedule| - 1]);
    }
  }

  // ----- how many calls are too many

  ghost predicate Trips(n: nat, calls: set<Call>, schedule: seq<Call>) {
    exists c :: c in calls && c in Run(Create(n, calls), schedule).pcs && Run(Create(n, calls), schedule).pcs[c] == CheckFailed
  }

  /** `first` are chosen calls that have run to the end, one after another. */
  lemma {:induction false} Serial(n: nat, calls: set<Call>, first: set<Call>) returns (schedule: seq<Call>)
    requires first <= calls && |first| <= n
    ensures var s := Run(Create(n, calls), schedule);
      && s.count == n - |first| && s.pcs.Keys == calls
      && forall c :: c in calls - first ==> s.pcs[c] == Entered
    decreases |first|
  {
    if first == {} {
      schedule := [];
    } else {
      var x :| x in first;
      var before := Serial(n, calls, first - {x});
      schedule := before + [x] + [x];
      assert schedule[..|schedule| - 1] == before + [x] && (before + [x])[..|before|] == before;
      var s := Run(Create(n, calls), before);
      assert Run(Create(n, calls), before + [x]) == Step(s, x);
      assert Run(Create(n, calls), schedule) == Step(Step(s, x), x);
    }
  }

  /** A set of more than `n` calls has `n` of them and another. */
  lemma {:induction false} Choose(calls: set<Call>, n: nat) returns (first: set<Call>)
    requires n <= |calls|
    ensures first <= calls && |first| == n
    decreases n
  {
    if n == 0 {
      first := {};
    } else {
      var fewer := Choose(calls, n - 1);
      if calls <= fewer {
        SubsetSize(calls, fewer);
        assert false;
      }
      var x :| x in calls && x !in fewer;
      first := fewer + {x};
    }
  }

  /** The zero check is safe in every interleaving exactly for N calls or fewer. */
  lemma SafeIffAtMostN(n: nat, calls: set<Call>)
    ensures (forall schedule :: !Trips(n, calls, schedule)) <==> |calls| <= n
  {
    if |calls| <= n {
      forall schedule ensures !Trips(n, calls, schedule) {
        if n >= 1 {
          RunKeepsInv(n, calls, schedule);
        } else {
          assert calls == {};
        }
      }
    } else {
      var first := Choose(calls, n);
      if calls <= first {
        SubsetSize(calls, first);
        assert false;
      }
      var x :| x in calls && x !in first;
      var before := Serial(n, calls, first);
      var schedule := before + [x];
      assert schedule[..|before|] == before;
      assert Run(Create(n, calls), schedule).pcs[x] == CheckFailed;
      assert Trips(n, calls, schedule);
    }
  }

  // ----- the objects

  class AtomicRefCount {
    var count: int

    constructor (initial: int)
      ensures count == initial
    {
      count := initial;
    }

    method IsZero() returns (zero: bool)
      ensures zero <==> count == 0
    {
      zero := count == 0;
    }

    /** True while the count has not reached zero. */
    method Decrement() returns (more: bool)
      modifies this
      ensures count == old(count) - 1
      ensures more <==> count != 0
    {
      var before := count;
      count := count - 1;
      more := before != 1;
    }
  }

  /** A barrier whose calls run one at a time; `ran` counts the runs of the done
      closure, null once it has been moved out. */
  class BarrierInfo {
    const left: AtomicRefCount
    var done: bool
    var ran: nat
    ghost var made: nat     // what it was created for
    ghost var called: nat   // calls so far

    ghost predicate Valid()
      reads this, left
    {
      && called <= made && left.count == made - called
      && ran == (if called == made then 1 else 0)
      && (done <==> called < made)
    }

    constructor (n: nat)
      ensures Valid() && fresh(left) && made == n && called == 0
    {
      left := new AtomicRefCount(n);
      made, called := n, 0;
      if n == 0 {
        done, ran := false, 1;
      } else {
        done, ran := true, 0;
      }
    }

    /** False when the debug check fires, which happens for the calls after the last. */
    method Run() returns (passed: bool)
      requires Valid()
      modifies this, left
      ensures Valid() && made == old(made)
      ensures passed <==> old(called) < made
      ensures called == old(called) + if passed then 1 else 0
      ensures ran == old(ran) + if passed && called == made then 1 else 0
    {
      var zero := left.IsZero();
      passed := !zero;
      if passed {
        var more := left.Decrement();
        called := called + 1;
        if !more {
          assert done;
          done, ran := false, ran + 1;
        }
      }
    }
  }
}
