/** ObserverList: a list that may be changed, walked by nested or copied
    iterators, and destroyed, all while a walk is in progress.  Entries removed
    during a walk become tombstones and are erased when the last live iterator
    leaves. */
module ObserverLists {
  import opened Basics

  datatype Policy = All | ExistingOnly

  /** An entry's pointer; null marks it for removal. */
  datatype Ptr = Null | To(observer: nat)

  /** `reg` numbers the registrations in order; the code keeps only `ptr`. */
  datatype Slot = Slot(reg: nat, ptr: Ptr)

  /** An iterator's max_index_: the largest size_t, or the size at its start. */
  datatype Max = Unbounded | UpTo(n: nat)

  datatype Cursor = Cursor(index: nat, max: Max)

  /** The list and its live iterators, which are known by identities `I`. */
  datatype List<!I> = List(slots: seq<Slot>, cursors: map<I, Cursor>, policy: Policy, nextReg: nat)

  predicate Live(slot: Slot) {
    slot.ptr != Null
  }

  // ----- the operations of the code

  function Clamp(max: Max, size: nat): nat {
    if max.Unbounded? || size <= max.n then size else max.n
  }

  /** The first position of `obs`, or the size. */
  function Find(slots: seq<Slot>, obs: nat): (k: nat)
    ensures k <= |slots|
    ensures k < |slots| ==> slots[k].ptr == To(obs)
    ensures forall j :: 0 <= j < k ==> slots[j].ptr != To(obs)
  {
    if slots == [] then 0
    else if slots[0].ptr == To(obs) then 0
    else 1 + Find(slots[1..], obs)
  }

  /** EnsureValidIndex: the first live position from `k` on, below `limit`. */
  function Skip(slots: seq<Slot>, k: nat, limit: nat): (r: nat)
    requires limit <= |slots|
    ensures k <= limit ==> r <= limit
    ensures k <= r
    ensures r < limit ==> Live(slots[r])
    ensures forall j :: k <= j < r ==> j < limit && !Live(slots[j])
    decreases limit - k
  {
    if k < limit && !Live(slots[k]) then Skip(slots, k + 1, limit) else k
  }

  function Marked(slot: Slot): Slot {
    slot.(ptr := Null)
  }

  function Compacted(slots: seq<Slot>): seq<Slot> {
    if slots == [] then []
    else if Live(slots[|slots| - 1]) then Compacted(slots[..|slots| - 1]) + [slots[|slots| - 1]]
    else Compacted(slots[..|slots| - 1])
  }

  function Added<I>(s: List<I>, obs: nat): List<I> {
    if Find(s.slots, obs) < |s.slots| then s
    else s.(slots := s.slots + [Slot(s.nextReg, To(obs))], nextReg := s.nextReg + 1)
  }

  function Removed<I>(s: List<I>, obs: nat): List<I> {
    var k := Find(s.slots, obs);
    if k == |s.slots| then s
    else if s.cursors == map[] then s.(slots := s.slots[..k] + s.slots[k + 1..])
    else s.(slots := s.slots[k := Marked(s.slots[k])])
  }

  function Cleared<I>(s: List<I>): List<I> {
    if s.cursors == map[] then s.(slots := [])
    else s.(slots := seq(|s.slots|, k requires 0 <= k < |s.slots| => Marked(s.slots[k])))
  }

  function StartMax<I>(s: List<I>): Max {
    if s.policy == All then Unbounded else UpTo(|s.slots|)
  }

  /** begin(): on an empty list the iterator is not attached at all. */
  function Begun<I>(s: List<I>, i: I): List<I> {
    if s.slots == [] then s
    else s.(cursors := s.cursors[i := Cursor(Skip(s.slots, 0, |s.slots|), StartMax(s))])
  }

  predicate AtEnd<I>(s: List<I>, i: I) {
    i !in s.cursors || s.cursors[i].index == Clamp(s.cursors[i].max, |s.slots|)
  }

  /** operator++; an iterator at the end is not advanced. */
  function Advanced<I>(s: List<I>, i: I): List<I> {
    if AtEnd(s, i) then s
    else
      var c := s.cursors[i];
      s.(cursors := s.cursors[i := c.(index := Skip(s.slots, c.index + 1, Clamp(c.max, |s.slots|)))])
  }

  /** ~Iter, and the first half of operator=: the only remaining iterator
      compacts the list before it leaves. */
  function Detached<I>(s: List<I>, i: I): List<I> {
    if i !in s.cursors then s
    else s.(slots := if s.cursors.Keys == {i} then Compacted(s.slots) else s.slots,
            cursors := s.cursors - {i})
  }

  /** Copy construction of `to`, which is not attached yet. */
  function Copied<I>(s: List<I>, to: I, from: I): List<I> {
    if from in s.cursors then s.(cursors := s.cursors[to := s.cursors[from]]) else s
  }

  function Assigned<I>(s: List<I>, to: I, from: I): List<I> {
    if to == from then s else Copied(Detached(s, to), to, from)
  }

  datatype Op<!I> =
    | Add(obs: nat)
    | Remove(obs: nat)
    | Clear
    | Begin(it: I)
    | Next(it: I)
    | Copy(to: I, from: I)
    | Assign(to: I, from: I)
    | Leave(it: I)

  function Apply<I>(s: List<I>, op: Op<I>): List<I> {
    match op
    case Add(o) => Added(s, o)
    case Remove(o) => Removed(s, o)
    case Clear => Cleared(s)
    case Begin(i) => if i in s.cursors then s else Begun(s, i)
    case Next(i) => Advanced(s, i)
    case Copy(to, from) => if to in s.cursors then s else Copied(s, to, from)
    case Assign(to, from) => Assigned(s, to, from)
    case Leave(i) => Detached(s, i)
  }

  function Run<I>(s: List<I>, ops: seq<Op<I>>): List<I> {
    if ops == [] then s else Apply(Run(s, ops[..|ops| - 1]), ops[|ops| - 1])
  }

  function Empty<I>(policy: Policy): List<I> {
    List([], map[], policy, 0)
  }

  // ----- what every operation keeps

  /** Registration numbers grow along the list. */
  ghost predicate Numbered(slots: seq<Slot>, nextReg: nat) {
    && (forall j, k :: 0 <= j < k < |slots| ==> slots[j].reg < slots[k].reg)
    && (forall k :: 0 <= k < |slots| ==> slots[k].reg < nextReg)
  }

  ghost predicate Distinct(slots: seq<Slot>) {
    forall j, k :: 0 <= j < k < |slots| && Live(slots[j]) ==> slots[j].ptr != slots[k].ptr
  }

  ghost predicate CursorOk(c: Cursor, policy: Policy, size: nat) {
    && (policy == All <==> c.max == Unbounded)
    && (c.max.UpTo? ==> c.max.n <= size)
    && c.index <= Clamp(c.max, size)
  }

  ghost predicate Inv<I>(s: List<I>) {
    && Numbered(s.slots, s.nextReg)
    && Distinct(s.slots)
    && (forall i :: i in s.cursors ==> CursorOk(s.cursors[i], s.policy, |s.slots|))
    && (s.cursors == map[] ==> forall k :: 0 <= k < |s.slots| ==> Live(s.slots[k]))
  }

  lemma {:induction false} CompactedKeeps(slots: seq<Slot>, nextReg: nat)
    requires Numbered(slots, nextReg) && Distinct(slots)
    ensures Numbered(Compacted(slots), nextReg) && Distinct(Compacted(slots))
    ensures forall x :: x in Compacted(slots) <==> x in slots && Live(x)
    decreases |slots|
  {
    if slots != [] {
      var last := |slots| - 1;
      CompactedKeeps(slots[..last], nextReg);
      assert slots == slots[..last] + [slots[last]];
      var init := Compacted(slots[..last]);
      forall k | 0 <= k < |init| ensures init[k].reg < slots[last].reg && init[k].ptr != slots[last].ptr {
        assert init[k] in slots[..last];
      }
    }
  }

  lemma ApplyKeepsInv<I>(s: List<I>, op: Op<I>)
    requires Inv(s)
    ensures Inv(Apply(s, op))
  {
    match op
    case Add(o) => AddedKeepsInv(s, o);
    case Remove(o) => RemovedKeepsInv(s, o);
    case Clear => ClearedKeepsInv(s);
    case Begin(i) => BegunKeepsInv(s, i);
    case Next(i) => AdvancedKeepsInv(s, i);
    case Copy(to, from) => CopiedKeepsInv(s, to, from);
    case Assign(to, from) =>
      DetachedKeepsInv(s, to);
      CopiedKeepsInv(Detached(s, to), to, from);
    case Leave(i) => DetachedKeepsInv(s, i);
  }

  lemma AddedKeepsInv<I>(s: List<I>, obs: nat)
    requires Inv(s)
    ensures Inv(Added(s, obs))
  {}

  lemma ClearedKeepsInv<I>(s: List<I>)
    requires Inv(s)
    ensures Inv(Cleared(s))
  {}

  lemma BegunKeepsInv<I>(s: List<I>, i: I)
    requires Inv(s)
    ensures Inv(Begun(s, i))
  {}

  lemma AdvancedKeepsInv<I>(s: List<I>, i: I)
    requires Inv(s)
    ensures Inv(Advanced(s, i))
  {}

  lemma CopiedKeepsInv<I>(s: List<I>, to: I, from: I)
    requires Inv(s)
    ensures Inv(Copied(s, to, from))
  {}

  lemma RemovedKeepsInv<I>(s: List<I>, obs: nat)
    requires Inv(s)
    ensures Inv(Removed(s, obs))
  {
    var k := Find(s.slots, obs);
    if k < |s.slots| {
      ErasedKeeps(s.slots, k, s.nextReg);
      MarkedKeeps(s.slots, k, s.nextReg);
    }
  }

  lemma ErasedKeeps(slots: seq<Slot>, k: nat, nextReg: nat)
    requires k < |slots| && Numbered(slots, nextReg) && Distinct(slots)
    ensures var r := slots[..k] + slots[k + 1..];
      && Numbered(r, nextReg) && Distinct(r)
      && ((forall j :: 0 <= j < |slots| ==> Live(slots[j])) ==> forall j :: 0 <= j < |r| ==> Live(r[j]))
  {
    var r := slots[..k] + slots[k + 1..];
    assert forall j :: 0 <= j < |r| ==> r[j] == slots[if j < k then j else j + 1];
  }

  lemma MarkedKeeps(slots: seq<Slot>, k: nat, nextReg: nat)
    requires k < |slots| && Numbered(slots, nextReg) && Distinct(slots)
    ensures var r := slots[k := Marked(slots[k])]; |r| == |slots| && Numbered(r, nextReg) && Distinct(r)
  {}

  lemma OthersRemain<I>(cursors: map<I, Cursor>, i: I)
    requires i in cursors && cursors.Keys != {i}
    ensures cursors - {i} != map[]
  {
    assert cursors.Keys == (cursors.Keys - {i}) + {i};
    assert {} + {i} == {i};
    var j :| j in cursors.Keys - {i};
    assert j in cursors - {i};
  }

  lemma DetachedKeepsInv<I>(s: List<I>, i: I)
    requires Inv(s)
    ensures Inv(Detached(s, i))
  {
    CompactedKeeps(s.slots, s.nextReg);
    if s.cursors.Keys == {i} {
      var c := Compacted(s.slots);
      assert forall k :: 0 <= k < |c| ==> c[k] in c;
    } else if i in s.cursors {
      OthersRemain(s.cursors, i);
    }
  }

  // ----- the list is a plain sequence without duplicates

  /** The observers a user of the list sees, in order. */
  function Observers(slots: seq<Slot>): seq<nat> {
    if slots == [] then []
    else
      var last := slots[|slots| - 1];
      Observers(slots[..|slots| - 1]) + if Live(last) then [last.ptr.observer] else []
  }

  function Without(a: seq<nat>, obs: nat): seq<nat> {
    if a == [] then []
    else Without(a[..|a| - 1], obs) + if a[|a| - 1] == obs then [] else [a[|a| - 1]]
  }

  /** What the operation means for a plain sequence of observers. */
  function Meaning<I>(a: seq<nat>, op: Op<I>): seq<nat> {
    match op
    case Add(o) => if o in a then a else a + [o]
    case Remove(o) => Without(a, o)
    case Clear => []
    case _ => a
  }

  lemma {:induction false} ObserversAppend(a: seq<Slot>, b: seq<Slot>)
    ensures Observers(a + b) == Observers(a) + Observers(b)
    decreases |b|
  {
    if b == [] {
      assert a + b == a;
    } else {
      var last := |b| - 1;
      assert (a + b)[..|a + b| - 1] == a + b[..last];
      ObserversAppend(a, b[..last]);
    }
  }

  lemma {:induction false} ObserversMembers(slots: seq<Slot>, obs: nat)
    ensures obs in Observers(slots) <==> exists k :: 0 <= k < |slots| && slots[k].ptr == To(obs)
    decreases |slots|
  {
    if slots != [] {
      var last := |slots| - 1;
      ObserversMembers(slots[..last], obs);
      if k :| 0 <= k < |slots| && slots[k].ptr == To(obs) {
        assert k < last ==> slots[..last][k].ptr == To(obs);
      }
    }
  }

  lemma {:induction false} ObserversDistinct(slots: seq<Slot>)
    requires Distinct(slots)
    ensures forall j, k :: 0 <= j < k < |Observers(slots)| ==> Observers(slots)[j] != Observers(slots)[k]
    decreases |slots|
  {
    if slots != [] {
      var last := |slots| - 1;
      ObserversDistinct(slots[..last]);
      if Live(slots[last]) {
        ObserversMembers(slots[..last], slots[last].ptr.observer);
        assert slots[last].ptr.observer !in Observers(slots[..last]);
      }
    }
  }

  lemma {:induction false} CompactedObservers(slots: seq<Slot>)
    ensures Observers(Compacted(slots)) == Observers(slots)
    decreases |slots|
  {
    if slots != [] {
      var last := |slots| - 1;
      CompactedObservers(slots[..last]);
      ObserversAppend(Compacted(slots[..last]), [slots[last]]);
      assert slots == slots[..last] + [slots[last]];
      ObserversAppend(slots[..last], [slots[last]]);
    }
  }

  lemma {:induction false} AllMarkedObservers(slots: seq<Slot>)
    requires forall k :: 0 <= k < |slots| ==> !Live(slots[k])
    ensures Observers(slots) == []
    decreases |slots|
  {
    if slots != [] { AllMarkedObservers(slots[..|slots| - 1]); }
  }

  lemma {:induction false} WithoutAbsent(a: seq<nat>, obs: nat)
    requires obs !in a
    ensures Without(a, obs) == a
    decreases |a|
  {
    if a != [] {
      WithoutAbsent(a[..|a| - 1], obs);
      assert a == a[..|a| - 1] + [a[|a| - 1]];
    }
  }

  lemma {:induction false} WithoutAppend(a: seq<nat>, b: seq<nat>, obs: nat)
    ensures Without(a + b, obs) == Without(a, obs) + Without(b, obs)
    decreases |b|
  {
    if b == [] {
      assert a + b == a;
    } else {
      assert (a + b)[..|a + b| - 1] == a + b[..|b| - 1];
      WithoutAppend(a, b[..|b| - 1], obs);
    }
  }

  lemma ObserversOfParts(a: seq<Slot>, x: seq<Slot>, b: seq<Slot>)
    ensures Observers(a + x + b) == Observers(a) + Observers(x) + Observers(b)
  {
    ObserversAppend(a, x);
    ObserversAppend(a + x, b);
  }

  lemma WithoutMiddle(a: seq<nat>, obs: nat, b: seq<nat>)
    requires obs !in a && obs !in b
    ensures Without(a + [obs] + b, obs) == a + b
  {
    WithoutAppend(a + [obs], b, obs);
    WithoutLast(a, obs);
    WithoutAbsent(a, obs);
    WithoutAbsent(b, obs);
  }

  lemma WithoutLast(a: seq<nat>, obs: nat)
    ensures Without(a + [obs], obs) == Without(a, obs)
  {
    var s := a + [obs];
    assert s[..|s| - 1] == a;
    assert Without(a, obs) + [] == Without(a, obs);
  }

  lemma ObserversSingle(x: Slot)
    ensures Observers([x]) == if Live(x) then [x.ptr.observer] else []
  {
    assert [x][..0] == [];
  }

  lemma MiddleRemoved(a: seq<Slot>, x: Slot, b: seq<Slot>, obs: nat)
    requires x.ptr == To(obs) && obs !in Observers(a) && obs !in Observers(b)
    ensures Observers(a + b) == Without(Observers(a + [x] + b), obs)
    ensures Observers(a + [Marked(x)] + b) == Without(Observers(a + [x] + b), obs)
  {
    ObserversOfParts(a, [x], b);
    ObserversOfParts(a, [Marked(x)], b);
    ObserversAppend(a, b);
    ObserversSingle(x);
    ObserversSingle(Marked(x));
    WithoutMiddle(Observers(a), obs, Observers(b));
    assert Observers(a) + [] == Observers(a);
  }

  /** Taking out the one slot of `obs`, or marking it, removes just `obs`. */
  lemma SlotRemoved(slots: seq<Slot>, k: nat, obs: nat)
    requires k < |slots| && slots[k].ptr == To(obs) && Distinct(slots)
    ensures Observers(slots[..k] + slots[k + 1..]) == Without(Observers(slots), obs)
    ensures Observers(slots[k := Marked(slots[k])]) == Without(Observers(slots), obs)
  {
    var a, x, b := slots[..k], slots[k], slots[k + 1..];
    OnlyThere(slots, k, obs);
    MiddleRemoved(a, x, b, obs);
    AroundSlot(slots, k, Marked(x));
  }

  lemma OnlyThere(slots: seq<Slot>, k: nat, obs: nat)
    requires k < |slots| && slots[k].ptr == To(obs) && Distinct(slots)
    ensures obs !in Observers(slots[..k]) && obs !in Observers(slots[k + 1..])
  {
    var a, b := slots[..k], slots[k + 1..];
    ObserversMembers(a, obs);
    ObserversMembers(b, obs);
    assert forall j :: 0 <= j < |b| ==> b[j] == slots[k + 1 + j];
  }

  lemma AroundSlot(slots: seq<Slot>, k: nat, y: Slot)
    requires k < |slots|
    ensures slots == slots[..k] + [slots[k]] + slots[k + 1..]
    ensures slots[k := y] == slots[..k] + [y] + slots[k + 1..]
  {}

  lemma AddRefines<I>(s: List<I>, o: nat)
    requires Inv(s)
    ensures Observers(Added(s, o).slots) == if o in Observers(s.slots) then Observers(s.slots) else Observers(s.slots) + [o]
  {
    ObserversMembers(s.slots, o);
    ObserversAppend(s.slots, [Slot(s.nextReg, To(o))]);
    ObserversSingle(Slot(s.nextReg, To(o)));
  }

  lemma RemoveRefines<I>(s: List<I>, o: nat)
    requires Inv(s)
    ensures Observers(Removed(s, o).slots) == Without(Observers(s.slots), o)
  {
    var k := Find(s.slots, o);
    if k < |s.slots| {
      SlotRemoved(s.slots, k, o);
    } else {
      NotThere(s.slots, o);
    }
  }

  lemma NotThere(slots: seq<Slot>, o: nat)
    requires Find(slots, o) == |slots|
    ensures Without(Observers(slots), o) == Observers(slots)
  {
    ObserversMembers(slots, o);
    WithoutAbsent(Observers(slots), o);
  }

  /** Adding, removing and clearing act on the seen list as on a sequence;
      creating, advancing, copying, assigning and destroying iterators, with
      the compaction this may cause, do not change it. */
  lemma RefinesSequence<I>(s: List<I>, op: Op<I>)
    requires Inv(s)
    ensures Observers(Apply(s, op).slots) == Meaning(Observers(s.slots), op)
  {
    match op
    case Add(o) => AddRefines(s, o);
    case Remove(o) => RemoveRefines(s, o);
    case Clear => ClearRefines(s);
    case Assign(to, _) => DetachRefines(s, to);
    case Leave(i) => DetachRefines(s, i);
    case _ =>
  }

  lemma ClearRefines<I>(s: List<I>)
    ensures Observers(Cleared(s).slots) == []
  {
    if s.cursors != map[] { AllMarkedObservers(Cleared(s).slots); }
  }

  lemma DetachRefines<I>(s: List<I>, i: I)
    ensures Observers(Detached(s, i).slots) == Observers(s.slots)
  {
    CompactedObservers(s.slots);
  }

  function MeaningOfRun<I>(ops: seq<Op<I>>): seq<nat> {
    if ops == [] then [] else Meaning(MeaningOfRun(ops[..|ops| - 1]), ops[|ops| - 1])
  }

  /** Over every run from the empty list: the seen list is what the operations
      mean for a plain sequence, it has no duplicates, and tombstones exist
      only while an iterator is live. */
  lemma {:induction false} RunRefinesSequence<I>(policy: Policy, ops: seq<Op<I>>)
    ensures var s := Run(Empty<I>(policy), ops);
      && Inv(s)
      && Observers(s.slots) == MeaningOfRun(ops)
      && (forall j, k :: 0 <= j < k < |Observers(s.slots)| ==> Observers(s.slots)[j] != Observers(s.slots)[k])
      && (s.cursors == map[] ==> forall k :: 0 <= k < |s.slots| ==> Live(s.slots[k]))
    decreases |ops|
  {
    if ops != [] {
      RunRefinesSequence(policy, ops[..|ops| - 1]);
      var s := Run(Empty<I>(policy), ops[..|ops| - 1]);
      ApplyKeepsInv(s, ops[|ops| - 1]);
      RefinesSequence(s, ops[|ops| - 1]);
    }
    ObserversDistinct(Run(Empty<I>(policy), ops).slots);
  }

  // ----- what a walk visits

  /** The history of one walk: the registrations it has landed on, those it
      should deliver (present at its start and, under All, appended since), and
      those removed before their turn. */
  datatype Walk = Walk(visited: seq<nat>, owed: set<nat>, missed: set<nat>)

  ghost function LiveRegs(slots: seq<Slot>): set<nat> {
    set k | 0 <= k < |slots| && Live(slots[k]) :: slots[k].reg
  }

  function Seen(visited: seq<nat>): set<nat> {
    set r | r in visited
  }

  /** The iterator points at a live entry it had not landed on before. */
  predicate LandsOn<I>(s: List<I>, i: I, visited: seq<nat>)
    requires !AtEnd(s, i) ==> s.cursors[i].index < |s.slots|
  {
    !AtEnd(s, i) && Live(s.slots[s.cursors[i].index])
    && (visited == [] || visited[|visited| - 1] != s.slots[s.cursors[i].index].reg)
  }

  /** How one operation, from `s` to `t`, extends the history; it looks only at
      which registrations appeared, which vanished, and where the iterator is. */
  ghost function Extend<I>(s: List<I>, t: List<I>, i: I, w: Walk): Walk
    requires !AtEnd(t, i) ==> t.cursors[i].index < |t.slots|
  {
    Walk(
      if LandsOn(t, i, w.visited) then w.visited + [t.slots[t.cursors[i].index].reg] else w.visited,
      if t.policy == All then w.owed + (LiveRegs(t.slots) - LiveRegs(s.slots)) else w.owed,
      w.missed + (LiveRegs(s.slots) - LiveRegs(t.slots) - Seen(w.visited)))
  }

  /** The live registrations strictly after the iterator, within its limit. */
  ghost function Ahead(slots: seq<Slot>, c: Cursor): set<nat> {
    set k | c.index < k < Clamp(c.max, |slots|) && Live(slots[k]) :: slots[k].reg
  }

  /** What is due has been visited, in order, or lies ahead. */
  ghost predicate Splits(visited: seq<nat>, ahead: set<nat>, due: set<nat>) {
    && Increasing(visited)
    && Seen(visited) + ahead == due
    && (forall r, q :: r in visited && q in ahead ==> r < q)
  }

  ghost predicate WalkInv<I>(s: List<I>, i: I, w: Walk) {
    && Inv(s) && i in s.cursors
    && var c := s.cursors[i];
    && Splits(w.visited, Ahead(s.slots, c), w.owed - w.missed)
    && (forall r :: r in w.owed ==> r < s.nextReg)
    && (forall r :: r in w.missed ==> r < s.nextReg)
    && w.missed !! LiveRegs(s.slots)
    && (c.index < Clamp(c.max, |s.slots|) ==> w.visited != [] && w.visited[|w.visited| - 1] == s.slots[c.index].reg)
  }

  /** begin() on a non-empty list starts a walk that owes what is there. */
  lemma BeginStartsWalk<I>(s: List<I>, i: I)
    requires Inv(s) && s.slots != []
    ensures WalkInv(Begun(s, i), i, Extend(s, Begun(s, i), i, Walk([], LiveRegs(s.slots), {})))
  {
    var t := Begun(s, i);
    var c := t.cursors[i];
    BegunKeepsInv(s, i);
    FirstSplits(s.slots, c.index);
    assert Ahead(t.slots, c) == LiveAfter(s.slots, c.index);
    var w := Extend(s, t, i, Walk([], LiveRegs(s.slots), {}));
    assert w.owed - w.missed == LiveRegs(s.slots) && w.missed == {};
    assert w.visited == if c.index < |s.slots| then [s.slots[c.index].reg] else [];
  }

  ghost function LiveAfter(slots: seq<Slot>, at: nat): set<nat> {
    set k | at < k < |slots| && Live(slots[k]) :: slots[k].reg
  }

  lemma FirstSplits(slots: seq<Slot>, at: nat)
    requires at == Skip(slots, 0, |slots|) && forall j, k :: 0 <= j < k < |slots| ==> slots[j].reg < slots[k].reg
    ensures Splits(if at < |slots| then [slots[at].reg] else [], LiveAfter(slots, at), LiveRegs(slots))
  {
    if at < |slots| {
      assert LiveRegs(slots) == {slots[at].reg} + LiveAfter(slots, at);
    } else {
      assert LiveRegs(slots) == {} && LiveAfter(slots, at) == {};
    }
  }

  lemma IncreasingSnoc(a: seq<nat>, r: nat)
    requires Increasing(a) && forall x :: x in a ==> x < r
    ensures Increasing(a + [r]) && Seen(a + [r]) == Seen(a) + {r}
    ensures a != [] ==> a[|a| - 1] != r
  {
    forall j | 0 <= j < |a| ensures a[j] < r {
      assert a[j] in a;
    }
  }

  lemma LandKeepsSplit(visited: seq<nat>, ahead: set<nat>, r: nat, after: set<nat>, due: set<nat>)
    requires Splits(visited, ahead, due) && ahead == after + {r} && forall q :: q in after ==> r < q
    ensures Splits(visited + [r], after, due)
    ensures visited != [] ==> visited[|visited| - 1] != r
  {
    assert r in ahead;
    IncreasingSnoc(visited, r);
  }

  /** When no entry changes, the history only grows by a landing. */
  lemma ExtendSameSlots<I>(s: List<I>, t: List<I>, i: I, w: Walk)
    requires t.slots == s.slots
    requires !AtEnd(t, i) ==> t.cursors[i].index < |t.slots|
    ensures Extend(s, t, i, w) ==
      w.(visited := if LandsOn(t, i, w.visited) then w.visited + [t.slots[t.cursors[i].index].reg] else w.visited)
  {}

  lemma NextKeepsWalk<I>(s: List<I>, i: I, w: Walk)
    requires WalkInv(s, i, w)
    ensures WalkInv(Advanced(s, i), i, Extend(s, Advanced(s, i), i, w))
  {
    AdvancedKeepsInv(s, i);
    var t := Advanced(s, i);
    ExtendSameSlots(s, t, i, w);
    if !AtEnd(s, i) {
      var c, d := s.cursors[i], t.cursors[i];
      SkipSplitsAhead(s.slots, c, d);
      if d.index < Clamp(d.max, |s.slots|) {
        var r := s.slots[d.index].reg;
        AheadIsLater(s.slots, s.nextReg, d);
        LandKeepsSplit(w.visited, Ahead(s.slots, c), r, Ahead(s.slots, d), w.owed - w.missed);
      }
    }
  }

  lemma AheadIsLater(slots: seq<Slot>, nextReg: nat, c: Cursor)
    requires Numbered(slots, nextReg) && c.index < |slots|
    ensures forall q :: q in Ahead(slots, c) ==> slots[c.index].reg < q
  {}

  lemma SkipSplitsAhead(slots: seq<Slot>, c: Cursor, d: Cursor)
    requires c.index < Clamp(c.max, |slots|)
    requires d == c.(index := Skip(slots, c.index + 1, Clamp(c.max, |slots|)))
    ensures Ahead(slots, c) == Ahead(slots, d) + if d.index < Clamp(c.max, |slots|) then {slots[d.index].reg} else {}
  {
    forall r | r in Ahead(slots, c)
      ensures r in Ahead(slots, d) || (d.index < Clamp(c.max, |slots|) && r == slots[d.index].reg)
    {
      var k :| c.index < k < Clamp(c.max, |slots|) && Live(slots[k]) && slots[k].reg == r;
      assert k >= d.index;
    }
  }

  /** Another operation that leaves entries and this iterator alone. */
  lemma StillKeepsWalk<I>(s: List<I>, t: List<I>, i: I, w: Walk)
    requires WalkInv(s, i, w) && Inv(t)
    requires t.slots == s.slots && t.policy == s.policy && t.nextReg == s.nextReg
    requires i in t.cursors && t.cursors[i] == s.cursors[i]
    ensures WalkInv(t, i, Extend(s, t, i, w))
  {}

  lemma AddKeepsWalk<I>(s: List<I>, i: I, w: Walk, obs: nat)
    requires WalkInv(s, i, w)
    ensures WalkInv(Added(s, obs), i, Extend(s, Added(s, obs), i, w))
  {
    var t := Added(s, obs);
    var c := s.cursors[i];
    AddedKeepsInv(s, obs);
    if t == s {
      StillKeepsWalk(s, t, i, w);
    } else {
      AddedAhead(s, obs, c);
      forall r | r in w.visited ensures r < s.nextReg {
        assert r in Seen(w.visited);
      }
      var v := Extend(s, t, i, w);
      assert s.nextReg !in LiveRegs(s.slots);
      if s.policy == All && c.index == |s.slots| {
        IncreasingSnoc(w.visited, s.nextReg);
        assert v == Walk(w.visited + [s.nextReg], w.owed + {s.nextReg}, w.missed);
      } else {
        assert v == w.(owed := if s.policy == All then w.owed + {s.nextReg} else w.owed);
      }
    }
  }

  lemma AddedAhead<I>(s: List<I>, obs: nat, c: Cursor)
    requires Added(s, obs) != s && CursorOk(c, s.policy, |s.slots|)
    ensures LiveRegs(Added(s, obs).slots) == LiveRegs(s.slots) + {s.nextReg}
    ensures Ahead(Added(s, obs).slots, c) ==
      Ahead(s.slots, c) + if s.policy == All && c.index < |s.slots| then {s.nextReg} else {}
  {
    var t := Added(s, obs);
    assert t.slots[|s.slots|] == Slot(s.nextReg, To(obs));
    forall r | r in LiveRegs(s.slots) ensures r in LiveRegs(t.slots) {
      var k :| 0 <= k < |s.slots| && Live(s.slots[k]) && s.slots[k].reg == r;
      assert t.slots[k] == s.slots[k];
    }
    forall r | r in Ahead(s.slots, c) ensures r in Ahead(t.slots, c) {
      var k :| c.index < k < Clamp(c.max, |s.slots|) && Live(s.slots[k]) && s.slots[k].reg == r;
      assert t.slots[k] == s.slots[k];
    }
  }

  /** Entries of `s` have been marked, none changed otherwise. */
  ghost predicate MarksOnly(a: seq<Slot>, b: seq<Slot>) {
    |a| == |b| && forall k :: 0 <= k < |a| ==> b[k] == a[k] || b[k] == Marked(a[k])
  }

  lemma MarksAhead(a: seq<Slot>, b: seq<Slot>, nextReg: nat, c: Cursor)
    requires MarksOnly(a, b) && Numbered(a, nextReg)
    ensures LiveRegs(b) <= LiveRegs(a)
    ensures Ahead(b, c) == Ahead(a, c) * LiveRegs(b)
    ensures Ahead(a, c) <= LiveRegs(a)
  {
    forall r | r in Ahead(a, c) && r in LiveRegs(b) ensures r in Ahead(b, c) {
      var k :| c.index < k < Clamp(c.max, |a|) && Live(a[k]) && a[k].reg == r;
      var j :| 0 <= j < |b| && Live(b[j]) && b[j].reg == r;
      assert a[j].reg == r;
      assert j == k;
    }
  }

  lemma MarkKeepsWalk<I>(s: List<I>, t: List<I>, i: I, w: Walk)
    requires WalkInv(s, i, w) && Inv(t)
    requires MarksOnly(s.slots, t.slots) && t == s.(slots := t.slots)
    ensures WalkInv(t, i, Extend(s, t, i, w))
  {
    var c := s.cursors[i];
    MarksAhead(s.slots, t.slots, s.nextReg, c);
    var gone := LiveRegs(s.slots) - LiveRegs(t.slots);
    var v := Extend(s, t, i, w);
    assert v == Walk(w.visited, w.owed, w.missed + (gone - Seen(w.visited)));
    assert Splits(v.visited, Ahead(t.slots, c), v.owed - v.missed);
    assert forall r :: r in gone ==> r < s.nextReg;
  }

  // ----- the walk theorem

  /** The operation neither re-aims, copies over, nor ends the walk of `i`. */
  ghost predicate LeavesAlone<I>(op: Op<I>, i: I) {
    match op
    case Assign(to, from) => to != i || from == i
    case Leave(j) => j != i
    case _ => true
  }

  lemma ApplyKeepsWalk<I>(s: List<I>, op: Op<I>, i: I, w: Walk)
    requires WalkInv(s, i, w) && LeavesAlone(op, i)
    ensures WalkInv(Apply(s, op), i, Extend(s, Apply(s, op), i, w))
  {
    var t := Apply(s, op);
    ApplyKeepsInv(s, op);
    match op
    case Add(o) => AddKeepsWalk(s, i, w, o);
    case Remove(_) => MarkKeepsWalk(s, t, i, w);
    case Clear => MarkKeepsWalk(s, t, i, w);
    case Next(j) => if j == i { NextKeepsWalk(s, i, w); } else { StillKeepsWalk(s, t, i, w); }
    case _ => StillKeepsWalk(s, t, i, w);
  }

  /** The history of the walk of `i` after a run from `s`. */
  ghost function WalkAfter<I>(s: List<I>, ops: seq<Op<I>>, i: I, w: Walk): Walk
    requires WalkInv(s, i, w)
    requires forall k :: 0 <= k < |ops| ==> LeavesAlone(ops[k], i)
    ensures WalkInv(Run(s, ops), i, WalkAfter(s, ops, i, w))
    decreases |ops|
  {
    if ops == [] then w
    else
      var last := |ops| - 1;
      var v := WalkAfter(s, ops[..last], i, w);
      ApplyKeepsWalk(Run(s, ops[..last]), ops[last], i, v);
      Extend(Run(s, ops[..last]), Run(s, ops), i, v)
  }

  /** A walk that has reached its end, whatever else happened during it, has
      visited in insertion order and once each exactly the registrations it
      owed and that were not removed before their turn; at any earlier moment
      the rest of those lie ahead of it, still present. */
  lemma WalkVisitsExactly<I>(s: List<I>, i: I, ops: seq<Op<I>>)
    requires Inv(s) && s.slots != [] && i !in s.cursors
    requires forall k :: 0 <= k < |ops| ==> LeavesAlone(ops[k], i)
    ensures
      var b := Begun(s, i);
      var w := Extend(s, b, i, Walk([], LiveRegs(s.slots), {}));
      && WalkInv(b, i, w)
      && var t := Run(b, ops);
      && var v := WalkAfter(b, ops, i, w);
      && i in t.cursors
      && Increasing(v.visited)
      && Seen(v.visited) <= v.owed - v.missed
      && v.owed - v.missed - Seen(v.visited) <= LiveRegs(t.slots)
      && (AtEnd(t, i) ==> Seen(v.visited) == v.owed - v.missed)
      && v.missed !! LiveRegs(t.slots)
      && (s.policy == ExistingOnly ==> v.owed == LiveRegs(s.slots))
      && (s.policy == All ==> forall r :: r in v.owed <==> r in LiveRegs(s.slots) || s.nextReg <= r < t.nextReg)
  {
    BeginStartsWalk(s, i);
    var b := Begun(s, i);
    var w := Extend(s, b, i, Walk([], LiveRegs(s.slots), {}));
    var t := Run(b, ops);
    WalkSoFar(t, i, WalkAfter(b, ops, i, w));
    BeginOwes(s, i);
    if s.policy == ExistingOnly {
      ExistingOnlyOwesTheStart(b, ops, i, w);
    } else {
      AllOwesTheAppended(b, ops, i, w);
    }
  }

  lemma BeginOwes<I>(s: List<I>, i: I)
    ensures var b := Begun(s, i);
      b.policy == s.policy && b.nextReg == s.nextReg && b.slots == s.slots
  {}

  /** What the walk's invariant says of any moment, and of its end. */
  lemma WalkSoFar<I>(t: List<I>, i: I, v: Walk)
    requires WalkInv(t, i, v)
    ensures Increasing(v.visited)
    ensures Seen(v.visited) <= v.owed - v.missed
    ensures v.owed - v.missed - Seen(v.visited) <= LiveRegs(t.slots)
    ensures AtEnd(t, i) ==> Seen(v.visited) == v.owed - v.missed
  {
    var ahead := Ahead(t.slots, t.cursors[i]);
    assert Seen(v.visited) + ahead == v.owed - v.missed;
    assert AtEnd(t, i) ==> ahead == {};
    assert ahead <= LiveRegs(t.slots);
  }

  lemma {:induction false} RunKeepsPolicy<I>(s: List<I>, ops: seq<Op<I>>)
    ensures Run(s, ops).policy == s.policy
    decreases |ops|
  {
    if ops != [] { RunKeepsPolicy(s, ops[..|ops| - 1]); }
  }

  lemma {:induction false} ExistingOnlyOwesTheStart<I>(s: List<I>, ops: seq<Op<I>>, i: I, w: Walk)
    requires WalkInv(s, i, w) && s.policy == ExistingOnly
    requires forall k :: 0 <= k < |ops| ==> LeavesAlone(ops[k], i)
    ensures WalkAfter(s, ops, i, w).owed == w.owed
    decreases |ops|
  {
    if ops != [] {
      ExistingOnlyOwesTheStart(s, ops[..|ops| - 1], i, w);
      RunKeepsPolicy(s, ops);
    }
  }

  /** The registrations that appear in one step are those it numbers. */
  lemma Newcomers<I>(s: List<I>, op: Op<I>, i: I)
    requires Inv(s) && i in s.cursors && LeavesAlone(op, i)
    ensures var t := Apply(s, op);
      && s.nextReg <= t.nextReg
      && forall r :: r in LiveRegs(t.slots) - LiveRegs(s.slots) <==> s.nextReg <= r < t.nextReg
  {
    var t := Apply(s, op);
    match op
    case Add(o) =>
      if t != s {
        AddedAhead(s, o, s.cursors[i]);
        assert s.nextReg !in LiveRegs(s.slots);
      }
    case Remove(_) => MarksAhead(s.slots, t.slots, s.nextReg, s.cursors[i]);
    case Clear => MarksAhead(s.slots, t.slots, s.nextReg, s.cursors[i]);
    case _ => assert t.slots == s.slots;
  }

  /** Under All a walk owes what it owed at first and all that came since. */
  lemma {:induction false} AllOwesTheAppended<I>(s: List<I>, ops: seq<Op<I>>, i: I, w: Walk)
    requires WalkInv(s, i, w) && s.policy == All
    requires forall k :: 0 <= k < |ops| ==> LeavesAlone(ops[k], i)
    ensures s.nextReg <= Run(s, ops).nextReg
    ensures forall r :: r in WalkAfter(s, ops, i, w).owed <==> r in w.owed || s.nextReg <= r < Run(s, ops).nextReg
    decreases |ops|
  {
    if ops != [] {
      var before := ops[..|ops| - 1];
      AllOwesTheAppended(s, before, i, w);
      RunKeepsPolicy(s, ops);
      var v := WalkAfter(s, before, i, w);
      assert WalkInv(Run(s, before), i, v);
      Newcomers(Run(s, before), ops[|ops| - 1], i);
      assert WalkAfter(s, ops, i, w).owed == v.owed + (LiveRegs(Run(s, ops).slots) - LiveRegs(Run(s, before).slots));
    }
  }

  /** A copied or assigned iterator carries on the walk it was taken from. */
  lemma CopyCarriesWalk<I>(s: List<I>, to: I, from: I, w: Walk)
    requires WalkInv(s, from, w) && to != from
    ensures WalkInv(Assigned(s, to, from), to, w)
    ensures to !in s.cursors ==> WalkInv(Copied(s, to, from), to, w)
  {
    ApplyKeepsInv(s, Assign(to, from));
    CopiedKeepsInv(s, to, from);
  }

  lemma Overwritten<I>(cursors: map<I, Cursor>, i: I, c: Cursor, d: Cursor)
    ensures cursors[i := c][i := d] == cursors[i := d]
  {}

  // ----- the objects

  class ObserverList {
    const policy: Policy
    var slots: seq<Slot>
    var live: seq<Iter>     // live_iterators_
    var nextReg: nat

    ghost predicate Valid()
      reads this, live
    {
      && (forall j, k :: 0 <= j < k < |live| ==> live[j] != live[k])
      && (forall k :: 0 <= k < |live| ==> live[k].list == this)
      && Inv(View())
    }

    ghost function View(): List<Iter>
      reads this, live
    {
      List(slots, map it | it in live :: Cursor(it.index, it.max), policy, nextReg)
    }

    constructor (policy: Policy)
      ensures Valid() && View() == Empty(policy)
    {
      this.policy := policy;
      slots, live, nextReg := [], [], 0;
    }

    /** std::find_if over the entries. */
    method FindObserver(obs: nat) returns (k: nat)
      ensures k == Find(slots, obs)
    {
      k := 0;
      while k < |slots| && slots[k].ptr != To(obs)
        invariant k <= |slots|
        invariant Find(slots, obs) == k + Find(slots[k..], obs)
      {
        assert slots[k..][1..] == slots[k + 1..];
        k := k + 1;
      }
    }

    method HasObserver(obs: nat) returns (found: bool)
      ensures found <==> obs in Observers(slots)
    {
      var k := FindObserver(obs);
      found := k != |slots|;
      ObserversMembers(slots, obs);
    }

    method AddObserver(obs: nat)
      requires Valid()
      modifies this`slots, this`nextReg
      ensures Valid() && View() == Added(old(View()), obs)
    {
      AddedKeepsInv(View(), obs);
      var k := FindObserver(obs);
      if k != |slots| { return; }
      slots := slots + [Slot(nextReg, To(obs))];
      nextReg := nextReg + 1;
    }

    method RemoveObserver(obs: nat)
      requires Valid()
      modifies this`slots
      ensures Valid() && View() == Removed(old(View()), obs)
    {
      ghost var v := View();
      RemovedKeepsInv(v, obs);
      var k := FindObserver(obs);
      if k == |slots| { return; }
      if live == [] {
        assert v.cursors == map[];
        slots := slots[..k] + slots[k + 1..];
      } else {
        assert live[0] in v.cursors;
        slots := slots[k := Marked(slots[k])];
      }
      assert View().cursors == v.cursors;
    }

    method Clear()
      requires Valid()
      modifies this`slots
      ensures Valid() && View() == Cleared(old(View()))
    {
      ClearedKeepsInv(View());
      if live == [] {
        slots := [];
      } else {
        assert live[0] in View().cursors;
        var k := 0;
        while k < |slots|
          invariant k <= |slots| == |old(slots)|
          invariant forall j :: 0 <= j < k ==> slots[j] == Marked(old(slots)[j])
          invariant forall j :: k <= j < |slots| ==> slots[j] == old(slots)[j]
        {
          slots := slots[k := Marked(slots[k])];
          k := k + 1;
        }
      }
    }

    /** EraseIf: keeps the unmarked entries, in order. */
    method Compact()
      modifies this`slots
      ensures slots == Compacted(old(slots))
    {
      var kept: seq<Slot> := [];
      var k := 0;
      while k < |slots|
        invariant k <= |slots| && slots == old(slots)
        invariant kept == Compacted(slots[..k])
      {
        assert slots[..k + 1][..k] == slots[..k];
        if Live(slots[k]) {
          kept := kept + [slots[k]];
        }
        k := k + 1;
      }
      assert slots[..k] == slots;
      slots := kept;
    }

    method Begin() returns (it: Iter)
      requires Valid()
      modifies this`live
      ensures Valid() && fresh(it) && View() == Begun(old(View()), it)
      ensures it.list == (if slots == [] then null else this)
    {
      if slots == [] {
        it := new Iter.Nowhere();
      } else {
        it := new Iter.At(this);
      }
    }

    /** ~ObserverList: cuts every live iterator loose, first to last. */
    method Destroy()
      requires Valid()
      modifies this`live, live
      ensures live == []
      ensures forall it :: it in old(live) ==> it.list == null && it.index == old(it.index) && it.max == old(it.max)
    {
      while live != []
        invariant forall it :: it in live ==> it in old(live)
        invariant forall it :: it in old(live) && it !in live ==> it.list == null
        invariant forall it :: it in old(live) ==> it.index == old(it.index) && it.max == old(it.max)
        decreases |live|
      {
        ghost var before := live;
        var head := live[0];
        assert head in live;
        head.list := null;
        live := live[1..];
        assert forall it :: it in before ==> it == head || it in live;
      }
    }
  }

  class Iter {
    var list: ObserverList?
    var index: nat
    var max: Max

    /** Attached to a valid list that knows it, or to none. */
    ghost predicate Ok()
      reads this, list, if list == null then {} else set it | it in list.live
    {
      list != null ==> list.Valid() && this in list.live
    }

    constructor Nowhere()
      ensures list == null && index == 0 && max == UpTo(0)
    {
      list, index, max := null, 0, UpTo(0);
    }

    constructor At(l: ObserverList)
      requires l.Valid() && l.slots != []
      modifies l`live
      ensures Ok() && list == l
      ensures l.View() == Begun(old(l.View()), this)
    {
      list, index := null, 0;
      max := if l.policy == All then Unbounded else UpTo(|l.slots|);
      new;
      ghost var was := l.View();
      SetList(l);
      Settle();
      ghost var first := Cursor(0, StartMax(was));
      Overwritten(was.cursors, this, first, Cursor(Skip(l.slots, 0, |l.slots|), StartMax(was)));
    }

    /** WeakLinkNode::SetList: joins the live iterators of `l`. */
    method SetList(l: ObserverList)
      requires list == null && l.Valid() && CursorOk(Cursor(index, max), l.policy, |l.slots|)
      modifies this`list, l`live
      ensures Ok() && list == l && l.live == old(l.live) + [this]
      ensures l.View() == old(l.View()).(cursors := old(l.View()).cursors[this := Cursor(index, max)])
    {
      ghost var v := l.View();
      list := l;
      l.live := l.live + [this];
      assert l.View() == v.(cursors := v.cursors[this := Cursor(index, max)]);
    }

    method ClampedMaxIndex() returns (m: nat)
      requires list != null
      ensures m == Clamp(max, |list.slots|)
    {
      m := if max.Unbounded? || |list.slots| <= max.n then |list.slots| else max.n;
    }

    method EnsureValidIndex()
      requires list != null
      modifies this`index
      ensures index == Skip(list.slots, old(index), Clamp(max, |list.slots|))
    {
      var limit := ClampedMaxIndex();
      while index < limit && !Live(list.slots[index])
        invariant Skip(list.slots, index, limit) == Skip(list.slots, old(index), limit)
        decreases limit - index
      {
        index := index + 1;
      }
    }

    /** EnsureValidIndex, seen from the list: only this cursor moves. */
    method Settle()
      requires Ok() && list != null && index <= Clamp(max, |list.slots|)
      modifies this`index
      ensures Ok()
      ensures list.View() == old(list.View()).(cursors := old(list.View()).cursors[this :=
        Cursor(Skip(list.slots, old(index), Clamp(max, |list.slots|)), max)])
    {
      ghost var v := list.View();
      assert this in v.cursors;
      EnsureValidIndex();
      assert list.View() == v.(cursors := v.cursors[this := Cursor(index, max)]);
    }

    method IsEnd() returns (end: bool)
      requires Ok()
      ensures end <==> list == null || AtEnd(list.View(), this)
    {
      if list == null { return true; }
      var limit := ClampedMaxIndex();
      end := index == limit;
    }

    /** operator++.  At the end of an attached list it leaves the range, one
        beyond the limit, where it is no longer an end iterator. */
    method Next()
      requires Ok()
      modifies this`index
      ensures list == old(list)
      ensures list == null ==> index == old(index)
      ensures list != null && !old(AtEnd(list.View(), this)) ==> Ok() && list.View() == Advanced(old(list.View()), this)
      ensures list != null && old(AtEnd(list.View(), this)) ==>
        index == old(index) + 1 == Clamp(max, |list.slots|) + 1 && !AtEnd(list.View(), this)
    {
      if list != null {
        ghost var v := list.View();
        AdvancedKeepsInv(v, this);
        Increment();
        assert !AtEnd(v, this) ==> list.View() == Advanced(v, this);
      }
    }

    method Increment()
      requires Ok() && list != null
      modifies this`index
      ensures index == Skip(list.slots, old(index) + 1, Clamp(max, |list.slots|))
      ensures Inv(list.View()) ==> Ok()
      ensures list.View() == old(list.View()).(cursors := old(list.View()).cursors[this := Cursor(index, max)])
    {
      ghost var v := list.View();
      index := index + 1;
      EnsureValidIndex();
      assert list.View() == v.(cursors := v.cursors[this := Cursor(index, max)]);
    }

    /** The entry under the iterator: null if it was removed meanwhile. */
    method GetCurrent() returns (p: Ptr)
      requires Ok() && list != null && !AtEnd(list.View(), this)
      ensures p == list.slots[index].ptr
    {
      p := list.slots[index].ptr;
    }

    /** Unlinks this iterator from the list's live iterators. */
    method Invalidate()
      requires list != null ==> this in list.live && forall j, k :: 0 <= j < k < |list.live| ==> list.live[j] != list.live[k]
      modifies this, list
      ensures list == null && index == old(index) && max == old(max)
      ensures old(list) != null ==> var l := old(list);
        && (forall j, k :: 0 <= j < k < |l.live| ==> l.live[j] != l.live[k])
        && (forall it :: it in l.live <==> it in old(l.live) && it != this)
        && l.slots == old(l.slots) && l.nextReg == old(l.nextReg)
    {
      if list != null {
        var l := list;
        var k := 0;
        while l.live[k] != this
          invariant 0 <= k < |l.live| && this !in l.live[..k]
          decreases |l.live| - k
        {
          k := k + 1;
        }
        list := null;
        l.live := l.live[..k] + l.live[k + 1..];
      }
    }

    /** ~Iter: the only remaining iterator compacts the list first. */
    method Leave()
      requires Ok()
      modifies this, list
      ensures list == null && index == old(index) && max == old(max)
      ensures old(list) != null ==> old(list).Valid() && old(list).View() == Detached(old(list.View()), this)
    {
      if list != null {
        var l := list;
        ghost var v := l.View();
        DetachedKeepsInv(v, this);
        if |l.live| == 1 {
          assert v.cursors.Keys == {this};
          l.Compact();
        } else {
          assert v.cursors.Keys != {this} by {
            assert l.live[0] in v.cursors && l.live[1] in v.cursors;
          }
        }
        Invalidate();
        assert forall k :: 0 <= k < |l.live| ==> l.live[k] in l.live;
        assert l.View() == Detached(v, this);
      }
    }

    constructor Copy(other: Iter)
      requires other.Ok()
      modifies other.list
      ensures Ok() && list == other.list && other.Ok()
      ensures list != null ==> list.View() == Copied(old(other.list.View()), this, other)
    {
      list, index, max := null, 0, UpTo(0);
      new;
      Follow(other);
    }

    /** Takes over the place of `other`, if that has a list. */
    method Follow(other: Iter)
      requires list == null && other.Ok()
      modifies this, other.list
      ensures list == other.list && index == other.index && max == other.max
      ensures Ok() && other.Ok() && other.list == old(other.list)
      ensures list != null ==> list.View() == Copied(old(other.list.View()), this, other)
    {
      index, max := other.index, other.max;
      if other.list != null {
        assert other in other.list.View().cursors;
        SetList(other.list);
      }
    }

    /** operator=: leaves the old list, then joins the other's. */
    method Assign(other: Iter)
      requires Ok() && other.Ok()
      modifies this, list, other.list
      ensures list == other.list && index == other.index && max == other.max
      ensures Ok() && other.Ok() && other.list == old(other.list)
      ensures list != null && old(list) == list ==> list.View() == Assigned(old(list.View()), this, other)
      ensures old(list) != list && list != null ==> list.View() == Copied(old(other.list.View()), this, other)
      ensures old(list) != list && old(list) != null ==>
        old(list).Valid() && old(list).View() == Detached(old(list.View()), this)
    {
      if other == this { return; }
      ghost var o := other.list;
      assert o != null ==> other in o.View().cursors;
      Leave();
      assert o != null ==> other in o.View().cursors;
      Follow(other);
    }
  }
}
