/** CallbackList: callbacks that may be added and dropped while any number of
    iterators walk the list.  A callback dropped during a walk is nulled and
    erased when the last iterator goes. */
module CallbackLists {
  import opened Basics

  /** A node of the std::list; `id` is its identity, `live` says that its
      callback is not null. */
  datatype Node = Node(id: nat, live: bool)

  /** Where an iterator stands: on a node, or at the list's fixed end. */
  datatype Pos = At(id: nat) | End

  /** The list, its iterators (known by `I`), active_iterator_count_, the
      nodes whose subscription is not yet destroyed, and the history: which
      nodes were erased and how often the removal callback ran. */
  datatype List<!I> = List(
    nodes: seq<Node>, cursors: map<I, Pos>, active: int, held: set<nat>,
    nextId: nat, erased: seq<nat>, removals: nat)

  // ----- the operations of the code

  function Nulled(nodes: seq<Node>, id: nat): seq<Node> {
    if nodes == [] then []
    else [if nodes[0].id == id then Node(id, false) else nodes[0]] + Nulled(nodes[1..], id)
  }

  function Without(nodes: seq<Node>, id: nat): seq<Node> {
    if nodes == [] then []
    else (if nodes[0].id == id then [] else [nodes[0]]) + Without(nodes[1..], id)
  }

  function Compacted(nodes: seq<Node>): seq<Node> {
    if nodes == [] then []
    else (if nodes[0].live then [nodes[0]] else []) + Compacted(nodes[1..])
  }

  function NullIds(nodes: seq<Node>): seq<nat> {
    if nodes == [] then []
    else (if nodes[0].live then [] else [nodes[0].id]) + NullIds(nodes[1..])
  }

  function PosAt(nodes: seq<Node>, k: nat): Pos {
    if k < |nodes| then At(nodes[k].id) else End
  }

  /** The index of the node an iterator stands on; the size at the end. */
  function IndexOf(nodes: seq<Node>, pos: Pos): (k: nat)
    ensures k <= |nodes|
    ensures k < |nodes| ==> pos == At(nodes[k].id)
    ensures forall j :: 0 <= j < k ==> pos != At(nodes[j].id)
  {
    if nodes == [] || pos == At(nodes[0].id) then 0 else 1 + IndexOf(nodes[1..], pos)
  }

  /** The first live node at or after index `k`. */
  function NextLive(nodes: seq<Node>, k: nat): (r: nat)
    requires k <= |nodes|
    ensures k <= r <= |nodes|
    ensures r < |nodes| ==> nodes[r].live
    ensures forall j :: k <= j < r ==> !nodes[j].live
    decreases |nodes| - k
  {
    if k < |nodes| && !nodes[k].live then NextLive(nodes, k + 1) else k
  }

  function Added<I>(s: List<I>): List<I> {
    s.(nodes := s.nodes + [Node(s.nextId, true)], held := s.held + {s.nextId}, nextId := s.nextId + 1)
  }

  /** The subscription of node `id` is destroyed. */
  function Dropped<I>(s: List<I>, id: nat): List<I> {
    if id !in s.held then s
    else if s.active != 0 then s.(nodes := Nulled(s.nodes, id), held := s.held - {id})
    else s.(nodes := Without(s.nodes, id), held := s.held - {id}, erased := s.erased + [id], removals := s.removals + 1)
  }

  function Opened<I>(s: List<I>, i: I): List<I> {
    s.(cursors := s.cursors[i := PosAt(s.nodes, 0)], active := s.active + 1)
  }

  function Copied<I>(s: List<I>, to: I, from: I): List<I>
    requires from in s.cursors
  {
    s.(cursors := s.cursors[to := s.cursors[from]], active := s.active + 1)
  }

  /** The index GetNext delivers from, or the size when it returns null. */
  function Delivers<I>(s: List<I>, i: I): nat
    requires i in s.cursors
  {
    NextLive(s.nodes, IndexOf(s.nodes, s.cursors[i]))
  }

  function Stepped<I>(s: List<I>, i: I): List<I>
    requires i in s.cursors
  {
    s.(cursors := s.cursors[i := PosAt(s.nodes, Delivers(s, i) + 1)])
  }

  function Closed<I>(s: List<I>, i: I): List<I>
    requires i in s.cursors
  {
    var t := s.(cursors := s.cursors - {i}, active := s.active - 1);
    if t.active != 0 then t
    else t.(nodes := Compacted(s.nodes), erased := s.erased + NullIds(s.nodes),
            removals := s.removals + if NullIds(s.nodes) != [] then 1 else 0)
  }

  datatype Op<!I> = Add | Drop(id: nat) | Open(it: I) | Copy(to: I, from: I) | Next(it: I) | Close(it: I)

  function Apply<I>(s: List<I>, op: Op<I>): List<I> {
    match op
    case Add => Added(s)
    case Drop(id) => Dropped(s, id)
    case Open(i) => if i in s.cursors then s else Opened(s, i)
    case Copy(to, from) => if to in s.cursors || from !in s.cursors then s else Copied(s, to, from)
    case Next(i) => if i in s.cursors then Stepped(s, i) else s
    case Close(i) => if i in s.cursors then Closed(s, i) else s
  }

  function Empty<I>(): List<I> {
    List([], map[], 0, {}, 0, [], 0)
  }

  function Run<I>(ops: seq<Op<I>>): List<I> {
    if ops == [] then Empty() else Apply(Run(ops[..|ops| - 1]), ops[|ops| - 1])
  }

  // ----- what every operation keeps

  ghost predicate HasId(nodes: seq<Node>, id: nat) {
    exists k :: 0 <= k < |nodes| && nodes[k].id == id
  }

  ghost predicate HasLive(nodes: seq<Node>, id: nat) {
    exists k :: 0 <= k < |nodes| && nodes[k] == Node(id, true)
  }

  ghost predicate Sorted(nodes: seq<Node>, nextId: nat) {
    && (forall j, k :: 0 <= j < k < |nodes| ==> nodes[j].id < nodes[k].id)
    && (forall k :: 0 <= k < |nodes| ==> nodes[k].id < nextId)
  }

  /** Each registration is in the list or was erased, never both or twice. */
  ghost predicate ErasedOnce(nodes: seq<Node>, erased: seq<nat>, nextId: nat) {
    && (forall j, k :: 0 <= j < k < |erased| ==> erased[j] != erased[k])
    && (forall k :: 0 <= k < |erased| ==> erased[k] < nextId && !HasId(nodes, erased[k]))
    && (forall id: nat :: id < nextId ==> HasId(nodes, id) || id in erased)
  }

  ghost predicate Inv<I>(s: List<I>) {
    && s.active == |s.cursors|
    && Sorted(s.nodes, s.nextId)
    && (forall id :: id in s.held <==> HasLive(s.nodes, id))
    && (s.active == 0 ==> forall k :: 0 <= k < |s.nodes| ==> s.nodes[k].live)
    && (forall i :: i in s.cursors && s.cursors[i].At? ==> HasId(s.nodes, s.cursors[i].id))
    && ErasedOnce(s.nodes, s.erased, s.nextId)
  }

  lemma {:induction false} NulledNodes(nodes: seq<Node>, id: nat)
    ensures |Nulled(nodes, id)| == |nodes|
    ensures forall k :: 0 <= k < |nodes| ==> Nulled(nodes, id)[k] == if nodes[k].id == id then Node(id, false) else nodes[k]
    decreases |nodes|
  {
    if nodes != [] { NulledNodes(nodes[1..], id); }
  }

  lemma {:induction false} WithoutMembers(nodes: seq<Node>, id: nat, n: Node)
    ensures n in Without(nodes, id) <==> n in nodes && n.id != id
    decreases |nodes|
  {
    if nodes != [] {
      WithoutMembers(nodes[1..], id, n);
      assert nodes == [nodes[0]] + nodes[1..];
    }
  }

  lemma {:induction false} CompactedMembers(nodes: seq<Node>, n: Node)
    ensures n in Compacted(nodes) <==> n in nodes && n.live
    decreases |nodes|
  {
    if nodes != [] {
      CompactedMembers(nodes[1..], n);
      assert nodes == [nodes[0]] + nodes[1..];
    }
  }

  lemma {:induction false} NullIdMembers(nodes: seq<Node>, id: nat)
    ensures id in NullIds(nodes) <==> Node(id, false) in nodes
    decreases |nodes|
  {
    if nodes != [] {
      NullIdMembers(nodes[1..], id);
      assert nodes == [nodes[0]] + nodes[1..];
    }
  }

  lemma SortedCons(n: Node, rest: seq<Node>, nextId: nat)
    requires Sorted(rest, nextId) && n.id < nextId
    requires forall m :: m in rest ==> n.id < m.id
    ensures Sorted([n] + rest, nextId)
  {
    var all := [n] + rest;
    forall k | 0 < k < |all| ensures n.id < all[k].id {
      assert all[k] in rest;
    }
  }

  lemma {:induction false} WithoutSorted(nodes: seq<Node>, id: nat, nextId: nat)
    requires Sorted(nodes, nextId)
    ensures Sorted(Without(nodes, id), nextId)
    decreases |nodes|
  {
    if nodes != [] {
      WithoutSorted(nodes[1..], id, nextId);
      forall m | m in Without(nodes[1..], id) ensures nodes[0].id < m.id {
        WithoutMembers(nodes[1..], id, m);
      }
      SortedCons(nodes[0], Without(nodes[1..], id), nextId);
      assert [] + Without(nodes[1..], id) == Without(nodes[1..], id);
    }
  }

  lemma {:induction false} CompactedSorted(nodes: seq<Node>, nextId: nat)
    requires Sorted(nodes, nextId)
    ensures Sorted(Compacted(nodes), nextId)
    decreases |nodes|
  {
    if nodes != [] {
      CompactedSorted(nodes[1..], nextId);
      forall m | m in Compacted(nodes[1..]) ensures nodes[0].id < m.id {
        CompactedMembers(nodes[1..], m);
      }
      SortedCons(nodes[0], Compacted(nodes[1..]), nextId);
      assert [] + Compacted(nodes[1..]) == Compacted(nodes[1..]);
    }
  }

  lemma {:induction false} NullIdsDistinct(nodes: seq<Node>, nextId: nat)
    requires Sorted(nodes, nextId)
    ensures forall j, k :: 0 <= j < k < |NullIds(nodes)| ==> NullIds(nodes)[j] != NullIds(nodes)[k]
    decreases |nodes|
  {
    if nodes != [] {
      NullIdsDistinct(nodes[1..], nextId);
      NullIdMembers(nodes[1..], nodes[0].id);
    }
  }

  lemma IdMembers(nodes: seq<Node>, id: nat)
    ensures HasId(nodes, id) <==> Node(id, true) in nodes || Node(id, false) in nodes
    ensures HasLive(nodes, id) <==> Node(id, true) in nodes
  {
    if HasId(nodes, id) {
      var k :| 0 <= k < |nodes| && nodes[k].id == id;
      assert nodes[k] == Node(id, true) || nodes[k] == Node(id, false);
    }
  }

  lemma SortedIds(nodes: seq<Node>, nextId: nat, id: nat)
    requires Sorted(nodes, nextId)
    ensures !(Node(id, true) in nodes && Node(id, false) in nodes)
  {}

  lemma AddedKeepsInv<I>(s: List<I>)
    requires Inv(s)
    ensures Inv(Added(s))
  {
    var t := Added(s);
    assert t.nodes[|s.nodes|] == Node(s.nextId, true);
    forall id ensures HasId(t.nodes, id) <==> HasId(s.nodes, id) || id == s.nextId {
      IdMembers(s.nodes, id);
      IdMembers(t.nodes, id);
    }
    forall id ensures HasLive(t.nodes, id) <==> HasLive(s.nodes, id) || id == s.nextId {
      IdMembers(s.nodes, id);
      IdMembers(t.nodes, id);
    }
    forall k | 0 <= k < |s.erased| ensures !HasId(t.nodes, s.erased[k]) {
      assert !HasId(s.nodes, s.erased[k]);
    }
  }

  lemma DroppedInWalkKeepsInv<I>(s: List<I>, id: nat)
    requires Inv(s) && id in s.held && s.active != 0
    ensures Inv(Dropped(s, id))
  {
    var t := Dropped(s, id);
    NulledNodes(s.nodes, id);
    forall x ensures HasId(t.nodes, x) <==> HasId(s.nodes, x) {
      if HasId(s.nodes, x) {
        var k :| 0 <= k < |s.nodes| && s.nodes[k].id == x;
        assert t.nodes[k].id == x;
      }
    }
    forall x ensures HasLive(t.nodes, x) <==> HasLive(s.nodes, x) && x != id {
      if HasLive(s.nodes, x) && x != id {
        var k :| 0 <= k < |s.nodes| && s.nodes[k] == Node(x, true);
        assert t.nodes[k] == Node(x, true);
      }
    }
  }

  lemma DroppedOutsideKeepsInv<I>(s: List<I>, id: nat)
    requires Inv(s) && id in s.held && s.active == 0
    ensures Inv(Dropped(s, id))
  {
    var t := Dropped(s, id);
    WithoutSorted(s.nodes, id, s.nextId);
    forall x ensures HasId(t.nodes, x) <==> HasId(s.nodes, x) && x != id {
      IdMembers(s.nodes, x);
      IdMembers(t.nodes, x);
      WithoutMembers(s.nodes, id, Node(x, true));
      WithoutMembers(s.nodes, id, Node(x, false));
    }
    forall x ensures HasLive(t.nodes, x) <==> HasLive(s.nodes, x) && x != id {
      IdMembers(s.nodes, x);
      IdMembers(t.nodes, x);
      WithoutMembers(s.nodes, id, Node(x, true));
    }
    forall k | 0 <= k < |t.nodes| ensures t.nodes[k].live {
      assert t.nodes[k] in t.nodes;
      WithoutMembers(s.nodes, id, t.nodes[k]);
    }
    IdMembers(s.nodes, id);
    assert id !in s.erased;
    assert forall x :: x in t.erased <==> x in s.erased || x == id;
  }

  lemma CursorCount<I>(cursors: map<I, Pos>, i: I, pos: Pos)
    ensures i !in cursors ==> |cursors[i := pos]| == |cursors| + 1
    ensures i in cursors ==> |cursors[i := pos]| == |cursors| && |cursors - {i}| == |cursors| - 1
  {
    assert cursors[i := pos].Keys == cursors.Keys + {i};
    assert (cursors - {i}).Keys == cursors.Keys - {i};
    assert i in cursors ==> cursors.Keys + {i} == cursors.Keys;
  }

  lemma CursorMovedKeepsInv<I>(s: List<I>, t: List<I>, i: I, k: nat)
    requires Inv(s)
    requires t == s.(cursors := s.cursors[i := PosAt(s.nodes, k)], active := |s.cursors[i := PosAt(s.nodes, k)]|)
    ensures Inv(t)
  {
    CursorCount(s.cursors, i, PosAt(s.nodes, k));
  }

  lemma CopiedKeepsInv<I>(s: List<I>, to: I, from: I)
    requires Inv(s) && to !in s.cursors && from in s.cursors
    ensures Inv(Copied(s, to, from))
  {
    CursorCount(s.cursors, to, s.cursors[from]);
  }

  lemma ClosedKeepsInv<I>(s: List<I>, i: I)
    requires Inv(s) && i in s.cursors
    ensures Inv(Closed(s, i))
  {
    var t := Closed(s, i);
    CursorCount(s.cursors, i, End);
    if t.active == 0 {
      assert t.cursors == map[];
      CompactedSorted(s.nodes, s.nextId);
      CompactionErases(s, t);
    }
  }

  lemma CompactionErases<I>(s: List<I>, t: List<I>)
    requires Inv(s) && t.nodes == Compacted(s.nodes) && t.erased == s.erased + NullIds(s.nodes)
    requires t.held == s.held && t.nextId == s.nextId
    ensures forall id :: id in t.held <==> HasLive(t.nodes, id)
    ensures forall k :: 0 <= k < |t.nodes| ==> t.nodes[k].live
    ensures ErasedOnce(t.nodes, t.erased, t.nextId)
  {
    forall id ensures HasLive(t.nodes, id) <==> HasLive(s.nodes, id) {
      IdMembers(s.nodes, id);
      IdMembers(t.nodes, id);
      CompactedMembers(s.nodes, Node(id, true));
    }
    forall k | 0 <= k < |t.nodes| ensures t.nodes[k].live {
      assert t.nodes[k] in t.nodes;
      CompactedMembers(s.nodes, t.nodes[k]);
    }
    forall id ensures HasId(s.nodes, id) <==> HasId(t.nodes, id) || id in NullIds(s.nodes)
              ensures !(HasId(t.nodes, id) && id in NullIds(s.nodes))
    {
      IdMembers(s.nodes, id);
      IdMembers(t.nodes, id);
      CompactedMembers(s.nodes, Node(id, true));
      CompactedMembers(s.nodes, Node(id, false));
      NullIdMembers(s.nodes, id);
      SortedIds(s.nodes, s.nextId, id);
    }
    NullIdsDistinct(s.nodes, s.nextId);
    ErasedJoin(s.nodes, t.nodes, s.erased, NullIds(s.nodes), s.nextId);
  }

  lemma ErasedJoin(before: seq<Node>, after: seq<Node>, old_: seq<nat>, more: seq<nat>, nextId: nat)
    requires ErasedOnce(before, old_, nextId) && Sorted(before, nextId)
    requires forall j, k :: 0 <= j < k < |more| ==> more[j] != more[k]
    requires forall id :: HasId(before, id) <==> HasId(after, id) || id in more
    requires forall id :: !(HasId(after, id) && id in more)
    ensures ErasedOnce(after, old_ + more, nextId)
  {
    var all := old_ + more;
    forall k | 0 <= k < |more| ensures more[k] !in old_ && more[k] < nextId {
      assert more[k] in more;
      assert HasId(before, more[k]);
    }
    forall k | 0 <= k < |all| ensures all[k] < nextId && !HasId(after, all[k]) {
      if k < |old_| { assert !HasId(before, old_[k]); } else { assert all[k] in more; }
    }
  }

  lemma ApplyKeepsInv<I>(s: List<I>, op: Op<I>)
    requires Inv(s)
    ensures Inv(Apply(s, op))
  {
    match op
    case Add => AddedKeepsInv(s);
    case Drop(id) =>
      if id in s.held {
        if s.active != 0 { DroppedInWalkKeepsInv(s, id); } else { DroppedOutsideKeepsInv(s, id); }
      }
    case Open(i) =>
      if i !in s.cursors {
        CursorCount(s.cursors, i, PosAt(s.nodes, 0));
        CursorMovedKeepsInv(s, Opened(s, i), i, 0);
      }
    case Copy(to, from) => if to !in s.cursors && from in s.cursors { CopiedKeepsInv(s, to, from); }
    case Next(i) =>
      if i in s.cursors {
        CursorCount(s.cursors, i, PosAt(s.nodes, Delivers(s, i) + 1));
        CursorMovedKeepsInv(s, Stepped(s, i), i, Delivers(s, i) + 1);
      }
    case Close(i) => if i in s.cursors { ClosedKeepsInv(s, i); }
  }

  /** Over every run: the count is the number of live iterators, an undestroyed
      subscription's node is in the list with its callback, null nodes exist
      only during a walk, iterators stand on nodes of the list, and each
      registration is in the list or was erased once. */
  lemma {:induction false} RunKeepsInv<I>(ops: seq<Op<I>>)
    ensures Inv(Run(ops))
    decreases |ops|
  {
    if ops == [] {
      var e := Empty<I>();
      assert Inv(e);
    } else {
      RunKeepsInv(ops[..|ops| - 1]);
      ApplyKeepsInv(Run(ops[..|ops| - 1]), ops[|ops| - 1]);
    }
  }

  // ----- when the removal callback runs

  /** The notifications due, counted without looking at the nodes: how many
      iterators walk, whether a subscription was destroyed since the walk
      began, and how many notifications are due so far. */
  datatype Ledger = Ledger(walking: nat, dropped: bool, due: nat)

  ghost function Account<I>(l: Ledger, s: List<I>, op: Op<I>): Ledger {
    match op
    case Drop(id) =>
      if id !in s.held then l
      else if l.walking > 0 then l.(dropped := true)
      else l.(due := l.due + 1)
    case Open(i) => if i in s.cursors then l else l.(walking := l.walking + 1)
    case Copy(to, from) => if to in s.cursors || from !in s.cursors then l else l.(walking := l.walking + 1)
    case Close(i) =>
      if i !in s.cursors then l
      else if l.walking == 1 then Ledger(0, false, l.due + if l.dropped then 1 else 0)
      else l.(walking := if l.walking == 0 then 0 else l.walking - 1)
    case _ => l
  }

  ghost function LedgerOf<I>(ops: seq<Op<I>>): Ledger {
    if ops == [] then Ledger(0, false, 0)
    else Account(LedgerOf(ops[..|ops| - 1]), Run(ops[..|ops| - 1]), ops[|ops| - 1])
  }

  ghost predicate Balanced<I>(s: List<I>, l: Ledger) {
    && l.walking == s.active && l.due == s.removals
    && (l.dropped <==> NullIds(s.nodes) != [])
  }

  lemma {:induction false} NoNulls(nodes: seq<Node>)
    ensures NullIds(nodes) == [] <==> forall k :: 0 <= k < |nodes| ==> nodes[k].live
    decreases |nodes|
  {
    if nodes != [] {
      NoNulls(nodes[1..]);
      assert forall k :: 1 <= k < |nodes| ==> nodes[k] == nodes[1..][k - 1];
    }
  }

  lemma ApplyKeepsBalance<I>(s: List<I>, op: Op<I>, l: Ledger)
    requires Inv(s) && Balanced(s, l)
    ensures Balanced(Apply(s, op), Account(l, s, op))
  {
    ApplyKeepsInv(s, op);
    match op
    case Drop(id) => if id in s.held { DropKeepsBalance(s, id, l); }
    case Add => AddKeepsNulls(s.nodes, Node(s.nextId, true));
    case Close(i) => if i in s.cursors { CloseKeepsBalance(s, i, l); }
    case _ =>
  }

  lemma {:induction false} AddKeepsNulls(nodes: seq<Node>, n: Node)
    requires n.live
    ensures NullIds(nodes + [n]) == NullIds(nodes)
    decreases |nodes|
  {
    var all := nodes + [n];
    if nodes == [] {
      assert all[1..] == [];
    } else {
      assert all[1..] == nodes[1..] + [n] && all[0] == nodes[0];
      AddKeepsNulls(nodes[1..], n);
    }
  }

  lemma DropKeepsBalance<I>(s: List<I>, id: nat, l: Ledger)
    requires Inv(s) && Balanced(s, l) && id in s.held && Inv(Dropped(s, id))
    ensures Balanced(Dropped(s, id), Account(l, s, Op<I>.Drop(id)))
  {
    if s.active != 0 {
      DropLeavesNull(s, id);
    } else {
      NoNulls(s.nodes);
      NoNulls(Dropped(s, id).nodes);
    }
  }

  lemma CloseKeepsBalance<I>(s: List<I>, i: I, l: Ledger)
    requires Inv(s) && Balanced(s, l) && i in s.cursors && Inv(Closed(s, i))
    ensures Balanced(Closed(s, i), Account(l, s, Op<I>.Close(i)))
  {
    NoNulls(Closed(s, i).nodes);
    CursorCount(s.cursors, i, End);
  }

  lemma DropLeavesNull<I>(s: List<I>, id: nat)
    requires Inv(s) && id in s.held && s.active != 0
    ensures NullIds(Dropped(s, id).nodes) != []
  {
    var t := Dropped(s, id);
    NoNulls(t.nodes);
    NulledNodes(s.nodes, id);
    var k :| 0 <= k < |s.nodes| && s.nodes[k] == Node(id, true);
    assert !t.nodes[k].live;
  }

  /** Over every run the removal callback has run once for each subscription
      destroyed outside a walk and once for each outermost walk during which
      some subscription was destroyed. */
  lemma {:induction false} RemovalCallbackRuns<I>(ops: seq<Op<I>>)
    ensures Run(ops).removals == LedgerOf(ops).due
    ensures Balanced(Run(ops), LedgerOf(ops))
    decreases |ops|
  {
    if ops != [] {
      var before := ops[..|ops| - 1];
      RemovalCallbackRuns(before);
      RunKeepsInv(before);
      ApplyKeepsBalance(Run(before), ops[|ops| - 1], LedgerOf(before));
    }
  }

  // ----- an iterator is a queue

  function LiveIds(nodes: seq<Node>): seq<nat> {
    if nodes == [] then []
    else (if nodes[0].live then [nodes[0].id] else []) + LiveIds(nodes[1..])
  }

  /** The callbacks an iterator has still to deliver, in order. */
  function Queue<I>(s: List<I>, i: I): seq<nat>
    requires i in s.cursors
  {
    LiveIds(s.nodes[IndexOf(s.nodes, s.cursors[i])..])
  }

  function Minus(q: seq<nat>, id: nat): seq<nat> {
    if q == [] then [] else (if q[0] == id then [] else [q[0]]) + Minus(q[1..], id)
  }

  lemma {:induction false} SkipNulls(nodes: seq<Node>, k: nat)
    requires k <= |nodes|
    ensures LiveIds(nodes[k..]) == LiveIds(nodes[NextLive(nodes, k)..])
    decreases |nodes| - k
  {
    if k < |nodes| && !nodes[k].live {
      SkipNulls(nodes, k + 1);
      assert nodes[k..][1..] == nodes[k + 1..];
    }
  }

  lemma {:induction false} IndexOfPosAt(nodes: seq<Node>, k: nat, nextId: nat)
    requires Sorted(nodes, nextId) && k <= |nodes|
    ensures IndexOf(nodes, PosAt(nodes, k)) == k
  {}

  /** GetNext delivers the head of the queue, or nothing when it is empty. */
  lemma NextTakesHead<I>(s: List<I>, i: I)
    requires Inv(s) && i in s.cursors
    ensures var q := Queue(s, i); var k := Delivers(s, i);
      if q == [] then k == |s.nodes| && Queue(Stepped(s, i), i) == []
      else k < |s.nodes| && s.nodes[k].id == q[0] && q[0] in s.held && Queue(Stepped(s, i), i) == q[1..]
  {
    var at, k := IndexOf(s.nodes, s.cursors[i]), Delivers(s, i);
    SkipNulls(s.nodes, at);
    LiveIdsHead(s.nodes, k);
    SteppedQueue(s, i, k);
    if k < |s.nodes| {
      assert s.nodes[k] == Node(s.nodes[k].id, true);
    }
  }

  lemma SteppedQueue<I>(s: List<I>, i: I, k: nat)
    requires Inv(s) && i in s.cursors && k == Delivers(s, i)
    ensures Queue(Stepped(s, i), i) == if k < |s.nodes| then LiveIds(s.nodes[k + 1..]) else []
  {
    var next := if k < |s.nodes| then k + 1 else k;
    assert Stepped(s, i).cursors[i] == PosAt(s.nodes, next);
    IndexOfPosAt(s.nodes, next, s.nextId);
    LiveIdsHead(s.nodes, next);
  }

  lemma LiveIdsHead(nodes: seq<Node>, k: nat)
    requires k <= |nodes|
    ensures k == |nodes| ==> LiveIds(nodes[k..]) == []
    ensures k < |nodes| && nodes[k].live ==>
      LiveIds(nodes[k..]) != [] && LiveIds(nodes[k..])[0] == nodes[k].id && LiveIds(nodes[k..])[1..] == LiveIds(nodes[k + 1..])
  {
    if k < |nodes| {
      assert nodes[k..][1..] == nodes[k + 1..];
    }
  }

  lemma {:induction false} LiveIdsAppend(a: seq<Node>, b: seq<Node>)
    ensures LiveIds(a + b) == LiveIds(a) + LiveIds(b)
    decreases |a|
  {
    if a == [] {
      assert a + b == b && LiveIds(a) + LiveIds(b) == LiveIds(b);
    } else {
      var all, first := a + b, if a[0].live then [a[0].id] else [];
      assert all[1..] == a[1..] + b && all[0] == a[0];
      LiveIdsAppend(a[1..], b);
      assert first + (LiveIds(a[1..]) + LiveIds(b)) == first + LiveIds(a[1..]) + LiveIds(b);
    }
  }

  lemma {:induction false} IndexOfAppend(nodes: seq<Node>, n: Node, pos: Pos)
    requires pos != At(n.id)
    ensures IndexOf(nodes + [n], pos) == if IndexOf(nodes, pos) == |nodes| then |nodes| + 1 else IndexOf(nodes, pos)
    decreases |nodes|
  {
    if nodes == [] {
      assert (nodes + [n])[1..] == [];
    } else {
      assert (nodes + [n])[1..] == nodes[1..] + [n];
      IndexOfAppend(nodes[1..], n, pos);
    }
  }

  /** A callback added during the walk joins the queue of an iterator, unless
      the iterator has already moved past the last node: then it never will. */
  lemma AddJoinsQueue<I>(s: List<I>, i: I)
    requires Inv(s) && i in s.cursors
    ensures Queue(Added(s), i) == Queue(s, i) + if s.cursors[i] == End then [] else [s.nextId]
  {
    var pos := s.cursors[i];
    var n := Node(s.nextId, true);
    assert pos != At(s.nextId);
    IndexOfAppend(s.nodes, n, pos);
    var at := IndexOf(s.nodes, pos);
    if pos == End {
      assert at == |s.nodes|;
      assert Added(s).nodes[|s.nodes| + 1..] == [] && s.nodes[at..] == [];
    } else {
      assert HasId(s.nodes, pos.id);
      assert at < |s.nodes|;
      assert Added(s).nodes[at..] == s.nodes[at..] + [n];
      LiveIdsAppend(s.nodes[at..], [n]);
      assert [n][1..] == [];
    }
  }

  /** Any notification whose last callback adds another: the one added is
      subscribed, and the iterator will not deliver it. */
  lemma AddedByTheLastIsSkipped<I>(ops: seq<Op<I>>, i: I)
    requires var s := Run(ops); i in s.cursors && s.cursors[i] == End
    ensures var s := Run(ops + [Op.Add]);
      Run(ops).nextId in s.held && i in s.cursors && Queue(s, i) == []
  {
    var s := Run(ops);
    RunKeepsInv(ops);
    RunSnoc(ops, Op.Add);
    AddJoinsQueue(s, i);
    assert s.nodes[IndexOf(s.nodes, End)..] == [];
  }

  /** Such a notification: one callback, delivered. */
  lemma OneDelivered(i: nat)
    ensures var s := Run([Op.Add, Open(i), Next(i)]); i in s.cursors && s.cursors[i] == End && s.nextId == 1
  {
    var one := Added(Empty<nat>());
    var add := Op<nat>.Add;
    RunSnoc([], add);
    RunSnoc([add], Open(i));
    RunSnoc([add, Open(i)], Next(i));
    assert [] + [add] == [add] && [add] + [Open(i)] == [add, Open(i)];
    assert [add, Open(i)] + [Next(i)] == [add, Open(i), Next(i)];
    assert one.nodes == [Node(0, true)];
    StepsToEnd(one, i);
  }

  lemma StepsToEnd<I>(s: List<I>, i: I)
    requires s.nodes == [Node(0, true)]
    ensures Stepped(Opened(s, i), i).cursors[i] == End
  {}

  /** The shortest such run: subscription 1 is held and not to be delivered. */
  lemma SecondCallbackIsSkipped()
    ensures var s := Run<nat>([Op<nat>.Add, Open(0), Next(0), Op<nat>.Add]); 1 in s.held && 0 in s.cursors && Queue(s, 0) == []
  {
    var ops: seq<Op<nat>> := [Op.Add, Open(0), Next(0)];
    OneDelivered(0);
    AddedByTheLastIsSkipped(ops, 0);
    assert ops + [Op<nat>.Add] == [Op<nat>.Add, Open(0), Next(0), Op<nat>.Add];
  }

  lemma RunSnoc<I>(ops: seq<Op<I>>, op: Op<I>)
    ensures Run(ops + [op]) == Apply(Run(ops), op)
  {
    assert (ops + [op])[..|ops|] == ops;
  }

  lemma {:induction false} LiveIdsNulled(nodes: seq<Node>, id: nat)
    ensures LiveIds(Nulled(nodes, id)) == Minus(LiveIds(nodes), id)
    decreases |nodes|
  {
    if nodes != [] {
      LiveIdsNulled(nodes[1..], id);
      var rest := LiveIds(nodes[1..]);
      if nodes[0].live {
        assert ([nodes[0].id] + rest)[1..] == rest;
      } else {
        assert [] + rest == rest;
      }
    }
  }

  /** Destroying a subscription during a walk takes it out of every queue. */
  lemma DropLeavesQueue<I>(s: List<I>, i: I, id: nat)
    requires Inv(s) && i in s.cursors && id in s.held
    ensures Queue(Dropped(s, id), i) == Minus(Queue(s, i), id)
  {
    var at := IndexOf(s.nodes, s.cursors[i]);
    NulledNodes(s.nodes, id);
    assert s.active > 0 by { assert |s.cursors.Keys| > 0; }
    IndexOfNulled(s.nodes, id, s.cursors[i]);
    NulledSuffix(s.nodes, id, at);
    LiveIdsNulled(s.nodes[at..], id);
  }

  lemma {:induction false} IndexOfNulled(nodes: seq<Node>, id: nat, pos: Pos)
    ensures IndexOf(Nulled(nodes, id), pos) == IndexOf(nodes, pos)
    decreases |nodes|
  {
    if nodes != [] { IndexOfNulled(nodes[1..], id, pos); }
  }

  lemma NulledSuffix(nodes: seq<Node>, id: nat, k: nat)
    requires k <= |nodes|
    ensures |Nulled(nodes, id)| == |nodes| && Nulled(nodes, id)[k..] == Nulled(nodes[k..], id)
  {
    NulledNodes(nodes, id);
    NulledNodes(nodes[k..], id);
  }

  // ----- what a whole walk delivers

  /** What an iterator was given, and what it is to be given: the queue it began
      with and each callback added while it was not past the last node. */
  datatype Walk = Walk(delivered: seq<nat>, owed: seq<nat>)

  ghost function Extend<I>(t: List<I>, op: Op<I>, i: I, w: Walk): Walk
    requires i in t.cursors
  {
    if op == Op.Next(i) && Delivers(t, i) < |t.nodes| then w.(delivered := w.delivered + [t.nodes[Delivers(t, i)].id])
    else if op == Op.Add && t.cursors[i] != End then w.(owed := w.owed + [t.nextId])
    else w
  }

  /** The list after `ops`, and the walk of the iterator `i` until then. */
  ghost function WalkRun<I>(s: List<I>, ops: seq<Op<I>>, i: I): (List<I>, Walk)
    requires i in s.cursors
  {
    if ops == [] then (s, Walk([], Queue(s, i)))
    else
      var (t, w) := WalkRun(s, ops[..|ops| - 1], i);
      var op := ops[|ops| - 1];
      (Apply(t, op), if i in t.cursors then Extend(t, op, i, w) else w)
  }

  /** `walk`, what was delivered and what is still queued, is in registration
      order and all owed; of what is owed only dropped callbacks are missing. */
  ghost predicate Walked<I>(t: List<I>, owed: seq<nat>, walk: seq<nat>) {
    && Increasing(walk)
    && (forall x :: x in walk ==> x in owed)
    && (forall x :: x in owed ==> x < t.nextId)
    && (forall x :: x in owed && x in t.held ==> x in walk)
  }

  lemma {:induction false} LiveIdsMembers(nodes: seq<Node>, id: nat)
    ensures id in LiveIds(nodes) <==> Node(id, true) in nodes
    decreases |nodes|
  {
    if nodes != [] {
      LiveIdsMembers(nodes[1..], id);
      assert nodes == [nodes[0]] + nodes[1..];
    }
  }

  lemma {:induction false} LiveIdsIncrease(nodes: seq<Node>, nextId: nat)
    requires Sorted(nodes, nextId)
    ensures Increasing(LiveIds(nodes))
    decreases |nodes|
  {
    if nodes != [] {
      var rest := LiveIds(nodes[1..]);
      LiveIdsIncrease(nodes[1..], nextId);
      forall k | 0 <= k < |rest| ensures nodes[0].id < rest[k] {
        LiveIdsMembers(nodes[1..], rest[k]);
      }
      IncreasingCons(if nodes[0].live then [nodes[0].id] else [], rest);
    }
  }

  lemma IncreasingCons(first: seq<nat>, rest: seq<nat>)
    requires |first| <= 1 && Increasing(rest) && (first != [] ==> forall k :: 0 <= k < |rest| ==> first[0] < rest[k])
    ensures Increasing(first + rest)
  {}

  /** Only callbacks whose subscription is undestroyed are queued. */
  lemma QueueIsHeld<I>(s: List<I>, i: I)
    requires Inv(s) && i in s.cursors
    ensures Increasing(Queue(s, i))
    ensures forall x :: x in Queue(s, i) ==> x in s.held && x < s.nextId
  {
    var rest := s.nodes[IndexOf(s.nodes, s.cursors[i])..];
    LiveIdsIncrease(rest, s.nextId);
    forall x | x in Queue(s, i) ensures x in s.held && x < s.nextId {
      LiveIdsMembers(rest, x);
      assert Node(x, true) in s.nodes;
      IdMembers(s.nodes, x);
    }
  }

  lemma {:induction false} MinusMembers(q: seq<nat>, id: nat, x: nat)
    ensures x in Minus(q, id) <==> x in q && x != id
    decreases |q|
  {
    if q != [] {
      MinusMembers(q[1..], id, x);
      assert q == [q[0]] + q[1..];
    }
  }

  lemma {:induction false} MinusIncreases(d: seq<nat>, q: seq<nat>, id: nat)
    requires Increasing(d + q)
    ensures Increasing(d + Minus(q, id))
    decreases |q|
  {
    if q != [] {
      assert q == [q[0]] + q[1..];
      if q[0] == id {
        assert forall k :: 0 <= k < |d + q[1..]| ==> (d + q[1..])[k] == (d + q)[if k < |d| then k else k + 1];
        MinusIncreases(d, q[1..], id);
        assert Minus(q, id) == Minus(q[1..], id);
      } else {
        assert d + q == d + [q[0]] + q[1..];
        MinusIncreases(d + [q[0]], q[1..], id);
        assert d + Minus(q, id) == d + [q[0]] + Minus(q[1..], id);
      }
    }
  }

  /** Operations that leave the nodes and this iterator alone. */
  lemma OthersKeepQueue<I>(s: List<I>, op: Op<I>, i: I)
    requires Inv(s) && i in s.cursors && op != Op.Close(i) && op != Op.Next(i) && !op.Add? && !op.Drop?
    ensures var t := Apply(s, op); i in t.cursors && Queue(t, i) == Queue(s, i) && t.held == s.held && t.nextId == s.nextId
  {
    if op.Close? && op.it in s.cursors {
      assert i in s.cursors - {op.it};
      assert |s.cursors - {op.it}| > 0;
      CursorCount(s.cursors, op.it, End);
    }
  }

  lemma DropKeepsWalked<I>(s: List<I>, i: I, owed: seq<nat>, d: seq<nat>, id: nat)
    requires Inv(s) && i in s.cursors && Walked(s, owed, d + Queue(s, i)) && id in s.held
    ensures Walked(Dropped(s, id), owed, d + Queue(Dropped(s, id), i))
  {
    var q, t := Queue(s, i), Dropped(s, id);
    DropLeavesQueue(s, i, id);
    MinusIncreases(d, q, id);
    forall x ensures x in Minus(q, id) <==> x in q && x != id {
      MinusMembers(q, id, x);
    }
    assert forall x :: x in d + Minus(q, id) ==> x in d + q;
    assert forall x :: x in d + q && x != id ==> x in d + Minus(q, id);
  }

  lemma AddKeepsWalked<I>(s: List<I>, i: I, owed: seq<nat>, d: seq<nat>)
    requires Inv(s) && i in s.cursors && Walked(s, owed, d + Queue(s, i))
    ensures Walked(Added(s), if s.cursors[i] != End then owed + [s.nextId] else owed, d + Queue(Added(s), i))
  {
    var walk := d + Queue(s, i);
    AddJoinsQueue(s, i);
    if s.cursors[i] == End {
      assert d + Queue(Added(s), i) == walk;
    } else {
      assert d + Queue(Added(s), i) == walk + [s.nextId];
      assert forall k :: 0 <= k < |walk| ==> walk[k] in walk;
    }
  }

  /** From any reachable list, with `i` anywhere in it, whatever is added,
      dropped, opened, copied and closed meanwhile: the iterator delivers in
      registration order and once each, only what it is owed, namely what was
      ahead of it and what was added while it was not past the last node; all
      of that which is still subscribed has been delivered or is still to come,
      and nothing dropped is still to come. */
  lemma {:induction false} WalkDelivers<I>(s: List<I>, ops: seq<Op<I>>, i: I)
    requires Inv(s) && i in s.cursors && forall k :: 0 <= k < |ops| ==> ops[k] != Op.Close(i)
    ensures
      var (t, w) := WalkRun(s, ops, i);
      && Inv(t) && i in t.cursors
      && Walked(t, w.owed, w.delivered + Queue(t, i))
      && forall x :: x in Queue(t, i) ==> x in t.held
    decreases |ops|
  {
    QueueIsHeld(s, i);
    if ops == [] {
      assert [] + Queue(s, i) == Queue(s, i);
    } else {
      var before, op := ops[..|ops| - 1], ops[|ops| - 1];
      WalkDelivers(s, before, i);
      var (t, w) := WalkRun(s, before, i);
      ApplyKeepsInv(t, op);
      WalkStep(t, op, i, w);
      QueueIsHeld(Apply(t, op), i);
    }
  }

  /** A fresh iterator has everything that is subscribed before it, in order. */
  lemma OpenedHasAll<I>(s: List<I>, i: I)
    requires Inv(s) && i !in s.cursors
    ensures Inv(Opened(s, i)) && Increasing(Queue(Opened(s, i), i))
    ensures forall x :: x in Queue(Opened(s, i), i) <==> x in s.held
  {
    var t := Opened(s, i);
    ApplyKeepsInv(s, Op.Open(i));
    QueueIsHeld(t, i);
    IndexOfPosAt(s.nodes, 0, s.nextId);
    assert t.nodes[0..] == s.nodes;
    forall x | x in s.held ensures x in Queue(t, i) {
      IdMembers(s.nodes, x);
      LiveIdsMembers(s.nodes, x);
    }
  }

  /** A copy has the same before it as the iterator it was taken from. */
  lemma CopiedHasSame<I>(s: List<I>, to: I, from: I)
    requires from in s.cursors && to != from
    ensures Queue(Copied(s, to, from), to) == Queue(s, from) == Queue(Copied(s, to, from), from)
  {}

  /** What is owed is what was ahead, and additions. */
  lemma {:induction false} OwedGrows<I>(s: List<I>, ops: seq<Op<I>>, i: I)
    requires i in s.cursors
    ensures var (t, w) := WalkRun(s, ops, i);
      && s.nextId <= t.nextId
      && (forall x :: x in Queue(s, i) ==> x in w.owed)
      && (forall x :: x in w.owed ==> x in Queue(s, i) || s.nextId <= x)
    decreases |ops|
  {
    if ops != [] {
      OwedGrows(s, ops[..|ops| - 1], i);
      var (t, _) := WalkRun(s, ops[..|ops| - 1], i);
      assert t.nextId <= Apply(t, ops[|ops| - 1]).nextId;
    }
  }

  /** A notification, from any reachable list and whatever happens during it:
      the callbacks are delivered in registration order and once each, only
      those subscribed at its start or added since; and of those subscribed at
      its start each has been delivered, is still to come, or was dropped, so
      that at its end none is missing that is still subscribed. */
  lemma NotifyDelivers<I>(s: List<I>, ops: seq<Op<I>>, i: I)
    requires Inv(s) && i !in s.cursors && forall k :: 0 <= k < |ops| ==> ops[k] != Op.Close(i)
    ensures
      var (t, w) := WalkRun(Opened(s, i), ops, i);
      && i in t.cursors && Increasing(w.delivered + Queue(t, i))
      && (forall x :: x in w.delivered + Queue(t, i) ==> x in s.held || s.nextId <= x)
      && (forall x :: x in s.held && x in t.held ==> x in w.delivered + Queue(t, i))
      && (forall x :: x in Queue(t, i) ==> x in t.held)
      && (Delivers(t, i) == |t.nodes| ==> forall x :: x in s.held && x in t.held ==> x in w.delivered)
  {
    var b := Opened(s, i);
    OpenedHasAll(s, i);
    WalkDelivers(b, ops, i);
    OwedGrows(b, ops, i);
    var (t, w) := WalkRun(b, ops, i);
    NextTakesHead(t, i);
    assert Queue(t, i) == [] ==> w.delivered + Queue(t, i) == w.delivered;
  }

  lemma NextKeepsWalked<I>(t: List<I>, i: I, owed: seq<nat>, d: seq<nat>)
    requires Inv(t) && i in t.cursors && Walked(t, owed, d + Queue(t, i))
    ensures
      var more := if Delivers(t, i) < |t.nodes| then d + [t.nodes[Delivers(t, i)].id] else d;
      Walked(Stepped(t, i), owed, more + Queue(Stepped(t, i), i))
  {
    NextTakesHead(t, i);
    var q := Queue(t, i);
    if q != [] {
      Regroup(d, [q[0]], q[1..]);
      assert [q[0]] + q[1..] == q;
    }
  }

  lemma WalkStep<I>(t: List<I>, op: Op<I>, i: I, w: Walk)
    requires Inv(t) && i in t.cursors && op != Op.Close(i) && Walked(t, w.owed, w.delivered + Queue(t, i))
    ensures
      var v := Extend(t, op, i, w);
      i in Apply(t, op).cursors && Walked(Apply(t, op), v.owed, v.delivered + Queue(Apply(t, op), i))
  {
    if op.Add? {
      AddKeepsWalked(t, i, w.owed, w.delivered);
    } else if op.Drop? {
      if op.id in t.held { DropKeepsWalked(t, i, w.owed, w.delivered, op.id); }
    } else if op == Op.Next(i) {
      NextKeepsWalked(t, i, w.owed, w.delivered);
    } else {
      OthersKeepQueue(t, op, i);
    }
  }

  lemma CompactStep(rest: seq<Node>)
    requires rest != []
    ensures if rest[0].live
      then Compacted(rest) == [rest[0]] + Compacted(rest[1..]) && NullIds(rest) == NullIds(rest[1..])
      else Compacted(rest) == Compacted(rest[1..]) && NullIds(rest) == [rest[0].id] + NullIds(rest[1..])
  {
    assert [] + NullIds(rest[1..]) == NullIds(rest[1..]) && [] + Compacted(rest[1..]) == Compacted(rest[1..]);
  }

  // ----- the objects

  class CallbackList {
    var callbacks: seq<Node>
    var activeIteratorCount: int
    var nextId: nat
    ghost var iterators: set<Iterator>
    ghost var held: set<nat>
    ghost var erased: seq<nat>
    ghost var removals: nat

    ghost function View(): List<Iterator>
      reads this, iterators
    {
      List(callbacks, map it | it in iterators :: it.pos, activeIteratorCount, held, nextId, erased, removals)
    }

    ghost predicate Valid()
      reads this, iterators
    {
      (forall it :: it in iterators ==> it.list == this) && Inv(View())
    }

    constructor ()
      ensures Valid() && View() == Empty()
    {
      callbacks, activeIteratorCount, nextId := [], 0, 0;
      iterators, held, erased, removals := {}, {}, [], 0;
    }

    /** Returns the node its subscription is bound to. */
    method Add() returns (id: nat)
      requires Valid()
      modifies this
      ensures Valid() && iterators == old(iterators)
      ensures View() == Added(old(View())) && id == old(nextId)
    {
      AddedKeepsInv(View());
      id := nextId;
      callbacks := callbacks + [Node(id, true)];
      held := held + {id};
      nextId := nextId + 1;
    }

    method OnSubscriptionDestroyed(id: nat)
      requires Valid() && id in held
      modifies this
      ensures Valid() && iterators == old(iterators)
      ensures View() == Dropped(old(View()), id)
    {
      ghost var v := View();
      ApplyKeepsInv(v, Drop(id));
      var k := 0;
      IdMembers(callbacks, id);
      while callbacks[k].id != id
        invariant k < |callbacks| && forall j :: 0 <= j < k ==> callbacks[j].id != id
        decreases |callbacks| - k
      {
        k := k + 1;
      }
      OneNode(callbacks, k, nextId);
      if activeIteratorCount != 0 {
        callbacks := callbacks[k := Node(id, false)];
      } else {
        callbacks := callbacks[..k] + callbacks[k + 1..];
        erased := erased + [id];
        removals := removals + 1;
      }
      held := held - {id};
    }

    /** From the node at `pos`, past the null ones. */
    method FirstLiveFrom(pos: Pos) returns (k: nat)
      ensures k == NextLive(callbacks, IndexOf(callbacks, pos))
    {
      k := 0;
      while k < |callbacks| && pos != At(callbacks[k].id)
        invariant k <= |callbacks| && forall j :: 0 <= j < k ==> pos != At(callbacks[j].id)
      {
        k := k + 1;
      }
      ghost var start := k;
      assert start == IndexOf(callbacks, pos);
      while k < |callbacks| && !callbacks[k].live
        invariant k <= |callbacks| && NextLive(callbacks, k) == NextLive(callbacks, start)
      {
        k := k + 1;
      }
    }

    /** Erases the null nodes; runs the removal callback if there were any. */
    method Compact()
      modifies this`callbacks, this`erased, this`removals
      ensures callbacks == Compacted(old(callbacks)) && erased == old(erased) + NullIds(old(callbacks))
      ensures removals == old(removals) + if NullIds(old(callbacks)) != [] then 1 else 0
    {
      var k := 0;
      var updated := false;
      assert callbacks[..0] + Compacted(callbacks[0..]) == Compacted(callbacks) by { assert callbacks[0..] == callbacks; }
      while k < |callbacks|
        invariant k <= |callbacks|
        invariant callbacks[..k] + Compacted(callbacks[k..]) == Compacted(old(callbacks))
        invariant erased + NullIds(callbacks[k..]) == old(erased) + NullIds(old(callbacks))
        invariant updated <==> |erased| > |old(erased)|
        invariant |erased| >= |old(erased)|
        invariant removals == old(removals)
        decreases |callbacks| - k
      {
        ghost var rest := callbacks[k..];
        assert rest[1..] == callbacks[k + 1..];
        CompactStep(rest);
        if !callbacks[k].live {
          updated := true;
          Regroup(erased, [callbacks[k].id], NullIds(rest[1..]));
          erased := erased + [callbacks[k].id];
          callbacks := callbacks[..k] + callbacks[k + 1..];
          assert callbacks[k..] == rest[1..];
        } else {
          Regroup(callbacks[..k], [rest[0]], Compacted(rest[1..]));
          assert callbacks[..k] + [rest[0]] == callbacks[..k + 1];
          k := k + 1;
        }
      }
      if updated {
        removals := removals + 1;
      }
    }
  }

  lemma OneNode(nodes: seq<Node>, k: nat, nextId: nat)
    requires Sorted(nodes, nextId) && k < |nodes|
    ensures nodes[k := Node(nodes[k].id, false)] == Nulled(nodes, nodes[k].id)
    ensures nodes[..k] + nodes[k + 1..] == Without(nodes, nodes[k].id)
  {
    NulledNodes(nodes, nodes[k].id);
    WithoutOne(nodes, k, nextId);
  }

  lemma {:induction false} WithoutOne(nodes: seq<Node>, k: nat, nextId: nat)
    requires Sorted(nodes, nextId) && k < |nodes|
    ensures Without(nodes, nodes[k].id) == nodes[..k] + nodes[k + 1..]
    decreases k
  {
    var id := nodes[k].id;
    if k == 0 {
      WithoutNone(nodes[1..], id);
      assert [] + nodes[1..] == nodes[1..];
    } else {
      WithoutOne(nodes[1..], k - 1, nextId);
      CutInTail(nodes, k);
    }
  }

  lemma CutInTail(nodes: seq<Node>, k: nat)
    requires 0 < k < |nodes|
    ensures [nodes[0]] + (nodes[1..][..k - 1] + nodes[1..][k..]) == nodes[..k] + nodes[k + 1..]
  {
    assert nodes[1..][..k - 1] == nodes[1..k] && nodes[1..][k..] == nodes[k + 1..];
    assert [nodes[0]] + nodes[1..k] == nodes[..k];
  }

  lemma {:induction false} WithoutNone(nodes: seq<Node>, id: nat)
    requires forall k :: 0 <= k < |nodes| ==> nodes[k].id != id
    ensures Without(nodes, id) == nodes
    decreases |nodes|
  {
    if nodes != [] {
      WithoutNone(nodes[1..], id);
      assert nodes == [nodes[0]] + nodes[1..];
    }
  }

  class Iterator {
    const list: CallbackList
    var pos: Pos

    constructor (list: CallbackList)
      requires list.Valid()
      modifies list
      ensures this.list == list && list.Valid() && list.iterators == old(list.iterators) + {this}
      ensures list.View() == Opened(old(list.View()), this)
      ensures Increasing(Queue(list.View(), this)) && forall x :: x in Queue(list.View(), this) <==> x in list.held
    {
      ghost var v := list.View();
      this.list := list;
      pos := PosAt(list.callbacks, 0);
      new;
      Join(old(list.View()), 0);
      OpenedHasAll(v, this);
    }

    /** Counts this new iterator in. */
    method Join(ghost v: List<Iterator>, ghost k: nat)
      requires list.Valid() && this !in list.iterators && v == list.View() && pos == PosAt(list.callbacks, k)
      modifies list
      ensures list.Valid() && list.iterators == old(list.iterators) + {this}
      ensures list.View() == v.(cursors := v.cursors[this := pos], active := v.active + 1)
    {
      CursorCount(v.cursors, this, pos);
      CursorMovedKeepsInv(v, v.(cursors := v.cursors[this := pos], active := v.active + 1), this, k);
      list.iterators := list.iterators + {this};
      list.activeIteratorCount := list.activeIteratorCount + 1;
      assert list.View() == v.(cursors := v.cursors[this := pos], active := v.active + 1);
    }

    constructor Copy(other: Iterator)
      requires other.list.Valid() && other in other.list.iterators
      modifies other.list
      ensures list == other.list && list.Valid() && list.iterators == old(other.list.iterators) + {this}
      ensures list.View() == Copied(old(other.list.View()), this, other)
      ensures Queue(list.View(), this) == old(Queue(other.list.View(), other))
    {
      this.list := other.list;
      pos := other.pos;
      ghost var k := IndexOf(other.list.callbacks, other.pos);
      assert other in other.list.View().cursors;
      new;
      Join(old(other.list.View()), k);
    }

    /** ~Iterator: the last one to go compacts the list. */
    method Leave()
      requires list.Valid() && this in list.iterators
      modifies list
      ensures list.Valid() && list.iterators == old(list.iterators) - {this}
      ensures list.View() == Closed(old(list.View()), this)
    {
      ghost var v := list.View();
      ClosedKeepsInv(v, this);
      list.iterators := list.iterators - {this};
      list.activeIteratorCount := list.activeIteratorCount - 1;
      if list.activeIteratorCount == 0 {
        list.Compact();
      }
      assert list.View() == Closed(v, this);
    }

    /** The next live callback's node, or None. */
    method GetNext() returns (found: bool, id: nat)
      requires list.Valid() && this in list.iterators
      modifies this`pos
      ensures list.Valid()
      ensures list.View() == Stepped(old(list.View()), this)
      ensures var q := old(Queue(list.View(), this)); found == (q != []) && (found ==> id == q[0])
    {
      ghost var v := list.View();
      NextTakesHead(v, this);
      var k := Due();
      found := k < |list.callbacks|;
      id := if found then list.callbacks[k].id else 0;
      MoveTo(k + 1);
    }

    /** The index of the next live callback, or the size. */
    method Due() returns (k: nat)
      requires list.Valid() && this in list.iterators
      ensures k == Delivers(list.View(), this)
    {
      ghost var v := list.View();
      assert this in v.cursors && v.cursors[this] == pos;
      k := list.FirstLiveFrom(pos);
    }

    method MoveTo(k: nat)
      requires list.Valid() && this in list.iterators
      modifies this`pos
      ensures list.Valid()
      ensures list.View() == old(list.View()).(cursors := old(list.View()).cursors[this := PosAt(list.callbacks, k)])
    {
      ghost var v := list.View();
      ghost var t := v.(cursors := v.cursors[this := PosAt(v.nodes, k)]);
      assert this in v.cursors;
      CursorCount(v.cursors, this, PosAt(v.nodes, k));
      CursorMovedKeepsInv(v, t, this, k);
      pos := PosAt(list.callbacks, k);
      assert list.View() == t;
    }
  }
}
